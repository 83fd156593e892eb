# Botmaro secrets manager: configuration schema and target addressing

A Dafny model of two pure parts of the Botmaro secrets manager, a command-line
tool that keeps per-environment and per-project secrets in Google Secret Manager.

**Configuration schema** (`secrets_manager/config.py`, module `Config`):

- The records `SecretConfig`, `ProjectConfig`, `EnvironmentConfig` and `SecretsConfig`.
- The `prefix` validator, which keeps an explicit prefix and derives `botmaro-<name>` when the prefix is given as null.
- `get_all_secret_categories`, which finds every field whose name ends in `_secrets`: the declared `global_secrets` and any number of extra fields such as `serverside_secrets` or `mobile_secrets`.
- The lookups `get_environment` and `get_project`.
- The way `from_file` picks a parser from the file's suffix.

`get_all_secret_categories` works step by step: nested loops fill an insertion-ordered dict. So it is the method `Config.GetAllSecretCategories`, with loops over the declared fields, the extra fields and each list's items. It is proved equal to the function `Config.SecretCategories`. The lemmas about that function state the promised behaviour:

- `global_secrets` always comes first.
- Every extra field whose name ends in `_secrets` and whose value is a list becomes a category, in the order given. Empty ones are included.
- Items that are neither mappings nor secret records are dropped. The items that remain keep their order.
- No category name appears twice.

The Python dict is modelled in module `Dicts` as a sequence of entries. `Put` is the assignment `d[k] = v`.

**Target addressing** (`secrets_manager/cli.py`, module `Cli`):

- `parse_target`, which splits `env[.project][.SECRET]` into a triple.
- The "secret name required" guard of `set`, `get` and `delete`.
- The `target_str` rendering.
- The value masking of `bootstrap`, `get` and `list`.

`Cli.Parses` is a definition of "t is the parse of this text" that does not mention splitting. `ParseTarget` meets it, and `ParsesUnique` shows that at most one triple meets it. Rendering a parsed secret target with `target_str` gives back the original text. The one exception is an empty project: `env..X` prints as `env.X`.

Module `Strings` models the Python string operations these rely on: `endswith`, `split`, `join`, `rfind` and `isupper`.

## Model

| member | source | states |
|---|---|---|
| `Strings.Split` | secrets_manager/cli.py:33 | `str.split('.')` gives at least one part; no part holds a dot; joining the parts with dots gives back the string; there is exactly one part iff the string has no dot |
| `Strings.SplitJoin` | secrets_manager/cli.py:47 | splitting the dot-join of dot-free parts gives the parts back |
| `Strings.JoinInjective` | secrets_manager/cli.py:47 | two non-empty lists of dot-free parts with the same dot-join are equal |
| `Strings.SameFirstPart` | secrets_manager/cli.py:33 | two texts that each run up to a dot or the end agree on that run and on what follows it |
| `Strings.Join` | secrets_manager/cli.py:47 | the first part begins the join, and two or more parts put a separator in it |
| `Strings.JoinSnoc` | secrets_manager/cli.py:47 | joining one more part appends the separator and that part |
| `Strings.SplitSnoc` | secrets_manager/config.py:97 | appending the separator and a part free of it adds that part to the end of the split |
| `Strings.EndsWith` | secrets_manager/config.py:60 | `endswith` holds iff the string is some text followed by the suffix |
| `Strings.IsUpper` | secrets_manager/cli.py:41 | a string that is upper case is not empty |
| `Strings.LastIndexOf` | secrets_manager/config.py:102 | `rfind` returns the index of the last occurrence, or -1 when there is none |
| `Dicts.GetEntry` | tests/test_multiple_secret_categories.py:45-56 | when keys are distinct, `get` returns the value of the entry that carries the key |
| `Dicts.Put` | secrets_manager/config.py:70 | dict assignment: an existing key keeps its place and takes the new value; a new key is appended; other keys are untouched |
| `Dicts.PutDistinct` | secrets_manager/config.py:70 | assignment never makes a key occur twice |
| `Dicts.Get` | tests/test_multiple_secret_categories.py:45-56 | a lookup in the categories dict is `None` exactly for absent keys; otherwise it returns the value stored under the key |
| `Config.SetPrefix` | secrets_manager/config.py:40-46 | an explicit prefix is kept, even when empty; a null prefix with a name gives `botmaro-<name>`; a null prefix without a name gives `""` |
| `Config.DerivedPrefixInjective` | secrets_manager/config.py:44-45 | two derived prefixes are equal iff the environment names are equal |
| `Config.SetPrefixIdempotent` | secrets_manager/config.py:42-46 | validating a prefix the validator already produced leaves it unchanged |
| `Config.ParseItems` | secrets_manager/config.py:64-69 | a parsed list is never longer than its raw list |
| `Config.ParseSecretList` | secrets_manager/config.py:64-69 | the item loop appends exactly the parse of the list, in order |
| `Config.ParseItemsAppend` | secrets_manager/config.py:65-69 | parsing keeps list order: the parse of `a + b` is the parse of `a` followed by the parse of `b` |
| `Config.ParseItemsKeepsSecrets` | secrets_manager/config.py:66-69 | a list made only of mappings and secret records parses element by element, all kept |
| `Config.ParseItemsDropsOthers` | secrets_manager/config.py:65-69 | a list with no mappings and no secret records parses to the empty list |
| `Config.ParseItemsDropsOne` | secrets_manager/config.py:65-69 | each item that is neither a mapping nor a secret record makes the parse strictly shorter than the list |
| `Config.FieldValue` | secrets_manager/config.py:61 | `getattr` gives a list exactly for `global_secrets` and `service_accounts`, and `global_secrets` gives the declared secrets |
| `Config.IsCategory` | secrets_manager/config.py:60-62 | a field is a category iff its value is a list and its name is some stem followed by `_secrets` |
| `Config.AddCategory` | secrets_manager/config.py:60-70 | a field that is not a category changes nothing; a category field is assigned the parse of its list; every other name keeps its entry or absence |
| `Config.Collect` | secrets_manager/config.py:59-83 | scanning fields keeps the categories found so far, in place at the front, and adds at most one per field |
| `Config.SecretCategories` | secrets_manager/config.py:48-85 | the first category is always `global_secrets`, and each extra field adds at most one more |
| `Config.CollectDistinct` | secrets_manager/config.py:56-83 | recording categories field by field never gives a category name twice |
| `Config.CategoryNames` | secrets_manager/config.py:74-75 | a name is listed iff some field has that name, ends in `_secrets` and holds a list |
| `Config.GetAllSecretCategories` | secrets_manager/config.py:48-85 | the two field loops and the item loop compute `SecretCategories`; keys are unique; for a well-formed environment the keys are `global_secrets` followed by the extra category names, and `global_secrets` holds the declared list |
| `Config.DeclaredFieldNotCategory` | secrets_manager/config.py:59-60 | no declared field other than `global_secrets` ends in `_secrets` |
| `Config.DeclaredStep` | secrets_manager/config.py:59-70 | scanning `global_secrets` records the declared list; scanning any other declared field changes nothing |
| `Config.DeclaredPrefix` | secrets_manager/config.py:59-70 | the declared scan is empty before `global_secrets` and holds only `global_secrets` from then on |
| `Config.DeclaredCategories` | secrets_manager/config.py:59-70 | among the declared fields only `global_secrets` is a category, and it holds the declared list unchanged |
| `Config.CollectKeys` | secrets_manager/config.py:73-83 | scanning distinctly named new fields appends the category names, in field order, after the existing keys |
| `Config.CollectGetCategory` | secrets_manager/config.py:75-83 | a category field ends up holding the parse of its own list |
| `Config.CollectGetOther` | secrets_manager/config.py:73-75 | a name that no category field carries keeps its previous entry or absence |
| `Config.CollectNoCategories` | secrets_manager/config.py:73-75 | fields none of which is a category leave the result unchanged |
| `Config.SecretCategoriesShape` | secrets_manager/config.py:56-85 | category names are unique; for a well-formed environment they are `global_secrets` and then the extra category names, and `global_secrets` holds the declared list |
| `Config.CollectStep` | secrets_manager/config.py:59-83 | scanning one more field applies that field's assignment to the result so far |
| `Config.AddCategoryKeys` | secrets_manager/config.py:70-83 | recording a field that is not yet a key appends its name exactly when it is a category |
| `Config.CategoryKeys` | secrets_manager/config.py:56-83 | category names are `global_secrets` first, then the extra category fields in the order given, with no duplicates |
| `Config.CategoryCount` | secrets_manager/config.py:73-83 | the number of categories is one more than the number of extra category fields |
| `Config.GlobalCategoryPresent` | secrets_manager/config.py:59-70 | `global_secrets` is always a category and holds the declared list |
| `Config.ExtraCategoryContents` | secrets_manager/config.py:75-83 | an extra field ending in `_secrets` whose value is a list is a category holding the parse of that list |
| `Config.EmptyCategoryKept` | secrets_manager/config.py:75-83 | an extra category with an empty list is reported, with no secrets |
| `Config.NotACategory` | secrets_manager/config.py:73-75 | any other name, such as a wrong suffix or a value that is not a list, is not a category |
| `Config.OnlyGlobalSecrets` | secrets_manager/config.py:59-70 | without extra categories the result is exactly `global_secrets` with the declared list |
| `Config.CategoryNamesOfTwo` | secrets_manager/config.py:74-75 | two category fields are named in field order |
| `Config.TestExtrasShape` | tests/test_multiple_secret_categories.py:21-29 | the test's extra fields are well formed and both are categories |
| `Config.TestCategory` | secrets_manager/config.py:77-83 | an extra category whose list holds only mappings holds their records, in order |
| `Config.TestExtraContents` | tests/test_multiple_secret_categories.py:49-56 | in the test's environment `serverside_secrets` holds its two secrets in order and `mobile_secrets` its one secret |
| `Config.ThreeCategoriesExample` | tests/test_multiple_secret_categories.py:39-56 | the test's environment has the three categories global, serverside and mobile in that order, and each holds its secrets in order |
| `Config.GetEnvironment` | secrets_manager/config.py:117-119 | the result is `None` iff the environment is unknown; otherwise it is the stored environment |
| `Config.GetProject` | secrets_manager/config.py:121-126 | the result is `None` iff the environment or the project is absent; otherwise it is the stored project |
| `Config.Components` | secrets_manager/config.py:97 | a part is a path component iff it is one of the split parts and is neither empty nor `.` |
| `Config.ComponentsAppend` | secrets_manager/config.py:97 | components are taken part by part, keeping their order |
| `Config.PathName` | secrets_manager/config.py:97 | a path's name holds no slash, and is either empty or one of the path's slash-separated parts other than `.` |
| `Config.PathNameOfDirFile` | secrets_manager/config.py:97 | `dir/n` has name `n` for any directory, when `n` has no slash and is neither empty nor `.` |
| `Config.Suffix` | secrets_manager/config.py:102-104 | a suffix is either empty, or a dot followed by at least one non-dot character that ends the name and is shorter than it |
| `Config.FormatOfSuffix` | secrets_manager/config.py:102-107 | `.yaml` or `.yml` selects YAML; `.json` selects JSON; every other suffix is unsupported and the error carries it |
| `Config.SelectFormat` | secrets_manager/config.py:97-107 | a missing file is reported before the suffix is examined; `.yaml` or `.yml` selects YAML; `.json` selects JSON; any other suffix is an unsupported-file-type error that carries the suffix |
| `Config.SuffixOfExtension` | secrets_manager/config.py:102-104 | `stem.ext` has suffix `.ext` when the stem is non-empty and the extension has no dot |
| `Config.PathNameOfFileName` | secrets_manager/config.py:97 | a plain file name is its own path name |
| `Config.FormatOfExtension` | secrets_manager/config.py:102-107 | the suffix `.ext` selects YAML for `yml` and `yaml`, JSON for `json`, and is rejected otherwise |
| `Config.FormatOfFileName` | secrets_manager/config.py:102-107 | `x.yml` and `x.yaml` select YAML; `x.json` selects JSON; `x.other` is rejected with suffix `.other` |
| `Config.HiddenFileUnsupported` | secrets_manager/config.py:102-107 | a name like `.yml` has no suffix, so it is rejected |
| `Cli.LooksLikeSecret` | secrets_manager/cli.py:41 | a segment that looks like a secret is not empty, so `env.` parses with an empty project |
| `Cli.ParseTarget` | secrets_manager/cli.py:23-49 | the result reassembles to the input; env and project hold no dot; a secret without a project is one secret-looking segment; a project without a secret does not look like a secret; the error branch cannot be reached |
| `Cli.ParsesUnique` | secrets_manager/cli.py:33-47 | at most one triple parses a given text, so the contract of `ParseTarget` determines its result |
| `Cli.TailSegments` | secrets_manager/cli.py:45-47 | what follows the environment is a dot, the second segment, and then the rest |
| `Cli.ParseOneSegment` | secrets_manager/cli.py:35-37 | a target parses to `(target, None, None)` iff it has no dot |
| `Cli.ParseTwoSegments` | secrets_manager/cli.py:38-44 | `a.b` gives secret `b` when `b` is upper case or contains `_`, and project `b` otherwise |
| `Cli.ParseThreeSegments` | secrets_manager/cli.py:45-47 | `e.p.rest` gives env `e`, project `p` and secret `rest`, where `rest` may contain dots |
| `Cli.ParseExampleSecret` | secrets_manager/cli.py:31 | `staging.MY_SECRET` gives `(staging, None, MY_SECRET)` |
| `Cli.ParseExampleProject` | secrets_manager/cli.py:28 | `staging.myproject` gives `(staging, myproject, None)` |
| `Cli.IsUpperExamples` | secrets_manager/cli.py:41 | `isupper` is false for `"123"` and `"Api1"`, and true for `"API1"` |
| `Cli.TargetStr` | secrets_manager/cli.py:200 | with a non-empty project the text is the reassembly of env, project and secret; with no project or an empty one it is the reassembly of env and secret alone |
| `Cli.TargetStrRoundTrip` | secrets_manager/cli.py:200 | rendering a parsed secret target whose project is absent or non-empty gives back the original text |
| `Cli.TargetStrEmptyProject` | secrets_manager/cli.py:296 | `e..s` parses with the empty project and renders as `e.s`, a different text, so the round trip fails |
| `Cli.RequireSecret` | secrets_manager/cli.py:179-181 | succeeds iff the parsed secret is present and non-empty, and then carries exactly the parsed env, project and secret |
| `Cli.RequireSecretRejectsEnvironment` | secrets_manager/cli.py:240-242 | a target without a dot is rejected |
| `Cli.RequireSecretRejectsProject` | secrets_manager/cli.py:292-294 | `env.project` with a lower-case project is rejected; so is `env.project.` with an empty secret |
| `Cli.RequireSecretAccepts` | secrets_manager/cli.py:177-181 | `e.p.s` with a non-empty `s` is accepted as a project secret; `e.S` with a secret-looking `S` is accepted as an environment secret |
| `Cli.RequireSecretAccepted` | secrets_manager/cli.py:290-296 | an accepted target contains a dot; if its project is absent or non-empty, it renders back to itself |
| `Cli.Mask` | secrets_manager/cli.py:118 | a value longer than 8 characters masks to 11 characters: its first 4, `...`, and its last 4; a shorter value masks to `***` |
| `Cli.MaskHidesShortValues` | secrets_manager/cli.py:254 | all values of at most 8 characters mask alike, so none of their characters is shown |
| `Cli.MaskShowsOnlyEnds` | secrets_manager/cli.py:361 | a long value's mask depends only on its first and last four characters |
| `Cli.MaskNeverWhole` | secrets_manager/cli.py:118 | a value of 12 or more characters is never shown whole by its mask |
| `Cli.ListCell` | secrets_manager/cli.py:357-364 | a non-empty value is shown in full with reveal and masked without it; a missing or empty value is shown as `<not found>` |
| `Cli.ListCellHidesWithoutReveal` | secrets_manager/cli.py:360-362 | without reveal, two short values give the same cell, and so do two long values with the same ends |

## Left out

- secrets_manager/core.py is not part of this model. That covers the naming resolver, the bootstrap aggregation, set/get/delete/list against the store, and the check and access-grant logic. Nothing of their merge order, naming or validation is modelled.
- The typer command bodies in cli.py are left out. They read stdin, prompt, set `os.environ`, write files, print rich tables and call the store. Only their pure pieces are modelled: parsing, the guard, `target_str`, masking and the list cell.
- `from_file` and `from_env` read the file system and an environment variable, and parse YAML and JSON. File existence is the parameter `fileExists` of `Config.SelectFormat`. Only the choice of parser is modelled, not the parsing, and not `cls(**data)`.
- Config.SelectFormat: `fileExists` stands for "the path exists and can be opened for reading". The file is opened before its suffix is examined, so an existing directory or an unreadable file raises `OSError` before the suffix check; that error is not modelled. The `FileNotFound` error carries the path text as given, not the normalised `Path(path)` that the message prints (`a//b/` prints as `a/b`).
- Pydantic validation is left out: type coercion, required fields, and `SecretConfig(**item)` raising on a malformed mapping. A mapping item is modelled as `DictItem` carrying the record it validates into.
- Config.SetPrefix models the validator as a function of the given prefix and the name. Whether pydantic runs it when `prefix` is omitted entirely is not modelled, since pydantic does not validate defaults by default.
- Config.WellFormed (extra field names distinct and never a declared field name) is what pydantic guarantees for extra fields. Lemmas assume it; the method itself needs no precondition.
- Strings.IsUpper treats only ASCII letters as cased characters. Python's `str.isupper` also counts non-ASCII and title-case letters, which this model does not.
- Config.PathName models POSIX `pathlib` parsing only: empty and `.` components are dropped and `..` is kept as a name. Windows paths are not modelled. Config.Suffix uses the rule that the suffix starts at the last dot when that dot is neither the first nor the last character of the name.
- The rich markup around printed values (`Value: ... (use --reveal ...)`, colours) is left out, except for the literal not-found cell of `list`.
- quickstart.py (subprocess and gcloud checks) and secrets_manager/__init__.py (version string and re-exports) hold no core logic.
- Projects have a single `secrets` list and accept no extra fields; only environments accept extra `_secrets` fields (secrets_manager/config.py:20-31), so only `EnvironmentConfig` carries categories in the model.
