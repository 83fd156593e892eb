/** The schema of secrets_manager/config.py: the records for secrets,
    projects, environments and the root configuration, the prefix default,
    the discovery of every `*_secrets` category of an environment, the two
    lookups, and the choice of parser by file suffix. */
module Config {

  import opened Basics
  import opened Strings
  import opened Dicts

  /** One declared secret. */
  datatype SecretConfig = SecretConfig(
    name: string,
    description: Option<string>,
    required: bool,
    default: Option<string>)

  /** A project inside an environment. */
  datatype ProjectConfig = ProjectConfig(
    projectId: string,
    secrets: seq<SecretConfig>,
    serviceAccounts: seq<string>)

  /** An element of a list held by an environment field, as it was given:
      a mapping (already validated into the secret it describes), a secret
      record, or anything else. */
  datatype RawItem = DictItem(config: SecretConfig) | ConfigItem(config: SecretConfig) | OtherItem

  /** The value of a field: a list, or anything that is not a list. */
  datatype RawValue = ListValue(items: seq<RawItem>) | OtherValue

  /** An environment. `extras` holds, in the order given, the fields the
      schema does not declare (the record accepts extra fields), such as
      `serverside_secrets` or `mobile_secrets`. */
  datatype EnvironmentConfig = EnvironmentConfig(
    name: string,
    gcpProject: string,
    prefix: Option<string>,
    projects: map<string, ProjectConfig>,
    globalSecrets: seq<SecretConfig>,
    serviceAccounts: seq<string>,
    extras: seq<(string, RawValue)>)

  /** The root configuration. */
  datatype SecretsConfig = SecretsConfig(
    version: string,
    environments: map<string, EnvironmentConfig>)

  // ---------------------------------------------------------------------
  // The prefix default
  // ---------------------------------------------------------------------

  const DefaultPrefixStem := "botmaro-"

  /** The `prefix` validator: `v` is the prefix as given (`None` when it is
      null) and `name` the environment name when that field has already
      been validated. An explicit prefix, even an empty one, is kept; a
      missing one is derived from the name, or is empty without a name. */
  function SetPrefix(v: Option<string>, name: Option<string>): (prefix: string)
    ensures v.Some? ==> prefix == v.value
    ensures v.None? && name.Some? ==> prefix == DefaultPrefixStem + name.value
    ensures v.None? && name.None? ==> prefix == ""
  {
    if v.None? && name.Some? then DefaultPrefixStem + name.value
    else if v.Some? && v.value != "" then v.value
    else ""
  }

  /** Two environments whose prefixes are both derived get distinct prefixes
      exactly when their names differ, so their secrets never share a
      namespace. */
  lemma DerivedPrefixInjective(name1: string, name2: string)
    ensures SetPrefix(None, Some(name1)) == SetPrefix(None, Some(name2)) <==> name1 == name2
  {
    var p1, p2 := SetPrefix(None, Some(name1)), SetPrefix(None, Some(name2));
    if p1 == p2 {
      assert name1 == p1[|DefaultPrefixStem|..];
      assert name2 == p2[|DefaultPrefixStem|..];
    }
  }

  /** Validating a prefix the validator already produced changes nothing. */
  lemma SetPrefixIdempotent(v: Option<string>, name: Option<string>)
    ensures SetPrefix(Some(SetPrefix(v, name)), name) == SetPrefix(v, name)
  {
  }

  // ---------------------------------------------------------------------
  // Secret-category discovery
  // ---------------------------------------------------------------------

  /** The suffix that marks a field as a secret category. */
  const CategorySuffix := "_secrets"

  const GlobalSecretsField := "global_secrets"

  /** The declared fields of an environment, in declaration order. */
  const DeclaredFields: seq<string> :=
    ["name", "gcp_project", "prefix", "projects", "global_secrets", "service_accounts"]

  /** The position of `global_secrets` among the declared fields. */
  const GlobalIndex := 4

  /** Categories discovered so far: category name to its secrets. */
  type Categories = Dict<seq<SecretConfig>>

  /** The declared secrets seen as list items. */
  function AsItems(secrets: seq<SecretConfig>): (items: seq<RawItem>)
    ensures |items| == |secrets|
    ensures forall i :: 0 <= i < |items| ==> items[i] == ConfigItem(secrets[i])
  {
    seq(|secrets|, i requires 0 <= i < |secrets| => ConfigItem(secrets[i]))
  }

  /** The value of a declared field, as `getattr` sees it: the two list
      fields are lists, the others are not. */
  function FieldValue(env: EnvironmentConfig, field: string): (value: RawValue)
    ensures value.ListValue? <==> field == GlobalSecretsField || field == "service_accounts"
    ensures field == GlobalSecretsField ==> value.items == AsItems(env.globalSecrets)
  {
    if field == GlobalSecretsField then ListValue(AsItems(env.globalSecrets))
    else if field == "service_accounts" then ListValue(seq(|env.serviceAccounts|, _ => OtherItem))
    else OtherValue
  }

  /** The declared fields with their values, in declaration order. */
  function DeclaredEntries(env: EnvironmentConfig): (entries: seq<(string, RawValue)>)
    ensures |entries| == |DeclaredFields|
    ensures forall i :: 0 <= i < |entries| ==> entries[i] == (DeclaredFields[i], FieldValue(env, DeclaredFields[i]))
  {
    seq(|DeclaredFields|, i requires 0 <= i < |DeclaredFields| => (DeclaredFields[i], FieldValue(env, DeclaredFields[i])))
  }

  /** What one list item contributes: mappings and secret records are kept,
      everything else is dropped. */
  function ParseItem(item: RawItem): seq<SecretConfig>
  {
    match item
    case DictItem(c) => [c]
    case ConfigItem(c) => [c]
    case OtherItem => []
  }

  /** The secrets parsed from a list, in list order. */
  function ParseItems(items: seq<RawItem>): (parsed: seq<SecretConfig>)
    ensures |parsed| <= |items|
  {
    if items == [] then []
    else ParseItems(items[..|items| - 1]) + ParseItem(items[|items| - 1])
  }

  /** A field is a category when its name ends with the suffix and its value
      is a list. */
  predicate IsCategory(entry: (string, RawValue))
    ensures IsCategory(entry) <==> entry.1.ListValue? && exists stem :: entry.0 == stem + CategorySuffix
  {
    EndsWith(entry.0, CategorySuffix) && entry.1.ListValue?
  }

  /** Records one field in the categories found so far. */
  function AddCategory(cats: Categories, entry: (string, RawValue)): (added: Categories)
    ensures !IsCategory(entry) ==> added == cats
    ensures IsCategory(entry) ==> Get(added, entry.0) == Some(ParseItems(entry.1.items))
    ensures forall k :: k != entry.0 ==> Get(added, k) == Get(cats, k)
  {
    if IsCategory(entry) then Put(cats, entry.0, ParseItems(entry.1.items)) else cats
  }

  /** Records the fields one after the other, in order. Keys are only ever
      assigned, so the keys found so far stay, in place, at the front. */
  function Collect(cats: Categories, entries: seq<(string, RawValue)>): (collected: Categories)
    ensures |cats| <= |collected| <= |cats| + |entries|
    ensures Keys(cats) <= Keys(collected)
  {
    if entries == [] then cats
    else AddCategory(Collect(cats, entries[..|entries| - 1]), entries[|entries| - 1])
  }

  /** Recording fields never gives a category name twice. */
  lemma {:induction false} CollectDistinct(cats: Categories, entries: seq<(string, RawValue)>)
    requires Distinct(Keys(cats))
    ensures Distinct(Keys(Collect(cats, entries)))
  {
    if entries != [] {
      var prev := Collect(cats, entries[..|entries| - 1]);
      CollectDistinct(cats, entries[..|entries| - 1]);
      PutDistinct(prev, entries[|entries| - 1].0);
    }
  }

  /** The categories of an environment: the declared fields first, then the
      extra fields. `global_secrets` always comes first, and each extra field
      gives at most one more category. */
  function SecretCategories(env: EnvironmentConfig): (categories: Categories)
    ensures 1 <= |categories| <= 1 + |env.extras|
    ensures Keys(categories)[0] == GlobalSecretsField
  {
    DeclaredCategories(env);
    Collect(Collect([], DeclaredEntries(env)), env.extras)
  }

  /** The names of the fields that are categories, in order. */
  function CategoryNames(entries: seq<(string, RawValue)>): (names: seq<string>)
    ensures forall k :: k in names <==> exists i :: 0 <= i < |entries| && entries[i].0 == k && IsCategory(entries[i])
  {
    if entries == [] then []
    else
      var init, last := entries[..|entries| - 1], entries[|entries| - 1];
      var names := CategoryNames(init) + (if IsCategory(last) then [last.0] else []);
      assert forall i :: 0 <= i < |init| ==> entries[i] == init[i];
      names
  }

  /** Extra fields are named uniquely and never after a declared field, as
      the record's validation guarantees. */
  predicate WellFormed(env: EnvironmentConfig)
  {
    && (forall i, j :: 0 <= i < j < |env.extras| ==> env.extras[i].0 != env.extras[j].0)
    && (forall i :: 0 <= i < |env.extras| ==> env.extras[i].0 !in DeclaredFields)
  }

  /** `get_all_secret_categories`: scans the declared fields, then the extra
      fields, and for every field that is a category parses its list item by
      item into a new entry of the result. */
  method GetAllSecretCategories(env: EnvironmentConfig) returns (categories: Categories)
    ensures categories == SecretCategories(env)
    ensures Distinct(Keys(categories))
    ensures WellFormed(env) ==> Keys(categories) == [GlobalSecretsField] + CategoryNames(env.extras)
    ensures WellFormed(env) ==> Get(categories, GlobalSecretsField) == Some(env.globalSecrets)
  {
    categories := [];
    ghost var declared := DeclaredEntries(env);
    for i := 0 to |DeclaredFields|
      invariant categories == Collect([], declared[..i])
    {
      var fieldName := DeclaredFields[i];
      if EndsWith(fieldName, CategorySuffix) {
        var value := FieldValue(env, fieldName);
        if value.ListValue? {
          var parsed := ParseSecretList(value.items);
          categories := Put(categories, fieldName, parsed);
        }
      }
      CollectStep([], declared, i);
    }
    assert declared[..|DeclaredFields|] == declared;
    ghost var afterDeclared := categories;
    for i := 0 to |env.extras|
      invariant categories == Collect(afterDeclared, env.extras[..i])
    {
      var (fieldName, value) := env.extras[i];
      if EndsWith(fieldName, CategorySuffix) && value.ListValue? {
        var parsed := ParseSecretList(value.items);
        categories := Put(categories, fieldName, parsed);
      }
      CollectStep(afterDeclared, env.extras, i);
    }
    assert env.extras[..|env.extras|] == env.extras;
    SecretCategoriesShape(env);
  }

  /** One more field scanned: the scan of a longer prefix records that field. */
  lemma CollectStep(cats: Categories, entries: seq<(string, RawValue)>, i: nat)
    requires i < |entries|
    ensures Collect(cats, entries[..i + 1]) == AddCategory(Collect(cats, entries[..i]), entries[i])
  {
    assert entries[..i + 1][..i] == entries[..i];
  }

  /** What the scan of an environment promises: names are unique, and for a
      well-formed environment `global_secrets` comes first, holding the
      declared list, followed by the extra category names. */
  lemma SecretCategoriesShape(env: EnvironmentConfig)
    ensures Distinct(Keys(SecretCategories(env)))
    ensures WellFormed(env) ==> Keys(SecretCategories(env)) == [GlobalSecretsField] + CategoryNames(env.extras)
    ensures WellFormed(env) ==> Get(SecretCategories(env), GlobalSecretsField) == Some(env.globalSecrets)
  {
    CollectDistinct([], DeclaredEntries(env));
    CollectDistinct(Collect([], DeclaredEntries(env)), env.extras);
    if WellFormed(env) {
      CategoryKeys(env);
      GlobalCategoryPresent(env);
    }
  }

  /** The inner loop: the list's items parsed in order. */
  method ParseSecretList(items: seq<RawItem>) returns (parsed: seq<SecretConfig>)
    ensures parsed == ParseItems(items)
  {
    parsed := [];
    for k := 0 to |items|
      invariant parsed == ParseItems(items[..k])
    {
      assert items[..k + 1][..k] == items[..k];
      match items[k]
      case DictItem(c) => parsed := parsed + [c];
      case ConfigItem(c) => parsed := parsed + [c];
      case OtherItem =>
    }
    assert items[..|items|] == items;
  }

  // --- properties of the item parsing --------------------------------------

  /** Parsing keeps list order: the parse of two lists one after the other is
      the two parses one after the other. */
  lemma {:induction false} ParseItemsAppend(a: seq<RawItem>, b: seq<RawItem>)
    ensures ParseItems(a + b) == ParseItems(a) + ParseItems(b)
    decreases |b|
  {
    if b != [] {
      var b' := b[..|b| - 1];
      assert (a + b)[..|a + b| - 1] == a + b';
      ParseItemsAppend(a, b');
    } else {
      assert a + b == a;
    }
  }

  /** A list of secrets and mappings is parsed whole, element by element. */
  lemma {:induction false} ParseItemsKeepsSecrets(items: seq<RawItem>)
    requires forall i :: 0 <= i < |items| ==> !items[i].OtherItem?
    ensures |ParseItems(items)| == |items|
    ensures forall i :: 0 <= i < |items| ==> ParseItems(items)[i] == items[i].config
  {
    if items != [] {
      ParseItemsKeepsSecrets(items[..|items| - 1]);
    }
  }

  /** A list of items that are neither mappings nor secrets parses to nothing. */
  lemma {:induction false} ParseItemsDropsOthers(items: seq<RawItem>)
    requires forall i :: 0 <= i < |items| ==> items[i].OtherItem?
    ensures ParseItems(items) == []
  {
    if items != [] {
      ParseItemsDropsOthers(items[..|items| - 1]);
    }
  }

  /** Every element that is not a secret or mapping makes the parse shorter. */
  lemma {:induction false} ParseItemsDropsOne(a: seq<RawItem>, b: seq<RawItem>)
    ensures |ParseItems(a + [OtherItem] + b)| < |a + [OtherItem] + b|
  {
    ParseItemsAppend(a + [OtherItem], b);
    ParseItemsAppend(a, [OtherItem]);
    assert [OtherItem][..0] == [];
  }

  // --- properties of the category scan ------------------------------------

  /** Among the declared fields only `global_secrets` is a category, so the
      declared scan yields exactly that one entry with the declared list. */
  lemma DeclaredCategories(env: EnvironmentConfig)
    ensures Collect([], DeclaredEntries(env)) == [(GlobalSecretsField, env.globalSecrets)]
  {
    var d := DeclaredEntries(env);
    DeclaredPrefix(env, |d|);
    assert d[..|d|] == d;
  }

  /** No declared field other than `global_secrets` ends with the suffix. */
  lemma DeclaredFieldNotCategory(i: nat)
    requires i < |DeclaredFields| && DeclaredFields[i] != GlobalSecretsField
    ensures !EndsWith(DeclaredFields[i], CategorySuffix)
  {
    if i == 1 {
      assert "gcp_project"[3..][1] != CategorySuffix[1];
    } else if i == 3 {
      assert "projects"[0] != CategorySuffix[0];
    } else if i == 5 {
      assert "service_accounts"[8] != CategorySuffix[0];
    }
  }

  /** The declared scan after its first `k` fields. */
  lemma {:induction false} DeclaredPrefix(env: EnvironmentConfig, k: nat)
    requires k <= |DeclaredFields|
    ensures Collect([], DeclaredEntries(env)[..k]) == if k <= GlobalIndex then [] else [(GlobalSecretsField, env.globalSecrets)]
  {
    var d := DeclaredEntries(env);
    if k > 0 {
      DeclaredPrefix(env, k - 1);
      assert Collect([], d[..k]) == AddCategory(Collect([], d[..k - 1]), d[k - 1]) by {
        assert d[..k][..k - 1] == d[..k - 1];
      }
      DeclaredStep(env, k - 1, Collect([], d[..k - 1]));
    }
  }

  /** Scanning the declared field `i`: `global_secrets` records the declared
      list, every other declared field changes nothing. */
  lemma DeclaredStep(env: EnvironmentConfig, i: nat, cats: Categories)
    requires i < |DeclaredFields|
    requires i == GlobalIndex ==> cats == []
    ensures AddCategory(cats, DeclaredEntries(env)[i]) ==
      if i == GlobalIndex then [(GlobalSecretsField, env.globalSecrets)] else cats
  {
    var e := DeclaredEntries(env)[i];
    if i == GlobalIndex {
      assert DeclaredFields[GlobalIndex] == GlobalSecretsField;
      assert e == (GlobalSecretsField, ListValue(AsItems(env.globalSecrets)));
      assert ParseItems(AsItems(env.globalSecrets)) == env.globalSecrets by {
        ParseItemsKeepsSecrets(AsItems(env.globalSecrets));
      }
      assert EndsWith(GlobalSecretsField, CategorySuffix);
    } else {
      DeclaredFieldNotCategory(i);
    }
  }

  /** Recording a field not yet a key appends its name when it is a category. */
  lemma AddCategoryKeys(cats: Categories, entry: (string, RawValue))
    requires entry.0 !in Keys(cats)
    ensures Keys(AddCategory(cats, entry)) == Keys(cats) + (if IsCategory(entry) then [entry.0] else [])
  {
  }

  /** The keys after scanning fields with distinct names, none already a key:
      the old keys, then the category names in field order. */
  lemma {:induction false} CollectKeys(cats: Categories, entries: seq<(string, RawValue)>)
    requires forall i, j :: 0 <= i < j < |entries| ==> entries[i].0 != entries[j].0
    requires forall i :: 0 <= i < |entries| ==> entries[i].0 !in Keys(cats)
    ensures Keys(Collect(cats, entries)) == Keys(cats) + CategoryNames(entries)
  {
    if entries != [] {
      var init, last := entries[..|entries| - 1], entries[|entries| - 1];
      CollectKeys(cats, init);
      assert last.0 !in CategoryNames(init);
      AddCategoryKeys(Collect(cats, init), last);
    }
  }

  /** A field that is a category, among fields with distinct names, ends up
      holding the parse of its own list. */
  lemma {:induction false} CollectGetCategory(cats: Categories, entries: seq<(string, RawValue)>, i: nat)
    requires forall i, j :: 0 <= i < j < |entries| ==> entries[i].0 != entries[j].0
    requires i < |entries| && IsCategory(entries[i])
    ensures Get(Collect(cats, entries), entries[i].0) == Some(ParseItems(entries[i].1.items))
  {
    var init, last := entries[..|entries| - 1], entries[|entries| - 1];
    if i < |entries| - 1 {
      CollectGetCategory(cats, init, i);
    }
  }

  /** A name that no category field carries keeps the value it had. */
  lemma {:induction false} CollectGetOther(cats: Categories, entries: seq<(string, RawValue)>, k: string)
    requires k !in CategoryNames(entries)
    ensures Get(Collect(cats, entries), k) == Get(cats, k)
  {
    if entries != [] {
      CollectGetOther(cats, entries[..|entries| - 1], k);
    }
  }

  /** Fields none of which is a category change nothing. */
  lemma {:induction false} CollectNoCategories(cats: Categories, entries: seq<(string, RawValue)>)
    requires CategoryNames(entries) == []
    ensures Collect(cats, entries) == cats
  {
    if entries != [] {
      var init := entries[..|entries| - 1];
      assert CategoryNames(init) == [] by {
        assert CategoryNames(init) <= CategoryNames(entries);
      }
      CollectNoCategories(cats, init);
    }
  }

  /** The category names are: `global_secrets` first, then the extra fields
      that are categories, in the order given; no name twice. */
  lemma CategoryKeys(env: EnvironmentConfig)
    requires WellFormed(env)
    ensures Keys(SecretCategories(env)) == [GlobalSecretsField] + CategoryNames(env.extras)
    ensures Distinct(Keys(SecretCategories(env)))
  {
    DeclaredCategories(env);
    var base := [(GlobalSecretsField, env.globalSecrets)];
    assert Keys(base) == [GlobalSecretsField];
    CollectKeys(base, env.extras);
    CollectDistinct(base, env.extras);
  }

  /** There is one category more than there are extra category fields: with
      `serverside_secrets` and `mobile_secrets` there are three. */
  lemma CategoryCount(env: EnvironmentConfig)
    requires WellFormed(env)
    ensures |SecretCategories(env)| == 1 + |CategoryNames(env.extras)|
  {
    CategoryKeys(env);
  }

  /** `global_secrets` is always a category and holds the declared list. */
  lemma GlobalCategoryPresent(env: EnvironmentConfig)
    requires WellFormed(env)
    ensures Get(SecretCategories(env), GlobalSecretsField) == Some(env.globalSecrets)
  {
    DeclaredCategories(env);
    CollectGetOther([(GlobalSecretsField, env.globalSecrets)], env.extras, GlobalSecretsField);
  }

  /** An extra field named `..._secrets` holding a list is a category whose
      secrets are the parse of that list, in order; an empty list gives an
      empty category, which is reported. */
  lemma ExtraCategoryContents(env: EnvironmentConfig, i: nat)
    requires WellFormed(env)
    requires i < |env.extras| && IsCategory(env.extras[i])
    ensures Get(SecretCategories(env), env.extras[i].0) == Some(ParseItems(env.extras[i].1.items))
  {
    CollectGetCategory(Collect([], DeclaredEntries(env)), env.extras, i);
  }

  /** An empty category is kept, with no secrets. */
  lemma EmptyCategoryKept(env: EnvironmentConfig, i: nat)
    requires WellFormed(env)
    requires i < |env.extras| && EndsWith(env.extras[i].0, CategorySuffix)
    requires env.extras[i].1 == ListValue([])
    ensures env.extras[i].0 in Keys(SecretCategories(env))
    ensures Get(SecretCategories(env), env.extras[i].0) == Some([])
  {
    ExtraCategoryContents(env, i);
  }

  /** Any other name, whether not ending in the suffix, or held by a field
      that is not a list, is not a category. */
  lemma NotACategory(env: EnvironmentConfig, k: string)
    requires WellFormed(env)
    requires k != GlobalSecretsField && k !in CategoryNames(env.extras)
    ensures Get(SecretCategories(env), k) == None
  {
    DeclaredCategories(env);
    CollectGetOther([(GlobalSecretsField, env.globalSecrets)], env.extras, k);
  }

  /** Without extra categories the result is `global_secrets` alone. */
  lemma OnlyGlobalSecrets(env: EnvironmentConfig)
    requires CategoryNames(env.extras) == []
    ensures SecretCategories(env) == [(GlobalSecretsField, env.globalSecrets)]
  {
    DeclaredCategories(env);
    CollectNoCategories([(GlobalSecretsField, env.globalSecrets)], env.extras);
  }

  /** The names of two category fields, in order. */
  lemma CategoryNamesOfTwo(a: (string, RawValue), b: (string, RawValue))
    requires IsCategory(a) && IsCategory(b)
    ensures CategoryNames([a, b]) == [a.0, b.0]
  {
    assert [a][..0] == [];
    assert CategoryNames([a]) == [a.0];
    assert [a, b][..1] == [a];
  }

  /** The extra fields of the multiple-categories test: `serverside_secrets`
      with two mappings, then `mobile_secrets` with one. */
  predicate TestExtras(env: EnvironmentConfig, sendgrid: SecretConfig, twilio: SecretConfig, mobile: SecretConfig)
  {
    env.extras == [("serverside_secrets", ListValue([DictItem(sendgrid), DictItem(twilio)])),
                   ("mobile_secrets", ListValue([DictItem(mobile)]))]
  }

  /** Those extra fields are well formed and are both categories. */
  lemma TestExtrasShape(env: EnvironmentConfig, sendgrid: SecretConfig, twilio: SecretConfig, mobile: SecretConfig)
    requires TestExtras(env, sendgrid, twilio, mobile)
    ensures WellFormed(env)
    ensures CategoryNames(env.extras) == ["serverside_secrets", "mobile_secrets"]
  {
    var server, mob := env.extras[0], env.extras[1];
    assert server.0 != mob.0 by { assert server.0[0] != mob.0[0]; }
    assert server.0 !in DeclaredFields by { assert |server.0| == 18; }
    assert mob.0 !in DeclaredFields by {
      assert |mob.0| == 14 && mob.0[0] != GlobalSecretsField[0];
    }
    assert IsCategory(server) && IsCategory(mob);
    CategoryNamesOfTwo(server, mob);
  }

  /** The staging environment of the multiple-categories test: a global
      list, two server-side secrets and one mobile secret give three
      categories, in that order, holding their secrets in order. */
  lemma ThreeCategoriesExample(env: EnvironmentConfig, sendgrid: SecretConfig, twilio: SecretConfig, mobile: SecretConfig)
    requires TestExtras(env, sendgrid, twilio, mobile)
    ensures Keys(SecretCategories(env)) == ["global_secrets", "serverside_secrets", "mobile_secrets"]
    ensures Get(SecretCategories(env), "global_secrets") == Some(env.globalSecrets)
    ensures Get(SecretCategories(env), "serverside_secrets") == Some([sendgrid, twilio])
    ensures Get(SecretCategories(env), "mobile_secrets") == Some([mobile])
  {
    TestExtrasShape(env, sendgrid, twilio, mobile);
    CategoryKeys(env);
    GlobalCategoryPresent(env);
    TestExtraContents(env, sendgrid, twilio, mobile);
  }

  /** The two extra categories of that test hold their secrets in order. */
  lemma TestExtraContents(env: EnvironmentConfig, sendgrid: SecretConfig, twilio: SecretConfig, mobile: SecretConfig)
    requires TestExtras(env, sendgrid, twilio, mobile)
    ensures Get(SecretCategories(env), "serverside_secrets") == Some([sendgrid, twilio])
    ensures Get(SecretCategories(env), "mobile_secrets") == Some([mobile])
  {
    TestExtrasShape(env, sendgrid, twilio, mobile);
    TestCategory(env, 0, [sendgrid, twilio]);
    TestCategory(env, 1, [mobile]);
  }

  /** An extra category whose list holds only mappings holds their records. */
  lemma TestCategory(env: EnvironmentConfig, i: nat, secrets: seq<SecretConfig>)
    requires WellFormed(env) && i < |env.extras| && IsCategory(env.extras[i])
    requires |env.extras[i].1.items| == |secrets|
    requires forall j :: 0 <= j < |secrets| ==> env.extras[i].1.items[j] == DictItem(secrets[j])
    ensures Get(SecretCategories(env), env.extras[i].0) == Some(secrets)
  {
    var items := env.extras[i].1.items;
    assert ParseItems(items) == secrets by {
      ParseItemsKeepsSecrets(items);
    }
    ExtraCategoryContents(env, i);
  }

  // ---------------------------------------------------------------------
  // Lookups
  // ---------------------------------------------------------------------

  /** `get_environment`: the named environment, or `None` when there is none. */
  function GetEnvironment(config: SecretsConfig, envName: string): (r: Option<EnvironmentConfig>)
    ensures r.None? <==> envName !in config.environments
    ensures r.Some? ==> r.value == config.environments[envName]
  {
    if envName in config.environments then Some(config.environments[envName]) else None
  }

  /** `get_project`: the named project of the named environment, or `None`
      when either is missing. An environment record is never falsy, so the
      truth test of `get_project` is a test for `None`. */
  function GetProject(config: SecretsConfig, envName: string, projectName: string): (r: Option<ProjectConfig>)
    ensures r.None? <==> envName !in config.environments || projectName !in config.environments[envName].projects
    ensures r.Some? ==> r.value == config.environments[envName].projects[projectName]
  {
    match GetEnvironment(config, envName)
    case Some(env) => if projectName in env.projects then Some(env.projects[projectName]) else None
    case None => None
  }

  // ---------------------------------------------------------------------
  // Choosing the parser by file suffix
  // ---------------------------------------------------------------------

  datatype FileFormat = Yaml | Json

  datatype LoadError = FileNotFound(path: string) | UnsupportedFileType(suffix: string)

  /** The components of a POSIX path: empty and `.` components vanish,
      every other part is kept. */
  function Components(parts: seq<string>): (cs: seq<string>)
    ensures forall p :: p in cs <==> p in parts && p != "" && p != "."
  {
    if parts == [] then []
    else (if parts[0] == "" || parts[0] == "." then [] else [parts[0]]) + Components(parts[1..])
  }

  /** Components are taken part by part, in order. */
  lemma {:induction false} ComponentsAppend(a: seq<string>, b: seq<string>)
    ensures Components(a + b) == Components(a) + Components(b)
  {
    if a != [] {
      assert (a + b)[1..] == a[1..] + b;
      ComponentsAppend(a[1..], b);
    } else {
      assert a + b == b;
    }
  }

  /** The final component of a path, or the empty string when it has none. */
  function PathName(path: string): (name: string)
    ensures '/' !in name
    ensures name == "" || (name != "." && name in Split(path, '/'))
  {
    var cs := Components(Split(path, '/'));
    if cs == [] then ""
    else
      var name := cs[|cs| - 1];
      assert name in cs;
      var parts := Split(path, '/');
      assert exists i :: 0 <= i < |parts| && parts[i] == name;
      name
  }

  /** The suffix of a file name: from its last dot, provided that dot is
      neither the first nor the last character, otherwise empty. */
  function Suffix(name: string): (suffix: string)
    ensures suffix == "" || (2 <= |suffix| < |name| && suffix[0] == '.' && '.' !in suffix[1..] && EndsWith(name, suffix))
  {
    var i := LastIndexOf(name, '.');
    if 0 < i < |name| - 1 then
      assert forall j :: 1 <= j < |name| - i ==> name[i..][j] == name[i + j];
      name[i..]
    else ""
  }

  /** The loader's dispatch: a missing file is reported before its suffix is
      looked at; `.yaml` and `.yml` select YAML, `.json` selects JSON, and
      every other suffix, the empty one included, is unsupported. The file
      is opened before its suffix is looked at, so `fileExists` stands for
      "exists and can be opened for reading". */
  function SelectFormat(path: string, fileExists: bool): (r: Result<FileFormat, LoadError>)
    ensures !fileExists ==> r == Failure(FileNotFound(path))
    ensures fileExists ==> (r == Success(Yaml) <==> Suffix(PathName(path)) in [".yaml", ".yml"])
    ensures fileExists ==> (r == Success(Json) <==> Suffix(PathName(path)) == ".json")
    ensures fileExists && r.Failure? ==> r.error == UnsupportedFileType(Suffix(PathName(path)))
  {
    if !fileExists then Failure(FileNotFound(path)) else FormatOfSuffix(Suffix(PathName(path)))
  }

  /** The parser for a suffix: `.yaml` and `.yml` select YAML, `.json`
      selects JSON, and every other suffix is unsupported. */
  function FormatOfSuffix(suffix: string): (r: Result<FileFormat, LoadError>)
    ensures r == Success(Yaml) <==> suffix in [".yaml", ".yml"]
    ensures r == Success(Json) <==> suffix == ".json"
    ensures r.Failure? ==> r.error == UnsupportedFileType(suffix)
  {
    if suffix == ".yaml" || suffix == ".yml" then Success(Yaml)
    else if suffix == ".json" then Success(Json)
    else Failure(UnsupportedFileType(suffix))
  }

  /** A file name `stem.ext` with a non-empty stem and an extension without
      dots has suffix `.ext`, whatever dots the stem holds. */
  lemma SuffixOfExtension(stem: string, ext: string)
    requires stem != [] && ext != [] && '.' !in ext
    ensures Suffix(stem + "." + ext) == "." + ext
  {
    var name := stem + "." + ext;
    var i := LastIndexOf(name, '.');
    assert name[|stem|] == '.';
    assert i == |stem|;
    assert name[i..] == "." + ext;
  }

  /** A file name without slashes, in the current directory, is its own path name. */
  lemma {:induction false} PathNameOfFileName(name: string)
    requires '/' !in name && name != "" && name != "."
    ensures PathName(name) == name
  {
    SplitNoSeparator(name, '/');
    assert Components([name]) == [name] by {
      assert [name][1..] == [];
    }
  }

  /** A path ending in a slash and a proper file name has that file name
      as its name, whatever directory precedes it. */
  lemma PathNameOfDirFile(dir: string, n: string)
    requires '/' !in n && n != "" && n != "."
    ensures PathName(dir + "/" + n) == n
  {
    SplitSnoc(dir, n, '/');
    ComponentsAppend(Split(dir, '/'), [n]);
    assert Components([n]) == [n] by {
      assert [n][1..] == [];
    }
  }

  /** `secrets.yml`, `secrets.yaml` and `secrets.json` style names select
      their parsers; any other extension is reported as unsupported. */
  lemma FormatOfFileName(stem: string, ext: string)
    requires stem != [] && ext != [] && '.' !in ext && '/' !in stem && '/' !in ext
    ensures ext == "yml" || ext == "yaml" ==> SelectFormat(stem + "." + ext, true) == Success(Yaml)
    ensures ext == "json" ==> SelectFormat(stem + "." + ext, true) == Success(Json)
    ensures ext !in ["yml", "yaml", "json"] ==>
      SelectFormat(stem + "." + ext, true) == Failure(UnsupportedFileType("." + ext))
  {
    var name := stem + "." + ext;
    assert Suffix(PathName(name)) == "." + ext by {
      assert |name| >= 2;
      PathNameOfFileName(name);
      SuffixOfExtension(stem, ext);
    }
    assert SelectFormat(name, true) == FormatOfSuffix("." + ext);
    FormatOfExtension(ext);
  }

  /** The parser chosen for the suffix `.ext`. */
  lemma FormatOfExtension(ext: string)
    ensures ext == "yml" || ext == "yaml" ==> FormatOfSuffix("." + ext) == Success(Yaml)
    ensures ext == "json" ==> FormatOfSuffix("." + ext) == Success(Json)
    ensures ext !in ["yml", "yaml", "json"] ==> FormatOfSuffix("." + ext) == Failure(UnsupportedFileType("." + ext))
  {
    var suffix := "." + ext;
    if ext == "yml" {
      assert suffix == ".yml";
    } else if ext == "yaml" {
      assert suffix == ".yaml";
    } else if ext == "json" {
      assert suffix == ".json";
    } else {
      DotExtension(ext, "yml");
      DotExtension(ext, "yaml");
      DotExtension(ext, "json");
      assert suffix != ".yml" && suffix != ".yaml" && suffix != ".json" by {
        assert ".yml" == "." + "yml";
        assert ".yaml" == "." + "yaml";
        assert ".json" == "." + "json";
      }
    }
  }

  /** Two extensions are equal exactly when their dotted forms are. */
  lemma DotExtension(ext: string, other: string)
    ensures "." + ext == "." + other <==> ext == other
  {
    if "." + ext == "." + other {
      assert ext == ("." + ext)[1..];
      assert other == ("." + other)[1..];
    }
  }

  /** A name that only starts with a dot, such as `.yml`, has no suffix, so
      it is unsupported. */
  lemma HiddenFileUnsupported(ext: string)
    requires ext != [] && '.' !in ext && '/' !in ext
    ensures SelectFormat("." + ext, true) == Failure(UnsupportedFileType(""))
  {
    var hidden := "." + ext;
    assert hidden != "." by { assert |hidden| >= 2; }
    PathNameOfFileName(hidden);
    assert LastIndexOf(hidden, '.') == 0;
    assert Suffix(hidden) == "";
  }
}
