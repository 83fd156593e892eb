/** The pure parts of secrets_manager/cli.py: parsing a dotted target
    reference `env[.project][.SECRET]`, the "secret name required" guard of
    the set, get and delete commands, re-rendering a parsed target for
    messages, and masking secret values for display. */
module Cli {

  import opened Basics
  import opened Strings

  /** A parsed target: an environment, maybe a project, maybe a secret. */
  datatype Target = Target(env: string, project: Option<string>, secret: Option<string>)

  // ---------------------------------------------------------------------
  // Parsing
  // ---------------------------------------------------------------------

  /** The heuristic for the second of exactly two segments: it names a
      secret when it is upper case or holds an underscore, and a project
      otherwise. */
  predicate LooksLikeSecret(segment: string)
    ensures LooksLikeSecret(segment) ==> segment != []
  {
    IsUpper(segment) || '_' in segment
  }

  /** The text a target was parsed from: its present parts joined by dots. */
  function Reassemble(t: Target): string
  {
    t.env + Tail(t)
  }

  /** What follows the environment: each present part after a dot. */
  function Tail(t: Target): string
  {
    (if t.project.Some? then "." + t.project.value else "")
      + (if t.secret.Some? then "." + t.secret.value else "")
  }

  /** What it means for `t` to be the parse of `target`, independently of how
      the text is split: `t` reassembles to `target`, the environment and the
      project hold no dot, a secret without a project is a single segment
      that looks like a secret, and a project without a secret does not. */
  ghost predicate Parses(target: string, t: Target)
  {
    && Reassemble(t) == target
    && '.' !in t.env
    && (t.project.Some? ==> '.' !in t.project.value)
    && (t.project.None? && t.secret.Some? ==> '.' !in t.secret.value && LooksLikeSecret(t.secret.value))
    && (t.project.Some? && t.secret.None? ==> !LooksLikeSecret(t.project.value))
  }

  /** `parse_target`. Splitting always yields at least one segment, so one,
      two, or three and more segments are all the cases: its
      "invalid target" error cannot be raised. */
  function ParseTarget(target: string): (t: Target)
    ensures Parses(target, t)
  {
    var parts := Split(target, '.');
    if |parts| == 1 then
      Target(parts[0], None, None)
    else if |parts| == 2 then
      assert target == parts[0] + "." + parts[1] by {
        assert Join(parts[1..], '.') == parts[1];
      }
      if LooksLikeSecret(parts[1]) then Target(parts[0], None, Some(parts[1]))
      else Target(parts[0], Some(parts[1]), None)
    else
      var secret := Join(parts[2..], '.');
      assert target == parts[0] + "." + parts[1] + "." + secret by {
        assert parts[1..][1..] == parts[2..];
        assert Join(parts[1..], '.') == parts[1] + "." + secret;
      }
      Target(parts[0], Some(parts[1]), Some(secret))
  }

  /** The segment right after the environment's dot. */
  function Second(t: Target): string
  {
    if t.project.Some? then t.project.value else if t.secret.Some? then t.secret.value else ""
  }

  /** What follows the second segment: the secret after a project, if any. */
  function AfterSecond(t: Target): string
  {
    if t.project.Some? && t.secret.Some? then "." + t.secret.value else ""
  }

  /** A tail that is not empty is a dot, the second segment and the rest. */
  lemma TailSegments(t: Target)
    requires t.project.Some? || t.secret.Some?
    ensures Tail(t) == "." + (Second(t) + AfterSecond(t))
  {
  }

  /** At most one target parses a string, so `Parses` pins `ParseTarget`
      down completely. */
  lemma ParsesUnique(target: string, t1: Target, t2: Target)
    requires Parses(target, t1) && Parses(target, t2)
    ensures t1 == t2
  {
    SameFirstPart(t1.env, Tail(t1), t2.env, Tail(t2), '.');
    if Tail(t1) != [] {
      assert t1.project.Some? || t1.secret.Some?;
      assert t2.project.Some? || t2.secret.Some?;
      TailSegments(t1);
      TailSegments(t2);
      assert Second(t1) + AfterSecond(t1) == Tail(t1)[1..] == Second(t2) + AfterSecond(t2);
      SameFirstPart(Second(t1), AfterSecond(t1), Second(t2), AfterSecond(t2), '.');
      if AfterSecond(t1) != [] {
        assert AfterSecond(t1)[1..] == t1.secret.value;
        assert AfterSecond(t2)[1..] == t2.secret.value;
      }
    }
  }

  /** One segment: a target without a dot is an environment alone, and only
      such a target parses to a bare environment. */
  lemma ParseOneSegment(target: string)
    ensures '.' !in target <==> ParseTarget(target) == Target(target, None, None)
  {
    if '.' !in target {
      ParsesUnique(target, ParseTarget(target), Target(target, None, None));
    }
  }

  /** Two segments `a.b`: a secret when `b` looks like one
      (`staging.MY_SECRET`), a project otherwise (`staging.myproject`). */
  lemma ParseTwoSegments(a: string, b: string)
    requires '.' !in a && '.' !in b
    ensures LooksLikeSecret(b) ==> ParseTarget(a + "." + b) == Target(a, None, Some(b))
    ensures !LooksLikeSecret(b) ==> ParseTarget(a + "." + b) == Target(a, Some(b), None)
  {
    var t := if LooksLikeSecret(b) then Target(a, None, Some(b)) else Target(a, Some(b), None);
    assert Parses(a + "." + b, t);
    ParsesUnique(a + "." + b, ParseTarget(a + "." + b), t);
  }

  /** Three or more segments: the environment and project are the first two
      and the secret is everything after the second dot, dots included. */
  lemma ParseThreeSegments(e: string, p: string, s: string)
    requires '.' !in e && '.' !in p
    ensures ParseTarget(e + "." + p + "." + s) == Target(e, Some(p), Some(s))
  {
    var t := Target(e, Some(p), Some(s));
    assert Reassemble(t) == e + "." + p + "." + s;
    ParsesUnique(e + "." + p + "." + s, ParseTarget(e + "." + p + "." + s), t);
  }

  /** The documented example of a secret under an environment. */
  lemma ParseExampleSecret()
    ensures ParseTarget("staging.MY_SECRET") == Target("staging", None, Some("MY_SECRET"))
  {
    var e, s := "staging", "MY_SECRET";
    assert e + "." + s == "staging.MY_SECRET";
    assert s[2] == '_';
    ParseTwoSegments(e, s);
  }

  /** The documented example of a project under an environment. */
  lemma ParseExampleProject()
    ensures ParseTarget("staging.myproject") == Target("staging", Some("myproject"), None)
  {
    var e, p := "staging", "myproject";
    assert e + "." + p == "staging.myproject";
    assert !LooksLikeSecret(p) by {
      assert IsLowerChar(p[0]);
    }
    ParseTwoSegments(e, p);
  }

  /** `isupper` needs a cased character and forbids lower-case ones: digits
      alone are not upper case, and digits do not spoil upper case. */
  lemma IsUpperExamples()
    ensures !IsUpper("123")
    ensures IsUpper("API1")
    ensures !IsUpper("Api1")
  {
    assert IsUpperChar("API1"[0]);
    assert IsLowerChar("Api1"[1]);
  }

  // ---------------------------------------------------------------------
  // Re-rendering and the secret guard
  // ---------------------------------------------------------------------

  /** The target as the set and delete commands print it: with the project
      only when it is present and non-empty. */
  function TargetStr(env: string, project: Option<string>, secret: string): (text: string)
    ensures project.Some? && project.value != "" ==> text == Reassemble(Target(env, project, Some(secret)))
    ensures project.None? || project.value == "" ==> text == Reassemble(Target(env, None, Some(secret)))
  {
    if project.Some? && project.value != "" then env + "." + project.value + "." + secret
    else env + "." + secret
  }

  /** Printing a parsed secret target gives the text it was parsed from,
      unless its project is empty. */
  lemma TargetStrRoundTrip(target: string)
    requires ParseTarget(target).secret.Some?
    requires ParseTarget(target).project.None? || ParseTarget(target).project.value != ""
    ensures TargetStr(ParseTarget(target).env, ParseTarget(target).project, ParseTarget(target).secret.value) == target
  {
  }

  /** An empty project breaks the round trip: `e..s` parses to project ""
      and secret `s`, and prints as `e.s`, which is a different text. */
  lemma TargetStrEmptyProject(e: string, s: string)
    requires '.' !in e
    ensures ParseTarget(e + ".." + s) == Target(e, Some(""), Some(s))
    ensures TargetStr(e, Some(""), s) == e + "." + s != e + ".." + s
  {
    assert e + ".." + s == e + "." + "" + "." + s;
    ParseThreeSegments(e, "", s);
    assert |e + "." + s| < |e + ".." + s|;
  }

  /** A reference to one secret, as the set, get and delete commands use it. */
  datatype SecretRef = SecretRef(env: string, project: Option<string>, secret: string)

  datatype CliError = SecretNameRequired

  /** The guard of set, get and delete: the parsed target must name a
      secret, and a non-empty one, before the store is touched. */
  function RequireSecret(target: string): (r: Result<SecretRef, CliError>)
    ensures r.Success? <==> ParseTarget(target).secret.Some? && ParseTarget(target).secret.value != ""
    ensures r.Success? ==> ParseTarget(target) == Target(r.value.env, r.value.project, Some(r.value.secret))
  {
    var t := ParseTarget(target);
    if t.secret.None? || t.secret.value == "" then Failure(SecretNameRequired)
    else Success(SecretRef(t.env, t.project, t.secret.value))
  }

  /** An environment alone is rejected. */
  lemma RequireSecretRejectsEnvironment(a: string)
    requires '.' !in a
    ensures RequireSecret(a) == Failure(SecretNameRequired)
  {
    ParseOneSegment(a);
  }

  /** An environment with a project, and a target whose secret part is
      empty, are rejected. */
  lemma RequireSecretRejectsProject(a: string, b: string)
    requires '.' !in a && '.' !in b
    ensures !LooksLikeSecret(b) ==> RequireSecret(a + "." + b) == Failure(SecretNameRequired)
    ensures RequireSecret(a + "." + b + ".") == Failure(SecretNameRequired)
  {
    ParseTwoSegments(a, b);
    assert a + "." + b + "." == a + "." + b + "." + "";
    ParseThreeSegments(a, b, "");
  }

  /** A secret given under a project, or directly under the environment, is
      accepted as such. */
  lemma RequireSecretAccepts(e: string, p: string, s: string)
    requires '.' !in e && '.' !in p && s != ""
    ensures RequireSecret(e + "." + p + "." + s) == Success(SecretRef(e, Some(p), s))
    ensures '.' !in s && LooksLikeSecret(s) ==> RequireSecret(e + "." + s) == Success(SecretRef(e, None, s))
  {
    ParseThreeSegments(e, p, s);
    if '.' !in s {
      ParseTwoSegments(e, s);
    }
  }

  /** Every accepted target holds a dot and prints back as itself when its
      project is not empty. */
  lemma RequireSecretAccepted(target: string)
    requires RequireSecret(target).Success?
    ensures '.' in target
    ensures var r := RequireSecret(target).value;
      r.project.None? || r.project.value != "" ==> TargetStr(r.env, r.project, r.secret) == target
  {
    ParseOneSegment(target);
    var r := RequireSecret(target).value;
    if r.project.None? || r.project.value != "" {
      TargetStrRoundTrip(target);
    }
  }

  // ---------------------------------------------------------------------
  // Masking
  // ---------------------------------------------------------------------

  /** The mask of a value: a value longer than eight characters shows its
      first and last four around an ellipsis; a shorter one shows nothing. */
  function Mask(value: string): (masked: string)
    ensures |value| > 8 ==> |masked| == 11 && masked[..4] == value[..4] && masked[4..7] == "..." && masked[7..] == value[|value| - 4..]
    ensures |value| <= 8 ==> masked == "***"
  {
    if |value| > 8 then value[..4] + "..." + value[|value| - 4..] else "***"
  }

  /** Values of at most eight characters all mask alike: none of their
      characters shows. */
  lemma MaskHidesShortValues(v: string, w: string)
    requires |v| <= 8 && |w| <= 8
    ensures Mask(v) == Mask(w)
  {
  }

  /** A long value's mask depends on its first and last four characters only. */
  lemma MaskShowsOnlyEnds(v: string, w: string)
    requires |v| > 8 && |w| > 8
    requires v[..4] == w[..4] && v[|v| - 4..] == w[|w| - 4..]
    ensures Mask(v) == Mask(w)
  {
    assert Mask(v) == Mask(v)[..4] + "..." + Mask(v)[7..];
    assert Mask(w) == Mask(w)[..4] + "..." + Mask(w)[7..];
  }

  /** A value of twelve or more characters never shows in full. */
  lemma MaskNeverWhole(v: string)
    requires |v| >= 12
    ensures Mask(v) != v
  {
  }

  /** The text shown for a listed secret that is missing or empty. */
  const NotFoundCell := "[red]<not found>[/red]"

  /** The value cell of the list command: a non-empty value in full when
      revealing, masked otherwise; a missing or empty value as not found. */
  function ListCell(value: Option<string>, revealed: bool): (cell: string)
    ensures value.Some? && value.value != "" && revealed ==> cell == value.value
    ensures value.Some? && value.value != "" && !revealed ==> cell == Mask(value.value)
    ensures value.None? || value.value == "" ==> cell == NotFoundCell
  {
    if value.Some? && value.value != "" && revealed then value.value
    else if value.Some? && value.value != "" then Mask(value.value)
    else NotFoundCell
  }

  /** Without revealing, the cell of a value shows at most eight of its
      characters: a short value's cell does not depend on the value, and a
      long value's cell depends on its ends only. */
  lemma ListCellHidesWithoutReveal(v: string, w: string)
    requires v != "" && w != ""
    requires (|v| <= 8 && |w| <= 8) || (|v| > 8 && |w| > 8 && v[..4] == w[..4] && v[|v| - 4..] == w[|w| - 4..])
    ensures ListCell(Some(v), false) == ListCell(Some(w), false)
  {
    if |v| > 8 {
      MaskShowsOnlyEnds(v, w);
    }
  }
}
