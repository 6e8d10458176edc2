/** Product mode and feature flags before the command tree exists, internal/mode/mode.go. */
module FeatureMode {
  import opened Wrappers
  import opened Sequences
  import opened Ordering
  import opened Strings

  type FeatureSet = map<string, bool>

  datatype Mode = Legacy | Next

  const NEXT_MODE := "NextMode"

  datatype ParseError =
    | ValueRequired | Malformed(pair: string) | UnknownFeature(name: string)
    | NotTrueOrFalse(name: string) | DuplicateFeature(name: string)

  datatype ModeError =
    | InvalidEnvironment(cause: ParseError) | InvalidFeatures(cause: ParseError)
    | FeaturesRequireValue | DuplicateOption

  /** Feature names are not empty and hold no character of the syntax. */
  ghost predicate WellNamed(known: set<string>) {
    NEXT_MODE in known && forall n :: n in known ==> n != "" && ',' !in n && '=' !in n
  }

  // Printing and parsing.

  function PairText(name: string, enabled: bool): string {
    name + ['='] + if enabled then "true" else "false"
  }

  function PairTexts(f: FeatureSet, names: seq<string>): seq<string>
    requires forall n :: n in names ==> n in f
  {
    seq(|names|, i requires 0 <= i < |names| => assert names[i] in names; PairText(names[i], f[names[i]]))
  }

  /** The text lists every feature once, by name. */
  ghost predicate Prints(f: FeatureSet, names: seq<string>, text: string) {
    && StrictlySorted(Below, names) && Elements(names) == f.Keys
    && (forall n :: n in names ==> n in f)
    && text == Join(PairTexts(f, names), ',')
  }

  /** A feature set prints in one way. */
  lemma PrintsOneText(f: FeatureSet, names: seq<string>, text: string, names': seq<string>, text': string)
    requires Prints(f, names, text) && Prints(f, names', text')
    ensures text == text'
  {
    BelowIsStrictOrder(Elements(names));
    SortedUnique(Below, names, names');
  }

  lemma Printable(f: FeatureSet)
    ensures exists names, text :: Prints(f, names, text)
  {
    var names := ListElements(f.Keys);
    SortNamesSorted(names);
    var sorted := SortNames(names);
    assert forall n :: n in sorted ==> n in Elements(sorted);
    assert Prints(f, sorted, Join(PairTexts(f, sorted), ','));
  }

  /** The text a feature set prints as. */
  ghost function TextOf(f: FeatureSet): (text: string)
    ensures exists names :: Prints(f, names, text)
  {
    Printable(f);
    var names, text :| Prints(f, names, text);
    text
  }

  method String(f: FeatureSet) returns (text: string)
    ensures text == TextOf(f)
  {
    var names: seq<string> := [];
    var left := f.Keys;
    while left != {}
      invariant left <= f.Keys && NoDuplicates(names) && Elements(names) == f.Keys - left
      decreases left
    {
      var name :| name in left;
      assert name !in Elements(names);
      assert Elements(names + [name]) == Elements(names) + {name};
      names := names + [name];
      left := left - {name};
    }
    SortNamesSorted(names);
    names := SortNames(names);
    assert forall n :: n in names ==> n in Elements(names);
    var pairs: seq<string> := [];
    for i := 0 to |names|
      invariant |pairs| == i && pairs == PairTexts(f, names)[..i]
    {
      assert names[i] in names;
      pairs := pairs + [PairText(names[i], f[names[i]])];
    }
    assert pairs == PairTexts(f, names);
    text := Join(pairs, ',');
    assert Prints(f, names, text);
    ghost var names' :| Prints(f, names', TextOf(f));
    PrintsOneText(f, names, text, names', TextOf(f));
  }

  function ParsePair(known: set<string>, pair: string): Result<(string, bool), ParseError> {
    var (name, raw, explicit) := Cut(pair, '=');
    if name == "" || (explicit && raw == "") then Err(Malformed(pair))
    else if name !in known then Err(UnknownFeature(name))
    else if explicit && raw != "true" && raw != "false" then Err(NotTrueOrFalse(name))
    else Ok((name, !explicit || raw == "true"))
  }

  type PairResult = Result<(string, bool), ParseError>

  function PairResults(known: set<string>, pairs: seq<string>): (r: seq<PairResult>) {
    seq(|pairs|, i requires 0 <= i < |pairs| => ParsePair(known, pairs[i]))
  }

  /** The features of the first n pairs. */
  function Collect(results: seq<PairResult>, n: nat): Result<FeatureSet, ParseError>
    requires n <= |results|
  {
    if n == 0 then Ok(map[])
    else match Collect(results, n - 1)
      case Err(e) => Err(e)
      case Ok(f) =>
        match results[n - 1]
        case Err(e) => Err(e)
        case Ok((name, enabled)) => if name in f then Err(DuplicateFeature(name)) else Ok(f[name := enabled])
  }

  function Parsed(known: set<string>, value: string): Result<FeatureSet, ParseError> {
    if value == "" then Err(ValueRequired)
    else
      var results := PairResults(known, Split(value, ','));
      Collect(results, |results|)
  }

  method Parse(known: set<string>, value: string) returns (r: Result<FeatureSet, ParseError>)
    ensures r == Parsed(known, value)
  {
    if value == "" {
      return Err(ValueRequired);
    }
    var features: FeatureSet := map[];
    var pairs := Split(value, ',');
    for i := 0 to |pairs|
      invariant Collect(PairResults(known, pairs), i) == Ok(features)
    {
      ErrorStays(PairResults(known, pairs), i + 1);
      var (name, raw, explicit) := Cut(pairs[i], '=');
      if name == "" || (explicit && raw == "") {
        return Err(Malformed(pairs[i]));
      }
      if name !in known {
        return Err(UnknownFeature(name));
      }
      var enabled := true;
      if explicit {
        if raw != "true" && raw != "false" {
          return Err(NotTrueOrFalse(name));
        }
        enabled := raw == "true";
      }
      if name in features {
        return Err(DuplicateFeature(name));
      }
      features := features[name := enabled];
    }
    return Ok(features);
  }

  /** The first error is the outcome. */
  lemma {:induction false} ErrorStays(results: seq<PairResult>, i: nat)
    requires i <= |results|
    ensures Collect(results, i).Err? ==> Collect(results, |results|) == Collect(results, i)
    decreases |results| - i
  {
    if i < |results| {
      ErrorStays(results, i + 1);
    }
  }

  /** The pairs give distinct features with these settings, and nothing else is set. */
  ghost predicate Lists(results: seq<PairResult>, n: nat, f: FeatureSet)
    requires n <= |results|
  {
    && (forall i :: 0 <= i < n ==> results[i].Ok? && Sets(f, results[i].value))
    && (forall i, j :: 0 <= i < j < n ==> results[i].value.0 != results[j].value.0)
    && (forall name :: name in f ==> exists i :: 0 <= i < n && results[i].value.0 == name)
  }

  predicate Sets(f: FeatureSet, setting: (string, bool)) {
    setting.0 in f && f[setting.0] == setting.1
  }

  /** Parsing accepts exactly the lists of distinct known features, and gives what they set. */
  lemma CollectMeaning(results: seq<PairResult>, n: nat, f: FeatureSet)
    requires n <= |results|
    ensures Collect(results, n) == Ok(f) <==> Lists(results, n, f)
  {
    if Collect(results, n) == Ok(f) {
      CollectedLists(results, n);
    }
    if Lists(results, n, f) {
      ListsCollected(results, n, f);
    }
  }

  lemma {:induction false} CollectedLists(results: seq<PairResult>, n: nat)
    requires n <= |results| && Collect(results, n).Ok?
    ensures Lists(results, n, Collect(results, n).value)
  {
    if n > 0 {
      CollectedLists(results, n - 1);
      ListsOneMore(results, n, Collect(results, n - 1).value);
    }
  }

  lemma {:induction false} ListsCollected(results: seq<PairResult>, n: nat, f: FeatureSet)
    requires n <= |results| && Lists(results, n, f)
    ensures Collect(results, n) == Ok(f)
  {
    if n == 0 {
      assert f == map[];
    } else {
      var last := results[n - 1].value;
      assert Sets(f, last);
      ListsOneLess(results, n, f);
      ListsCollected(results, n - 1, Unset(f, last.0));
      UnsetAndSet(f, last.0);
    }
  }

  lemma ListsOneMore(results: seq<PairResult>, n: nat, g: FeatureSet)
    requires 0 < n <= |results| && Lists(results, n - 1, g)
    requires results[n - 1].Ok? && results[n - 1].value.0 !in g
    ensures Lists(results, n, g[results[n - 1].value.0 := results[n - 1].value.1])
  {
    var last := results[n - 1].value;
    var f := g[last.0 := last.1];
    forall i | 0 <= i < n - 1 ensures Sets(f, results[i].value) && results[i].value.0 != last.0 {
      assert Sets(g, results[i].value);
    }
    forall name | name in f ensures exists i :: 0 <= i < n && results[i].value.0 == name {
      if name == last.0 {
        assert results[n - 1].value.0 == name;
      }
    }
  }

  function Unset(f: FeatureSet, unset: string): FeatureSet {
    map name | name in f && name != unset :: f[name]
  }

  lemma UnsetAndSet(f: FeatureSet, name: string)
    requires name in f
    ensures Unset(f, name)[name := f[name]] == f
  {
  }

  lemma ListsOneLess(results: seq<PairResult>, n: nat, f: FeatureSet)
    requires 0 < n <= |results| && Lists(results, n, f)
    ensures Lists(results, n - 1, Unset(f, results[n - 1].value.0))
  {
    var g := Unset(f, results[n - 1].value.0);
    forall i | 0 <= i < n - 1 ensures Sets(g, results[i].value) {
      assert Sets(f, results[i].value);
    }
  }

  lemma CutPair(name: string, raw: string)
    requires '=' !in name
    ensures Cut(name + "=" + raw, '=') == (name, raw, true)
  {
    CutAfter(name, '=', raw);
    assert name + "=" + raw == name + ['='] + raw;
  }

  ghost predicate PairSets(pair: string, name: string, enabled: bool) {
    if enabled then pair == name || pair == name + "=true" else pair == name + "=false"
  }

  lemma AcceptedPair(known: set<string>, pair: string, name: string, enabled: bool)
    requires ParsePair(known, pair) == Ok((name, enabled))
    ensures name in known && PairSets(pair, name, enabled)
  {
    CutMeaning(pair, '=');
    var (before, after, found) := Cut(pair, '=');
    if found {
      assert pair == name + "=" + after && (after == "true" || after == "false");
      assert name + "=" + "true" == name + "=true" && name + "=" + "false" == name + "=false";
    }
  }

  lemma PairAccepted(known: set<string>, pair: string, name: string, enabled: bool)
    requires WellNamed(known) && name in known && PairSets(pair, name, enabled)
    ensures ParsePair(known, pair) == Ok((name, enabled))
  {
    if pair == name {
      FirstIndex(name, '=', 0, |name|);
    }
    assert "true"[0] != "false"[0];
    assert name + "=" + "true" == name + "=true" && name + "=" + "false" == name + "=false";
    CutPair(name, if enabled then "true" else "false");
  }

  /** A pair gives a setting exactly when it is a known name alone or with =true, which switch it on, or with =false,
      which switches it off: no other value is accepted, in whatever case or spelling. */
  lemma PairMeaning(known: set<string>, pair: string, name: string, enabled: bool)
    requires WellNamed(known)
    ensures ParsePair(known, pair) == Ok((name, enabled)) <==>
            name in known && (if enabled then pair == name || pair == name + "=true" else pair == name + "=false")
  {
    if ParsePair(known, pair) == Ok((name, enabled)) {
      AcceptedPair(known, pair, name, enabled);
    }
    if name in known && PairSets(pair, name, enabled) {
      PairAccepted(known, pair, name, enabled);
    }
  }

  lemma PairParses(known: set<string>, name: string, enabled: bool)
    requires WellNamed(known) && name in known
    ensures ParsePair(known, PairText(name, enabled)) == Ok((name, enabled))
    ensures ',' !in PairText(name, enabled)
  {
    var raw := if enabled then "true" else "false";
    CutAfter(name, '=', raw);
    assert "true"[0] != "false"[0];
    var text := PairText(name, enabled);
    assert text == name + ['='] + raw;
    forall k | 0 <= k < |text| ensures text[k] != ',' {
      assert text[k] == if k < |name| then name[k] else (['='] + raw)[k - |name|];
    }
  }

  lemma PrintedPairs(known: set<string>, f: FeatureSet, names: seq<string>)
    requires WellNamed(known) && f.Keys <= known && Elements(names) == f.Keys && forall n :: n in names ==> n in f
    ensures var pairs := PairTexts(f, names);
            && (forall i :: 0 <= i < |names| ==> PairResults(known, pairs)[i] == Ok((names[i], f[names[i]])))
            && (forall p :: p in pairs ==> ',' !in p && p != "")
  {
    forall i | 0 <= i < |names|
      ensures ParsePair(known, PairTexts(f, names)[i]) == Ok((names[i], f[names[i]]))
          && ',' !in PairTexts(f, names)[i] {
      assert names[i] in names;
      PairParses(known, names[i], f[names[i]]);
    }
  }

  lemma ListedSettings(results: seq<PairResult>, f: FeatureSet, names: seq<string>)
    requires NoDuplicates(names) && Elements(names) == f.Keys && |results| == |names|
    requires forall i :: 0 <= i < |names| ==> names[i] in f && results[i] == Ok((names[i], f[names[i]]))
    ensures Lists(results, |results|, f)
  {
    forall name | name in f ensures exists i :: 0 <= i < |results| && results[i].value.0 == name {
      assert name in Elements(names);
      var i :| 0 <= i < |names| && names[i] == name;
      assert results[i].value.0 == name;
    }
  }

  lemma PrintedPair(f: FeatureSet, names: seq<string>, i: nat)
    requires i < |names| && forall n :: n in names ==> n in f
    ensures names[i] in f && PairTexts(f, names)[i] == names[i] + if f[names[i]] then "=true" else "=false"
  {
    assert names[i] in names;
  }

  lemma PrintsPairs(known: set<string>, f: FeatureSet, names: seq<string>, text: string)
    requires WellNamed(known) && f != map[] && f.Keys <= known && Prints(f, names, text)
    ensures Split(text, ',') == PairTexts(f, names)
  {
    EmptyElements(names);
    assert f.Keys == {} ==> f == map[];
    PrintedPairs(known, f, names);
    SplitJoin(PairTexts(f, names), ',');
  }

  /** A printed feature set is a list of name=true and name=false with commas between, by ascending name, each name
      once. */
  lemma PrintedForm(known: set<string>, f: FeatureSet) returns (names: seq<string>)
    requires WellNamed(known) && f != map[] && f.Keys <= known
    ensures Elements(names) == f.Keys && |Split(TextOf(f), ',')| == |names|
    ensures forall i, j :: 0 <= i < j < |names| ==> Below(names[i], names[j])
    ensures forall i :: 0 <= i < |names| ==>
              names[i] in f && Split(TextOf(f), ',')[i] == names[i] + if f[names[i]] then "=true" else "=false"
  {
    var text := TextOf(f);
    var list :| Prints(f, list, text);
    names := list;
    PrintsPairs(known, f, list, text);
    forall i | 0 <= i < |names|
      ensures names[i] in f && Split(text, ',')[i] == names[i] + if f[names[i]] then "=true" else "=false" {
      PrintedPair(f, names, i);
    }
  }

  /** Parsing a printed feature set gives it back. */
  lemma PrintedParses(known: set<string>, f: FeatureSet)
    requires WellNamed(known) && f != map[] && f.Keys <= known
    ensures Parsed(known, TextOf(f)) == Ok(f)
  {
    var text := TextOf(f);
    var names :| Prints(f, names, text);
    var pairs := PairTexts(f, names);
    assert names != [] by {
      EmptyElements(names);
      assert f.Keys == {} ==> f == map[];
    }
    PrintedPairs(known, f, names);
    SplitJoin(pairs, ',');
    assert pairs[0] in pairs && text != "";
    SortedNamesDistinct(names);
    assert forall i :: 0 <= i < |names| ==> names[i] in names;
    ListedSettings(PairResults(known, pairs), f, names);
    CollectMeaning(PairResults(known, pairs), |pairs|, f);
  }

  lemma ParsedKnown(known: set<string>, value: string)
    requires Parsed(known, value).Ok?
    ensures Parsed(known, value).value.Keys <= known
  {
    var results := PairResults(known, Split(value, ','));
    var f := Parsed(known, value).value;
    CollectMeaning(results, |results|, f);
    forall name | name in f ensures name in known {
      var i :| 0 <= i < |results| && results[i].value.0 == name;
      assert results[i].Ok?;
    }
  }

  // Arguments.

  const FEATURES := "--features"
  const FEATURES_EQUALS := "--features="
  const END_OF_OPTIONS := "--"

  /** Not an option that stripping looks at. */
  predicate Plain(arg: string) {
    arg != END_OF_OPTIONS && !HasPrefix(arg, FEATURES_EQUALS) && arg != FEATURES
  }

  /** The arguments without bootstrap options; nothing is touched from the end of options on. */
  function Stripped(args: seq<string>): seq<string> {
    if args == [] then []
    else if args[0] == END_OF_OPTIONS then args
    else if HasPrefix(args[0], FEATURES_EQUALS) then Stripped(args[1..])
    else if args[0] == FEATURES then
      if |args| > 1 then Stripped(args[2..]) else []
    else [args[0]] + Stripped(args[1..])
  }

  /** The values of the bootstrap options, in order; an option at the very end may have none. */
  function FeatureValues(args: seq<string>): seq<Option<string>> {
    if args == [] || args[0] == END_OF_OPTIONS then []
    else if HasPrefix(args[0], FEATURES_EQUALS) then
      [Some(TrimPrefix(args[0], FEATURES_EQUALS))] + FeatureValues(args[1..])
    else if args[0] == FEATURES then
      if |args| > 1 then [Some(args[1])] + FeatureValues(args[2..]) else [None]
    else FeatureValues(args[1..])
  }

  /** Leaves its arguments for others: before the end of options, and no bootstrap option. */
  ghost predicate OnlyOthers(args: seq<string>) {
    forall i :: 0 <= i < |args| ==> args[i] != "--" && args[i] != "--features" && !("--features=" <= args[i])
  }

  lemma {:induction false} OthersKept(before: seq<string>, rest: seq<string>)
    requires OnlyOthers(before)
    ensures Stripped(before + rest) == before + Stripped(rest)
    ensures FeatureValues(before + rest) == FeatureValues(rest)
    decreases |before|
  {
    if before == [] {
      assert before + rest == rest;
    } else {
      var all := before + rest;
      assert all[0] == before[0] && all[1..] == before[1..] + rest;
      OthersKept(before[1..], rest);
      assert before == [before[0]] + before[1..];
    }
  }

  /** Behind any other arguments: --features=value gives its value and is taken out, --features takes the argument
      behind it as its value, whatever that is, and both are taken out, and from -- on everything is left alone. */
  lemma BootstrapOptions(before: seq<string>, value: string, rest: seq<string>)
    requires OnlyOthers(before)
    ensures Stripped(before + ["--features=" + value] + rest) == before + Stripped(rest)
    ensures FeatureValues(before + ["--features=" + value] + rest) == [Some(value)] + FeatureValues(rest)
    ensures Stripped(before + ["--features", value] + rest) == before + Stripped(rest)
    ensures FeatureValues(before + ["--features", value] + rest) == [Some(value)] + FeatureValues(rest)
    ensures Stripped(before + ["--features"]) == before && FeatureValues(before + ["--features"]) == [None]
    ensures Stripped(before + ["--"] + rest) == before + ["--"] + rest && FeatureValues(before + ["--"] + rest) == []
    ensures Stripped(before) == before && FeatureValues(before) == []
  {
    EqualsOption(before, value, rest);
    var apart, bare, ended := ["--features", value] + rest, ["--features"], ["--"] + rest;
    assert |"--"| == 2 && |"--features"| == 10 && |"--features="| == 11;
    assert before + ["--features", value] + rest == before + apart && apart[2..] == rest;
    OthersKept(before, apart);
    OthersKept(before, bare);
    assert before + ["--"] + rest == before + ended;
    OthersKept(before, ended);
    OthersKept(before, []);
    assert before + [] == before;
  }

  lemma EqualsOption(before: seq<string>, value: string, rest: seq<string>)
    requires OnlyOthers(before)
    ensures Stripped(before + ["--features=" + value] + rest) == before + Stripped(rest)
    ensures FeatureValues(before + ["--features=" + value] + rest) == [Some(value)] + FeatureValues(rest)
  {
    var option := "--features=" + value;
    var all := [option] + rest;
    assert option[2] == 'f' && |option| >= 11;
    assert before + [option] + rest == before + all && all[1..] == rest;
    assert HasPrefix(option, FEATURES_EQUALS) && TrimPrefix(option, FEATURES_EQUALS) == value;
    OthersKept(before, all);
  }

  /** One step of stripping, from position i. */
  lemma StripStep(args: seq<string>, i: nat, remaining: seq<string>)
    requires i < |args|
    ensures args[i] == END_OF_OPTIONS ==> Stripped(args[i..]) == args[i..]
    ensures HasPrefix(args[i], FEATURES_EQUALS) ==> Stripped(args[i..]) == Stripped(args[i + 1..])
    ensures args[i] == FEATURES ==> Stripped(args[i..]) == if i + 1 < |args| then Stripped(args[i + 2..]) else []
    ensures Plain(args[i]) ==> remaining + Stripped(args[i..]) == remaining + [args[i]] + Stripped(args[i + 1..])
  {
    var rest := args[i..];
    assert rest[0] == args[i] && rest[1..] == args[i + 1..];
    assert |rest| > 1 ==> rest[2..] == args[i + 2..];
    if Plain(args[i]) {
      assert Stripped(rest) == [args[i]] + Stripped(args[i + 1..]);
    }
  }

  method StripBootstrapArgs(args: seq<string>) returns (remaining: seq<string>)
    ensures remaining == Stripped(args)
  {
    remaining := [];
    var i := 0;
    assert args[0..] == args;
    while i < |args|
      invariant 0 <= i <= |args|
      invariant remaining + Stripped(args[i..]) == Stripped(args)
    {
      StripStep(args, i, remaining);
      var arg := args[i];
      if arg == END_OF_OPTIONS {
        return remaining + args[i..];
      }
      if HasPrefix(arg, FEATURES_EQUALS) {
      } else if arg == FEATURES {
        if i + 1 < |args| {
          i := i + 1;
        }
      } else {
        remaining := remaining + [arg];
      }
      i := i + 1;
    }
  }

  const VALUE_FLAGS: set<string> := {"log-level", "l", "architecture", "a", "uds-cache", "tmpdir", "oci-concurrency"}

  /** A root flag may take the next argument as its value. */
  function FlagWidth(arg: string): nat {
    if '=' !in arg && TrimLeft(arg, '-') in VALUE_FLAGS then 2 else 1
  }

  ghost predicate Dashes(s: string) {
    forall i :: 0 <= i < |s| ==> s[i] == '-'
  }

  lemma {:induction false} Trimmed(s: string)
    ensures TrimLeft(s, '-') <= s || |TrimLeft(s, '-')| <= |s|
    ensures s[|s| - |TrimLeft(s, '-')|..] == TrimLeft(s, '-') && Dashes(s[..|s| - |TrimLeft(s, '-')|])
  {
    if s != "" && s[0] == '-' {
      Trimmed(s[1..]);
      var n := |s| - |TrimLeft(s, '-')|;
      assert s[..n] == [s[0]] + s[1..][..n - 1];
    }
  }

  lemma {:induction false} DashesTrimmed(dashes: string, name: string)
    requires Dashes(dashes) && name != "" && name[0] != '-'
    ensures TrimLeft(dashes + name, '-') == name
    decreases |dashes|
  {
    if dashes == "" {
      assert dashes + name == name;
    } else {
      assert (dashes + name)[1..] == dashes[1..] + name;
      DashesTrimmed(dashes[1..], name);
    }
  }

  lemma ValueFlagNames(name: string)
    ensures name in VALUE_FLAGS <==>
            name in ["log-level", "l", "architecture", "a", "uds-cache", "tmpdir", "oci-concurrency"]
    ensures name in VALUE_FLAGS ==> name != "" && name[0] != '-' && '=' !in name
  {
  }

  ghost predicate IsFlag(arg: string, dashes: string, name: string) {
    arg == dashes + name && Dashes(dashes)
  }

  /** Taking a value are exactly these flags of the root command, with any number of dashes in front, unless the value
      comes with an equals sign. */
  lemma ValueFlagMeaning(arg: string)
    ensures FlagWidth(arg) == 2 <==>
            exists dashes, name :: IsFlag(arg, dashes, name) &&
              name in ["log-level", "l", "architecture", "a", "uds-cache", "tmpdir", "oci-concurrency"]
    ensures FlagWidth(arg) == 1 || FlagWidth(arg) == 2
  {
    if FlagWidth(arg) == 2 {
      Trimmed(arg);
      var n := |arg| - |TrimLeft(arg, '-')|;
      assert IsFlag(arg, arg[..n], TrimLeft(arg, '-'));
      ValueFlagNames(TrimLeft(arg, '-'));
    }
    if dashes, name :| IsFlag(arg, dashes, name) && name in VALUE_FLAGS {
      ValueFlagNames(name);
      DashesTrimmed(dashes, name);
    }
    forall dashes, name | IsFlag(arg, dashes, name) { ValueFlagNames(name); }
  }

  function ZarfIndex(args: seq<string>, i: nat): Option<nat>
    decreases |args| - i
  {
    if i >= |args| || args[i] == END_OF_OPTIONS then None
    else if args[i] == "zarf" || args[i] == "z" then Some(i)
    else if args[i] == "tools" then NestedZarfIndex(args, i + 1)
    else if !HasPrefix(args[i], "-") then None
    else ZarfIndex(args, i + FlagWidth(args[i]))
  }

  function NestedZarfIndex(args: seq<string>, i: nat): Option<nat>
    decreases |args| - i
  {
    if i >= |args| || args[i] == END_OF_OPTIONS then None
    else if args[i] == "zarf" then Some(i)
    else if !HasPrefix(args[i], "-") then None
    else NestedZarfIndex(args, i + FlagWidth(args[i]))
  }

  method ZarfCommandIndex(args: seq<string>) returns (index: Option<nat>)
    ensures index == ZarfIndex(args, 0)
  {
    var i := 0;
    while i < |args|
      invariant ZarfIndex(args, i) == ZarfIndex(args, 0)
      decreases |args| - i
    {
      var arg := args[i];
      if arg == END_OF_OPTIONS {
        return None;
      }
      if arg == "zarf" || arg == "z" {
        return Some(i);
      }
      if arg == "tools" {
        index := NestedZarfCommandIndex(args, i + 1);
        return;
      }
      if !HasPrefix(arg, "-") {
        return None;
      }
      if '=' !in arg && TrimLeft(arg, '-') in VALUE_FLAGS {
        i := i + 1;
      }
      i := i + 1;
    }
    return None;
  }

  method NestedZarfCommandIndex(args: seq<string>, start: nat) returns (index: Option<nat>)
    ensures index == NestedZarfIndex(args, start)
  {
    var i := start;
    while i < |args|
      invariant NestedZarfIndex(args, i) == NestedZarfIndex(args, start)
      decreases |args| - i
    {
      var arg := args[i];
      if arg == END_OF_OPTIONS {
        return None;
      }
      if arg == "zarf" {
        return Some(i);
      }
      if !HasPrefix(arg, "-") {
        return None;
      }
      if '=' !in arg && TrimLeft(arg, '-') in VALUE_FLAGS {
        i := i + 1;
      }
      i := i + 1;
    }
    return None;
  }

  lemma {:induction false} NestedIndexInRange(args: seq<string>, i: nat)
    ensures var r := NestedZarfIndex(args, i); r.Some? ==> i <= r.value < |args| && args[r.value] != END_OF_OPTIONS
    decreases |args| - i
  {
    if i < |args| {
      assert "zarf"[0] != END_OF_OPTIONS[0];
      NestedIndexInRange(args, i + FlagWidth(args[i]));
    }
  }

  lemma {:induction false} ZarfIndexInRange(args: seq<string>, i: nat)
    ensures var r := ZarfIndex(args, i); r.Some? ==> i <= r.value < |args| && args[r.value] != END_OF_OPTIONS
    decreases |args| - i
  {
    if i < |args| {
      assert "zarf"[0] != END_OF_OPTIONS[0] && "z"[0] != END_OF_OPTIONS[0];
      NestedIndexInRange(args, i + 1);
      ZarfIndexInRange(args, i + FlagWidth(args[i]));
    }
  }

  // What the zarf command index finds.

  /** What an argument in front of the command is. */
  datatype Role = Flag | FlagValue | ToolsCommand

  /** The argument behind the first k is the value of the flag before it. */
  ghost predicate ValueAt(args: seq<string>, from: nat, roles: seq<Role>, k: nat)
    requires k <= |roles| && from + |roles| <= |args|
  {
    k > 0 && roles[k - 1] == Flag && FlagWidth(args[from + k - 1]) == 2
  }

  ghost predicate InTools(nested: bool, roles: seq<Role>, k: nat)
    requires k <= |roles|
  {
    nested || exists j :: 0 <= j < k && roles[j] == ToolsCommand
  }

  /** An argument may play its role: flags begin with a dash and do not end the options, values are exactly what their
      flags take, and tools comes once. */
  ghost predicate Fits(args: seq<string>, from: nat, nested: bool, roles: seq<Role>, k: nat)
    requires k < |roles| && from + |roles| <= |args|
  {
    && (roles[k] == FlagValue <==> ValueAt(args, from, roles, k))
    && (roles[k] == Flag ==> HasPrefix(args[from + k], "-") && args[from + k] != END_OF_OPTIONS)
    && (roles[k] == ToolsCommand ==> args[from + k] == "tools" && !InTools(nested, roles, k))
  }

  /** The arguments from a position on play these roles, and the next is the command: zarf, or z outside tools. */
  ghost predicate LeadToCommand(args: seq<string>, from: nat, nested: bool, roles: seq<Role>) {
    && from + |roles| < |args|
    && (forall k :: 0 <= k < |roles| ==> Fits(args, from, nested, roles, k))
    && !ValueAt(args, from, roles, |roles|)
    && var command := args[from + |roles|];
       command == "zarf" || (command == "z" && !InTools(nested, roles, |roles|))
  }

  lemma InToolsBehind(nested: bool, roles: seq<Role>, w: nat, k: nat)
    requires w <= |roles| && k <= |roles| - w
    ensures InTools(InTools(nested, roles, w), roles[w..], k) == InTools(nested, roles, w + k)
  {
    if j :| 0 <= j < k && roles[w..][j] == ToolsCommand {
      assert roles[w + j] == ToolsCommand;
    }
    if j :| 0 <= j < w + k && roles[j] == ToolsCommand {
      assert j < w || roles[w..][j - w] == ToolsCommand;
    }
  }

  lemma FitsBehind(args: seq<string>, from: nat, nested: bool, roles: seq<Role>, w: nat, k: nat)
    requires k < |roles| - w && w <= |roles| && from + |roles| <= |args| && !ValueAt(args, from, roles, w)
    ensures Fits(args, from + w, InTools(nested, roles, w), roles[w..], k) == Fits(args, from, nested, roles, w + k)
  {
    InToolsBehind(nested, roles, w, k);
    assert k > 0 ==> roles[w..][k - 1] == roles[w + k - 1];
  }

  /** Roles can be read from any point on that does not split a flag from its value. */
  lemma RolesBehind(args: seq<string>, from: nat, nested: bool, roles: seq<Role>, w: nat)
    requires w <= |roles| && from + |roles| < |args| && !ValueAt(args, from, roles, w)
    ensures LeadToCommand(args, from, nested, roles) <==>
            && (forall k :: 0 <= k < w ==> Fits(args, from, nested, roles, k))
            && LeadToCommand(args, from + w, InTools(nested, roles, w), roles[w..])
  {
    var at, rest, inside := from + w, roles[w..], InTools(nested, roles, w);
    forall k | 0 <= k < |rest|
      ensures Fits(args, at, inside, rest, k) == Fits(args, from, nested, roles, w + k) {
      FitsBehind(args, from, nested, roles, w, k);
    }
    InToolsBehind(nested, roles, w, |rest|);
    assert |rest| > 0 ==> rest[|rest| - 1] == roles[|roles| - 1];
    if LeadToCommand(args, at, inside, rest) && forall k :: 0 <= k < w ==> Fits(args, from, nested, roles, k) {
      forall k | 0 <= k < |roles| ensures Fits(args, from, nested, roles, k) {
        if k >= w {
          assert Fits(args, at, inside, rest, k - w);
        }
      }
    }
  }

  function CommandIndex(args: seq<string>, from: nat, nested: bool): Option<nat> {
    if nested then NestedZarfIndex(args, from) else ZarfIndex(args, from)
  }

  lemma CommandWords()
    ensures !HasPrefix("zarf", "-") && !HasPrefix("z", "-") && !HasPrefix("tools", "-")
    ensures "zarf" != "tools" && "z" != "tools" && "zarf" != "z"
    ensures "zarf" != END_OF_OPTIONS && "z" != END_OF_OPTIONS && "tools" != END_OF_OPTIONS
  {
    assert "zarf"[0] == 'z' && "z"[0] == 'z' && "tools"[0] == 't' && "-"[0] == '-' && END_OF_OPTIONS[0] == '-';
    assert |"zarf"| == 4 && |"z"| == 1;
  }

  lemma {:induction false} RolesGiveIndex(args: seq<string>, from: nat, nested: bool, roles: seq<Role>)
    requires LeadToCommand(args, from, nested, roles)
    ensures CommandIndex(args, from, nested) == Some(from + |roles|)
    decreases |roles|
  {
    CommandWords();
    if roles != [] {
      assert Fits(args, from, nested, roles, 0);
      var w := if roles[0] == Flag then FlagWidth(args[from]) else 1;
      if w == 2 {
        assert !ValueAt(args, from, roles, |roles|);
        assert Fits(args, from, nested, roles, 1);
      }
      RolesBehind(args, from, nested, roles, w);
      RolesGiveIndex(args, from + w, InTools(nested, roles, w), roles[w..]);
    }
  }

  lemma {:induction false} IndexGivesRoles(args: seq<string>, from: nat, nested: bool) returns (roles: seq<Role>)
    requires CommandIndex(args, from, nested).Some?
    ensures LeadToCommand(args, from, nested, roles) && CommandIndex(args, from, nested) == Some(from + |roles|)
    decreases |args| - from
  {
    CommandWords();
    var arg := args[from];
    if arg == "zarf" || (arg == "z" && !nested) {
      roles := [];
    } else {
      var own := if !HasPrefix(arg, "-") then [ToolsCommand]
                 else if FlagWidth(arg) == 2 then [Flag, FlagValue]
                 else [Flag];
      var rest := IndexGivesRoles(args, from + |own|, InTools(nested, own, |own|));
      roles := own + rest;
      assert roles[|own|..] == rest && forall j :: 0 <= j < |own| ==> roles[j] == own[j];
      assert InTools(nested, roles, |own|) == InTools(nested, own, |own|);
      RolesBehind(args, from, nested, roles, |own|);
    }
  }

  /** The index found is exactly a position that flags, their values and at most one tools lead up to, and that holds
      zarf, or z where tools did not come before. */
  lemma ZarfIndexMeaning(args: seq<string>, i: nat)
    ensures ZarfIndex(args, 0) == Some(i) <==> exists roles :: |roles| == i && LeadToCommand(args, 0, false, roles)
  {
    if ZarfIndex(args, 0) == Some(i) {
      var roles := IndexGivesRoles(args, 0, false);
    }
    if roles :| |roles| == i && LeadToCommand(args, 0, false, roles) {
      RolesGiveIndex(args, 0, false, roles);
    }
  }

  /** Behind tools only flags and their values lead up to zarf. */
  lemma NestedIndexMeaning(args: seq<string>, start: nat, i: nat)
    ensures NestedZarfIndex(args, start) == Some(i)
       <==> exists roles :: start + |roles| == i && LeadToCommand(args, start, true, roles)
  {
    if NestedZarfIndex(args, start) == Some(i) {
      var roles := IndexGivesRoles(args, start, true);
    }
    if roles :| start + |roles| == i && LeadToCommand(args, start, true, roles) {
      RolesGiveIndex(args, start, true, roles);
    }
  }

  function ZarfFeatures(features: FeatureSet): FeatureSet {
    Unset(features, NEXT_MODE)
  }

  function Inserted(args: seq<string>, n: nat, arg: string): seq<string>
    requires n <= |args|
  {
    args[..n] + [arg] + args[n..]
  }

  /** The arguments with Zarf's features put back after the zarf command. */
  ghost function WithZarfFeatures(args: seq<string>, features: FeatureSet): seq<string> {
    var index := ZarfIndex(args, 0);
    if ZarfFeatures(features) == map[] || index.None? then args
    else
      ZarfIndexInRange(args, 0);
      Inserted(args, index.value + 1, FEATURES_EQUALS + TextOf(ZarfFeatures(features)))
  }

  method AddZarfFeatures(args: seq<string>, features: FeatureSet) returns (r: seq<string>)
    ensures r == WithZarfFeatures(args, features)
  {
    var zarfFeatures := ZarfFeatures(features);
    if zarfFeatures == map[] {
      return args;
    }
    var index := ZarfCommandIndex(args);
    if index.Some? {
      ZarfIndexInRange(args, 0);
      var text := String(zarfFeatures);
      return Inserted(args, index.value + 1, FEATURES_EQUALS + text);
    }
    return args;
  }

  const DEFAULTS: FeatureSet := map[NEXT_MODE := false]

  datatype Resolution = Resolution(mode: Mode, features: FeatureSet, args: seq<string>)

  ghost function Settled(features: FeatureSet, remaining: seq<string>): Resolution
    requires NEXT_MODE in features
  {
    Resolution(if features[NEXT_MODE] then Next else Legacy, features, WithZarfFeatures(remaining, features))
  }

  /** The settings after the options with these values; one at most is allowed. */
  function WithOptions(known: set<string>, settings: FeatureSet, values: seq<Option<string>>)
    : Result<FeatureSet, ModeError>
  {
    if values == [] then Ok(settings)
    else if values[0].None? then Err(FeaturesRequireValue)
    else match Parsed(known, values[0].value)
      case Err(e) => Err(InvalidFeatures(e))
      case Ok(fromArgs) =>
        if |values| == 1 then Ok(settings + fromArgs)
        else Err(if values[1].None? then FeaturesRequireValue else DuplicateOption)
  }

  /** Defaults, then the environment, then the one command line option; the first thing wrong is the error. */
  ghost function Outcome(known: set<string>, args: seq<string>, env: Option<string>): Result<Resolution, ModeError> {
    match if env.None? then Ok(map[]) else Parsed(known, env.value)
    case Err(e) => Err(InvalidEnvironment(e))
    case Ok(fromEnv) =>
      match WithOptions(known, DEFAULTS + fromEnv, FeatureValues(args))
      case Err(e) => Err(e)
      case Ok(features) => Ok(Settled(features, Stripped(args)))
  }

  /** The part of the arguments that is still to be looked at, and what the others gave. */
  ghost predicate Scanning(known: set<string>, args: seq<string>, settings: FeatureSet,
                           rest: seq<string>, remaining: seq<string>, seen: Option<string>, features: FeatureSet)
  {
    && remaining + Stripped(rest) == Stripped(args)
    && FeatureValues(args) == (if seen.Some? then [seen] else []) + FeatureValues(rest)
    && WithOptions(known, settings, if seen.Some? then [seen] else []) == Ok(features)
  }

  lemma KeepArgument(known: set<string>, args: seq<string>, settings: FeatureSet,
                     rest: seq<string>, remaining: seq<string>, seen: Option<string>, features: FeatureSet)
    requires Scanning(known, args, settings, rest, remaining, seen, features) && rest != []
    ensures rest[0] == END_OF_OPTIONS ==> Scanning(known, args, settings, [], remaining + rest, seen, features)
    ensures Plain(rest[0]) ==> Scanning(known, args, settings, rest[1..], remaining + [rest[0]], seen, features)
  {
    assert remaining + ([rest[0]] + Stripped(rest[1..])) == remaining + [rest[0]] + Stripped(rest[1..]);
  }

  /** Takes an option with its value out of the arguments. */
  lemma TakeOption(known: set<string>, args: seq<string>, settings: FeatureSet, rest: seq<string>,
                   remaining: seq<string>,
                   seen: Option<string>, features: FeatureSet, value: string, after: seq<string>)
    requires Scanning(known, args, settings, rest, remaining, seen, features) && rest != []
    requires Stripped(rest) == Stripped(after) && FeatureValues(rest) == [Some(value)] + FeatureValues(after)
    ensures seen.Some? ==> WithOptions(known, settings, FeatureValues(args)) == Err(DuplicateOption)
    ensures seen.None? && Parsed(known, value).Err? ==>
              WithOptions(known, settings, FeatureValues(args)) == Err(InvalidFeatures(Parsed(known, value).error))
    ensures seen.None? && Parsed(known, value).Ok? ==>
              Scanning(known, args, settings, after, remaining, Some(value), features + Parsed(known, value).value)
  {
  }

  lemma OptionWithoutValue(known: set<string>, args: seq<string>, settings: FeatureSet, remaining: seq<string>,
                           seen: Option<string>, features: FeatureSet)
    requires Scanning(known, args, settings, [FEATURES], remaining, seen, features)
    ensures WithOptions(known, settings, FeatureValues(args)) == Err(FeaturesRequireValue)
  {
    assert FeatureValues([FEATURES]) == [None];
  }

  lemma OptionForms(rest: seq<string>)
    requires rest != []
    ensures HasPrefix(rest[0], FEATURES_EQUALS) ==>
      Stripped(rest) == Stripped(rest[1..])
      && FeatureValues(rest) == [Some(TrimPrefix(rest[0], FEATURES_EQUALS))] + FeatureValues(rest[1..])
    ensures rest[0] == FEATURES && |rest| > 1 ==>
      Stripped(rest) == Stripped(rest[2..]) && FeatureValues(rest) == [Some(rest[1])] + FeatureValues(rest[2..])
  {
  }

  method Resolve(known: set<string>, args: seq<string>, env: Option<string>) returns (r: Result<Resolution, ModeError>)
    ensures r == Outcome(known, args, env)
  {
    var features := DEFAULTS;
    if env.Some? {
      var fromEnv := Parse(known, env.value);
      if fromEnv.Err? {
        return Err(InvalidEnvironment(fromEnv.error));
      }
      features := features + fromEnv.value;
    }
    assert DEFAULTS + map[] == DEFAULTS;
    ghost var settings, seen := features, None;
    var remaining: seq<string> := [];
    var seenFeatures := false;
    var rest := args;
    while |rest| > 0
      invariant Scanning(known, args, settings, rest, remaining, seen, features) && seenFeatures == seen.Some?
      decreases |rest|
    {
      KeepArgument(known, args, settings, rest, remaining, seen, features);
      OptionForms(rest);
      ghost var before := rest;
      var arg := rest[0];
      rest := rest[1..];
      if arg == END_OF_OPTIONS {
        assert before == [arg] + rest;
        remaining := remaining + ([arg] + rest);
        rest := [];
        break;
      }
      var value := "";
      if HasPrefix(arg, FEATURES_EQUALS) {
        value := TrimPrefix(arg, FEATURES_EQUALS);
      } else if arg == FEATURES {
        if |rest| == 0 {
          assert before == [FEATURES];
          OptionWithoutValue(known, args, settings, remaining, seen, features);
          return Err(FeaturesRequireValue);
        }
        value := rest[0];
        rest := rest[1..];
        assert before[1] == value && before[2..] == rest;
      } else {
        remaining := remaining + [arg];
        continue;
      }
      TakeOption(known, args, settings, before, remaining, seen, features, value, rest);
      if seenFeatures {
        return Err(DuplicateOption);
      }
      seenFeatures := true;
      var parsed := Parse(known, value);
      if parsed.Err? {
        return Err(InvalidFeatures(parsed.error));
      }
      features := features + parsed.value;
      seen := Some(value);
    }
    assert remaining + [] == remaining;
    remaining := AddZarfFeatures(remaining, features);
    return Ok(Resolution(if features[NEXT_MODE] then Next else Legacy, features, remaining));
  }

  /** The option on the command line decides over the environment, and the environment over the default, setting by
      setting; without either, NextMode is off and nothing else is set. */
  lemma OptionOverEnvironment(known: set<string>, args: seq<string>, env: Option<string>, n: string)
    requires Outcome(known, args, env).Ok?
    ensures |FeatureValues(args)| <= 1 && (FeatureValues(args) != [] ==>
              FeatureValues(args)[0].Some? && Parsed(known, FeatureValues(args)[0].value).Ok?)
    ensures env.Some? ==> Parsed(known, env.value).Ok?
    ensures var features := Outcome(known, args, env).value.features;
            var option := if FeatureValues(args) == [] then map[]
                          else Parsed(known, FeatureValues(args)[0].value).value;
            var environment := if env.None? then map[] else Parsed(known, env.value).value;
            if n in option then n in features && features[n] == option[n]
            else if n in environment then n in features && features[n] == environment[n]
            else (n in features <==> n == "NextMode") && (n in features ==> !features[n])
  {
  }

  /** When the command is a zarf command and a feature other than NextMode is set, one --features= option comes directly
      behind it, and its value reads as exactly the settings of those other features; otherwise nothing is added. */
  lemma ZarfGetsOtherFeatures(known: set<string>, args: seq<string>, features: FeatureSet)
    returns (value: string, others: FeatureSet)
    requires WellNamed(known) && features.Keys <= known
    ensures OthersOf(features, others)
    ensures others != map[] ==> Parsed(known, value) == Ok(others)
    ensures var k := ZarfIndex(args, 0);
            WithZarfFeatures(args, features) ==
            if others == map[] || k.None? || k.value >= |args| then args
            else args[..k.value + 1] + ["--features=" + value] + args[k.value + 1..]
  {
    others := ZarfFeatures(features);
    value := TextOf(others);
    if ZarfIndex(args, 0).Some? {
      ZarfIndexInRange(args, 0);
    }
    if others != map[] {
      PrintedParses(known, others);
    }
  }

  /** The settings of all features but NextMode. */
  ghost predicate OthersOf(features: FeatureSet, others: FeatureSet) {
    forall n :: (n in others <==> n in features && n != "NextMode") && (n in others ==> others[n] == features[n])
  }

  // Stripping, reinsertion and the child process.

  /** Only plain arguments before the end of options. */
  predicate Clean(args: seq<string>) {
    args == [] || args[0] == END_OF_OPTIONS || (Plain(args[0]) && Clean(args[1..]))
  }

  lemma {:induction false} StrippedClean(args: seq<string>)
    ensures Clean(Stripped(args)) && |Stripped(args)| <= |args|
  {
    if args != [] && args[0] != END_OF_OPTIONS {
      StrippedClean(args[1..]);
      if |args| > 1 {
        StrippedClean(args[2..]);
      }
      if Plain(args[0]) {
        assert Stripped(args)[1..] == Stripped(args[1..]);
      }
    }
  }

  /** Stripping changes nothing exactly when there is nothing to strip. */
  lemma {:induction false} CleanMeaning(args: seq<string>)
    ensures Stripped(args) == args <==> Clean(args)
    ensures Clean(args) ==> FeatureValues(args) == []
  {
    if args != [] && args[0] != END_OF_OPTIONS {
      CleanMeaning(args[1..]);
      assert args == [args[0]] + args[1..];
      StrippedClean(args[1..]);
      if |args| > 1 {
        StrippedClean(args[2..]);
      }
    }
  }

  lemma {:induction false} StrippedTwice(args: seq<string>)
    ensures Stripped(Stripped(args)) == Stripped(args)
  {
    StrippedClean(args);
    CleanMeaning(Stripped(args));
  }

  /** No end of options among the first n. */
  predicate OpenUntil(args: seq<string>, n: nat) {
    forall i :: 0 <= i < n && i < |args| ==> args[i] != END_OF_OPTIONS
  }

  /** An inserted --features= is stripped again when it comes before the end of options, and is kept after it. */
  lemma {:induction false} StrippedInsertion(args: seq<string>, n: nat, arg: string)
    requires Clean(args) && n <= |args| && HasPrefix(arg, FEATURES_EQUALS)
    ensures Stripped(Inserted(args, n, arg)) == if OpenUntil(args, n) then args else Inserted(args, n, arg)
  {
    var all := Inserted(args, n, arg);
    assert arg[2] == FEATURES_EQUALS[2] && arg != END_OF_OPTIONS;
    CleanMeaning(args);
    if n == 0 {
      assert all[1..] == args;
    } else {
      var first, rest := args[0], args[1..];
      assert OpenUntil(args, n) <==> first != END_OF_OPTIONS && OpenUntil(rest, n - 1) by {
        assert forall i :: 0 < i < |args| ==> args[i] == rest[i - 1];
        assert forall i :: 0 <= i < |rest| ==> rest[i] == args[i + 1];
      }
      assert all[1..] == Inserted(rest, n - 1, arg) && all[0] == first && all == [first] + all[1..];
      if first != END_OF_OPTIONS {
        StrippedInsertion(rest, n - 1, arg);
        CleanMeaning(rest);
        assert args == [first] + rest;
      }
    }
  }

  /** Zarf's features, if any go back, go back before the end of options. */
  ghost predicate ReinsertsBeforeEnd(args: seq<string>, features: FeatureSet) {
    var index := ZarfIndex(args, 0);
    ZarfFeatures(features) == map[] || index.None? || OpenUntil(args, index.value)
  }

  lemma StrippedAfter(args: seq<string>, k: nat, arg: string)
    requires Clean(args) && k < |args| && args[k] != END_OF_OPTIONS && HasPrefix(arg, FEATURES_EQUALS)
    ensures Stripped(Inserted(args, k + 1, arg)) == args <==> OpenUntil(args, k)
  {
    StrippedInsertion(args, k + 1, arg);
    assert OpenUntil(args, k + 1) <==> OpenUntil(args, k);
    assert |Inserted(args, k + 1, arg)| == |args| + 1;
  }

  lemma StrippedReinsertion(args: seq<string>, features: FeatureSet)
    requires Clean(args)
    ensures Stripped(WithZarfFeatures(args, features)) == args <==> ReinsertsBeforeEnd(args, features)
  {
    CleanMeaning(args);
    var index := ZarfIndex(args, 0);
    if ZarfFeatures(features) != map[] && index.Some? {
      ZarfIndexInRange(args, 0);
      StrippedAfter(args, index.value, FEATURES_EQUALS + TextOf(ZarfFeatures(features)));
    }
  }

  /** After a successful resolution, stripping the arguments again gives what stripping the original gives, unless the
      zarf command was found beyond an end of options that a root flag took for its value. */
  lemma ResolvedArgsStrip(known: set<string>, args: seq<string>, env: Option<string>)
    requires Outcome(known, args, env).Ok?
    ensures var res := Outcome(known, args, env).value;
            Stripped(res.args) == Stripped(args) <==> ReinsertsBeforeEnd(Stripped(args), res.features)
  {
    StrippedClean(args);
    var res := Outcome(known, args, env).value;
    assert res.args == WithZarfFeatures(Stripped(args), res.features);
    StrippedReinsertion(Stripped(args), res.features);
  }

  lemma FlagThenEnd()
    ensures var args := ["-a", END_OF_OPTIONS, "zarf"];
            && ZarfIndex(args, 0) == Some(2) && Stripped(args) == args && FeatureValues(args) == []
            && !OpenUntil(args, 2)
  {
    var args := ["-a", END_OF_OPTIONS, "zarf"];
    CommandWords();
    assert "-a"[1..] == "a" && "-a"[1] == 'a' && END_OF_OPTIONS[1] == '-';
    assert TrimLeft("a", '-') == "a" && TrimLeft("-a", '-') == "a";
    assert FlagWidth("-a") == 2;
    assert ZarfIndex(args, 2) == Some(2);
    assert !HasPrefix("-a", FEATURES_EQUALS) && "-a" != FEATURES && "-a" != END_OF_OPTIONS && args[1] == END_OF_OPTIONS;
    assert args[1..][0] == END_OF_OPTIONS;
    assert args == ["-a"] + args[1..];
  }

  lemma OneFeature()
    ensures Parsed({NEXT_MODE, "x"}, "x") == Ok(map["x" := true]) && "x" != NEXT_MODE
  {
    var known := {NEXT_MODE, "x"};
    assert "x"[0] == 'x' && NEXT_MODE[0] == 'N';
    FirstIndex("x", ',', 0, 1);
    FirstIndex("x", '=', 0, 1);
    assert Split("x", ',') == ["x"] && Cut("x", '=') == ("x", "", false);
    var results := PairResults(known, ["x"]);
    assert results == [Ok(("x", true))];
    assert Collect(results, 0) == Ok(map[]);
    assert Collect(results, 1) == Ok(map["x" := true]);
  }

  /** There are such arguments: the value of -a is taken to be the end of options, and resolving succeeds with a feature
      put back behind it, where stripping leaves it alone. */
  lemma EndOfOptionsAsFlagValue()
    ensures var known, args := {NEXT_MODE, "x"}, ["-a", END_OF_OPTIONS, "zarf"];
            var outcome := Outcome(known, args, Some("x"));
            WellNamed(known) && outcome.Ok? && Stripped(outcome.value.args) != Stripped(args)
  {
    var known, args := {NEXT_MODE, "x"}, ["-a", END_OF_OPTIONS, "zarf"];
    FlagThenEnd();
    OneFeature();
    var features := DEFAULTS + map["x" := true];
    assert WithOptions(known, features, []) == Ok(features);
    assert Outcome(known, args, Some("x")) == Ok(Settled(features, args));
    assert "x" in ZarfFeatures(features);
    ResolvedArgsStrip(known, args, Some("x"));
    assert WellNamed(known) by {
      assert forall k :: 0 <= k < |NEXT_MODE| ==> NEXT_MODE[k] != ',' && NEXT_MODE[k] != '=';
    }
  }

  lemma ResolvedFeatures(known: set<string>, args: seq<string>, env: Option<string>)
    requires WellNamed(known) && Outcome(known, args, env).Ok?
    ensures var res := Outcome(known, args, env).value;
            NEXT_MODE in res.features && res.features.Keys <= known
            && (res.mode == Next <==> res.features[NEXT_MODE])
  {
    var values := FeatureValues(args);
    if env.Some? {
      ParsedKnown(known, env.value);
    }
    if values != [] {
      ParsedKnown(known, values[0].value);
    }
  }

  /** A child process that is given only the exported environment resolves to the same mode and features. */
  lemma ChildResolvesTheSame(known: set<string>, args: seq<string>, env: Option<string>, childArgs: seq<string>)
    requires WellNamed(known) && Outcome(known, args, env).Ok? && FeatureValues(childArgs) == []
    ensures var res := Outcome(known, args, env).value;
            var child := Outcome(known, childArgs, Some(TextOf(res.features)));
            child.Ok? && child.value.mode == res.mode && child.value.features == res.features
  {
    var f := Outcome(known, args, env).value.features;
    ResolvedFeatures(known, args, env);
    PrintedParses(known, f);
    assert DEFAULTS + f == f;
  }

  /** The value of an inserted option counts when it comes before the end of options. */
  lemma {:induction false} InsertedValue(args: seq<string>, n: nat, arg: string)
    requires Clean(args) && n <= |args| && HasPrefix(arg, FEATURES_EQUALS)
    ensures FeatureValues(Inserted(args, n, arg))
         == if OpenUntil(args, n) then [Some(TrimPrefix(arg, FEATURES_EQUALS))] else []
  {
    var all := Inserted(args, n, arg);
    assert arg[2] == FEATURES_EQUALS[2] && arg != END_OF_OPTIONS;
    CleanMeaning(args);
    if n == 0 {
      assert all[1..] == args;
    } else {
      var first, rest := args[0], args[1..];
      assert OpenUntil(args, n) <==> first != END_OF_OPTIONS && OpenUntil(rest, n - 1) by {
        assert forall i :: 0 < i < |args| ==> args[i] == rest[i - 1];
        assert forall i :: 0 <= i < |rest| ==> rest[i] == args[i + 1];
      }
      assert all[1..] == Inserted(rest, n - 1, arg) && all[0] == first;
      if first != END_OF_OPTIONS {
        InsertedValue(rest, n - 1, arg);
      }
    }
  }

  /** The option put back changes no setting that is already there. */
  lemma ReinsertedSettings(known: set<string>, args: seq<string>, features: FeatureSet)
    requires WellNamed(known) && features.Keys <= known && Clean(args)
    ensures WithOptions(known, features, FeatureValues(WithZarfFeatures(args, features))) == Ok(features)
  {
    CleanMeaning(args);
    var index, back := ZarfIndex(args, 0), ZarfFeatures(features);
    if back != map[] && index.Some? {
      ZarfIndexInRange(args, 0);
      var arg := FEATURES_EQUALS + TextOf(back);
      InsertedValue(args, index.value + 1, arg);
      assert TrimPrefix(arg, FEATURES_EQUALS) == TextOf(back);
      PrintedParses(known, back);
      assert features + back == features;
    }
  }

  /** The command is found by what stands in front of it. */
  lemma {:induction false} IndexByPrefix(args: seq<string>, args': seq<string>, from: nat, nested: bool, n: nat)
    requires n < |args| && n < |args'| && args[..n + 1] == args'[..n + 1] && CommandIndex(args, from, nested) == Some(n)
    ensures CommandIndex(args', from, nested) == Some(n)
  {
    var roles := IndexGivesRoles(args, from, nested);
    assert forall k :: 0 <= k <= n ==> args[k] == args[..n + 1][k] && args'[k] == args'[..n + 1][k];
    forall k | 0 <= k < |roles| ensures Fits(args', from, nested, roles, k) {
      assert Fits(args, from, nested, roles, k);
    }
    RolesGiveIndex(args', from, nested, roles);
  }

  lemma OpenLess(args: seq<string>, n: nat)
    ensures OpenUntil(args, n + 1) ==> OpenUntil(args, n)
  {
  }

  lemma PrefixOfInserted(args: seq<string>, n: nat, arg: string)
    requires n <= |args|
    ensures Inserted(args, n, arg)[..n] == args[..n]
  {
  }

  lemma InsertedBehindIndex(args: seq<string>, features: FeatureSet, n: nat)
    requires ZarfIndex(args, 0) == Some(n) && ZarfFeatures(features) != map[]
    ensures n < |args|
    ensures WithZarfFeatures(args, features) == Inserted(args, n + 1, FEATURES_EQUALS + TextOf(ZarfFeatures(features)))
    ensures |WithZarfFeatures(args, features)| == |args| + 1
  {
    ZarfIndexInRange(args, 0);
  }

  lemma InsertedBeyondEnd(args: seq<string>, n: nat, arg: string)
    requires Clean(args) && ZarfIndex(args, 0) == Some(n) && n < |args| && !OpenUntil(args, n)
    requires HasPrefix(arg, FEATURES_EQUALS)
    ensures var once := Inserted(args, n + 1, arg);
            Stripped(once) == once && ZarfIndex(once, 0) == Some(n) && |once| == |args| + 1
  {
    OpenLess(args, n);
    StrippedInsertion(args, n + 1, arg);
    PrefixOfInserted(args, n + 1, arg);
    IndexByPrefix(args, Inserted(args, n + 1, arg), 0, false, n);
  }

  /** Put behind the command beyond an end of options, the option stays, and a second one is put in. */
  lemma ReinsertedTwice(args: seq<string>, features: FeatureSet)
    requires Clean(args) && !ReinsertsBeforeEnd(args, features)
    ensures var once := WithZarfFeatures(args, features);
            Stripped(once) == once && |WithZarfFeatures(once, features)| == |once| + 1
  {
    var n, once := ZarfIndex(args, 0).value, WithZarfFeatures(args, features);
    InsertedBehindIndex(args, features, n);
    InsertedBeyondEnd(args, n, FEATURES_EQUALS + TextOf(ZarfFeatures(features)));
    InsertedBehindIndex(once, features, n);
  }

  /** Resolving the resolved arguments in the exported environment gives the same mode and features, and the same
      arguments exactly when the features went back before the end of options. */
  lemma ResolvingAgain(known: set<string>, args: seq<string>, env: Option<string>)
    requires WellNamed(known) && Outcome(known, args, env).Ok?
    ensures var res := Outcome(known, args, env).value;
            var again := Outcome(known, res.args, Some(TextOf(res.features)));
            && again.Ok? && again.value.mode == res.mode && again.value.features == res.features
            && (again.value.args == res.args <==> ReinsertsBeforeEnd(Stripped(args), res.features))
  {
    var res := Outcome(known, args, env).value;
    var f, stripped := res.features, Stripped(args);
    ResolvedFeatures(known, args, env);
    PrintedParses(known, f);
    assert DEFAULTS + f == f;
    StrippedClean(args);
    ReinsertedSettings(known, stripped, f);
    assert res.args == WithZarfFeatures(stripped, f);
    assert Outcome(known, res.args, Some(TextOf(f))) == Ok(Settled(f, Stripped(res.args)));
    StrippedReinsertion(stripped, f);
    if !ReinsertsBeforeEnd(stripped, f) {
      ReinsertedTwice(stripped, f);
    }
  }
}
