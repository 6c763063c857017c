/**
 * Loading and validating the desired flags: the normalisation of the path
 * patterns, the merge of the per-file flag lists, and `validateConfigs` with
 * its four checks in their fixed order (id present, ids unique,
 * `default_when_enabled` set, allocations refer to existing variants).
 *
 * Flags are the parsed JSON values themselves: the code casts them to
 * `FeatureFlag` without checking, and every field read below follows what
 * JavaScript does with whatever the file holds.
 */
module ConfigLoader {
  import opened Wrappers
  import opened Strings
  import opened Json
  import opened Errors

  // ---------------------------------------------------------------------------
  // Path patterns
  // ---------------------------------------------------------------------------

  /** `line.replace(/^!\s+/, '!')`: the white space right after a leading `!` is dropped. */
  function DropNegationGap(line: string): string
  {
    if |line| >= 2 && line[0] == '!' && IsWhiteSpace(line[1]) then "!" + TrimStart(line[1..]) else line
  }

  /** One pattern line: the negation gap is dropped first, then the line is trimmed. */
  function NormalizeLine(line: string): string
  {
    Trim(DropNegationGap(line))
  }

  /** The normalised lines that are not empty, in their original order. */
  function NonEmptyNormalized(lines: seq<string>): seq<string>
  {
    if lines == [] then []
    else if NormalizeLine(lines[0]) == "" then NonEmptyNormalized(lines[1..])
    else [NormalizeLine(lines[0])] + NonEmptyNormalized(lines[1..])
  }

  /** The pattern lines handed to the glob, before they are joined again. */
  function PatternLines(inputPattern: string): seq<string>
  {
    NonEmptyNormalized(Split(inputPattern, '\n'))
  }

  /** The pattern string handed to the glob. */
  function NormalizePatterns(inputPattern: string): string
  {
    Join(PatternLines(inputPattern), "\n")
  }

  lemma {:induction false} TrimEndAfter(c: char, x: string)
    requires !IsWhiteSpace(c)
    ensures TrimEnd([c] + x) == [c] + TrimEnd(x)
    decreases |x|
  {
    if |x| > 0 && IsWhiteSpace(x[|x| - 1]) {
      assert ([c] + x)[..|x|] == [c] + x[..|x| - 1];
      TrimEndAfter(c, x[..|x| - 1]);
    }
  }

  /** A line starting with `!` and white space becomes `!` followed by the trimmed rest. */
  lemma NegationGapDropped(line: string)
    requires |line| >= 2 && line[0] == '!' && IsWhiteSpace(line[1])
    ensures NormalizeLine(line) == "!" + Trim(line[1..])
  {
    var x := TrimStart(line[1..]);
    assert TrimStart("!" + x) == "!" + x;
    TrimEndAfter('!', x);
  }

  /** The gap is dropped before trimming, so an indented `! x` keeps its gap. */
  lemma IndentedNegationKeepsGap()
    ensures NormalizeLine(" ! x") == "! x"
  {
    assert DropNegationGap(" ! x") == " ! x";
    IndentSkipped();
    NegationKept();
  }

  /** The indent before `! x` is trimmed away. */
  lemma IndentSkipped()
    ensures TrimStart(" ! x") == "! x"
  {
    assert " ! x"[1..] == "! x" && IsWhiteSpace(' ');
    assert !IsWhiteSpace("! x"[0]);
  }

  /** `! x` ends in a letter, so trimming its end keeps it whole. */
  lemma NegationKept()
    ensures TrimEnd("! x") == "! x"
  {
    assert !IsWhiteSpace("! x"[2]);
  }

  /** Normalisation works line by line: it distributes over concatenation, so the order is kept. */
  lemma {:induction false} NonEmptyNormalizedAppend(a: seq<string>, b: seq<string>)
    ensures NonEmptyNormalized(a + b) == NonEmptyNormalized(a) + NonEmptyNormalized(b)
  {
    if a != [] {
      var ab := a + b;
      assert ab[0] == a[0] && ab[1..] == a[1..] + b;
      NonEmptyNormalizedAppend(a[1..], b);
      var ra, rb := NonEmptyNormalized(a[1..]), NonEmptyNormalized(b);
      NonEmptyNormalizedFirst(a);
      NonEmptyNormalizedFirst(ab);
      var kept := KeptLine(a[0]);
      Appended(kept, ra, rb);
    } else {
      assert a + b == b;
    }
  }

  /** The first line's contribution: its normalised form, or nothing when that is empty. */
  function KeptLine(line: string): seq<string>
  {
    if NormalizeLine(line) == "" then [] else [NormalizeLine(line)]
  }

  /** Normalising a non-empty list of lines: the first line's contribution, then the rest's. */
  lemma NonEmptyNormalizedFirst(lines: seq<string>)
    requires lines != []
    ensures NonEmptyNormalized(lines) == KeptLine(lines[0]) + NonEmptyNormalized(lines[1..])
  {
    var rest := NonEmptyNormalized(lines[1..]);
    if NormalizeLine(lines[0]) == "" {
      assert KeptLine(lines[0]) == [];
      assert [] + rest == rest;
    } else {
      assert KeptLine(lines[0]) == [NormalizeLine(lines[0])];
    }
  }

  /** Every line handed on is non-empty, trimmed and a single line. */
  lemma {:induction false} NonEmptyNormalizedShape(lines: seq<string>)
    requires forall l :: l in lines ==> '\n' !in l
    ensures forall l :: l in NonEmptyNormalized(lines) ==> l != "" && IsTrimmed(l) && '\n' !in l
  {
    if lines != [] {
      assert forall l :: l in lines[1..] ==> l in lines;
      NonEmptyNormalizedShape(lines[1..]);
      NormalizeLineShape(lines[0]);
    }
  }

  /** A normalised line is trimmed and stays a single line. */
  lemma NormalizeLineShape(line: string)
    requires '\n' !in line
    ensures IsTrimmed(NormalizeLine(line)) && '\n' !in NormalizeLine(line)
  {
    assert forall ch :: ch in DropNegationGap(line) ==> ch in line;
  }

  /** The glob reads back exactly the normalised lines from the joined pattern string. */
  lemma PatternsRoundTrip(inputPattern: string)
    requires PatternLines(inputPattern) != []
    ensures Split(NormalizePatterns(inputPattern), '\n') == PatternLines(inputPattern)
    ensures forall l :: l in PatternLines(inputPattern) ==> l != "" && IsTrimmed(l)
  {
    NonEmptyNormalizedShape(Split(inputPattern, '\n'));
    SplitOfJoin(PatternLines(inputPattern), '\n');
  }

  // ---------------------------------------------------------------------------
  // Loading and merging
  // ---------------------------------------------------------------------------

  /** One file the glob found: its path and what `JSON.parse` made of its text. */
  datatype ConfigFile = ConfigFile(path: string, content: Parse)

  const SchemaLocation := "https://github.com/Azure/app-configuration-deploy-feature-flags/tree/main/schema/FeatureManagement.v2.0.0.schema.json"

  const NoFilesMessage := "No configuration files found"

  /**
   * Parse and schema-check one file. `schemaErrors` stands for the compiled
   * schema validator: None when the document conforms, otherwise the
   * serialised list of its errors.
   */
  function CheckFile(file: ConfigFile, schemaErrors: Json -> Option<string>): (r: Result<Json, Error>)
    ensures file.content.Unparsable? ==> r == Err(ParseError("Failed to parse: " + file.path + "."))
    ensures r.Ok? <==> file.content.Parsed? && schemaErrors(file.content.json).None?
    ensures r.Ok? ==> r.value == file.content.json
    ensures r.Err? ==> r.error.ParseError? || r.error.ValidationError?
  {
    match file.content
    case Unparsable => Err(ParseError("Failed to parse: " + file.path + "."))
    case Parsed(doc) =>
      match schemaErrors(doc)
      case None => Ok(doc)
      case Some(details) =>
        Err(ValidationError("Schema validation failed for file: " + file.path
          + ". It should follow the schema defined in " + SchemaLocation
          + ". Error details: " + details))
  }

  /** All files checked; the first failing file, in file order, decides the error. */
  function CheckFiles(files: seq<ConfigFile>, schemaErrors: Json -> Option<string>): (r: Result<seq<Json>, Error>)
    ensures r.Ok? <==> forall i :: 0 <= i < |files| ==> CheckFile(files[i], schemaErrors).Ok?
    ensures r.Ok? ==> |r.value| == |files| && forall i :: 0 <= i < |files| ==> r.value[i] == files[i].content.json
    ensures r.Err? ==> r.error.ParseError? || r.error.ValidationError?
  {
    if files == [] then Ok([])
    else
      var doc :- CheckFile(files[0], schemaErrors);
      var rest :- CheckFiles(files[1..], schemaErrors);
      Ok([doc] + rest)
  }

  /**
   * The flags one document contributes to `configs.map(c => c?.feature_management?.feature_flags).flat()`:
   * the elements of its `feature_flags` array, or the value itself (`undefined`
   * included) when that is not an array.
   */
  function FlagsOf(config: Json): seq<Option<Json>>
  {
    match OptMember(Member(config, "feature_management"), "feature_flags")
    case Some(Arr(flags)) => seq(|flags|, i requires 0 <= i < |flags| => Some(flags[i]))
    case other => [other]
  }

  /** The merged flag list: each document's flags, in file order. */
  function MergeFlags(configs: seq<Json>): seq<Option<Json>>
  {
    if configs == [] then [] else FlagsOf(configs[0]) + MergeFlags(configs[1..])
  }

  /** Merging is concatenation in file order. */
  lemma {:induction false} MergeFlagsAppend(a: seq<Json>, b: seq<Json>)
    ensures MergeFlags(a + b) == MergeFlags(a) + MergeFlags(b)
  {
    if a != [] {
      assert (a + b)[1..] == a[1..] + b;
      MergeFlagsAppend(a[1..], b);
    } else {
      assert a + b == b;
    }
  }

  /** A document whose `feature_flags` is an array contributes exactly its elements. */
  lemma {:induction false} MergeFlagsOfArrays(configs: seq<Json>, flagLists: seq<seq<Json>>)
    requires |configs| == |flagLists|
    requires forall i :: 0 <= i < |configs| ==>
      OptMember(Member(configs[i], "feature_management"), "feature_flags") == Some(Arr(flagLists[i]))
    ensures |MergeFlags(configs)| == TotalLength(flagLists) == |Concat(flagLists)|
    ensures forall j :: 0 <= j < |MergeFlags(configs)| ==> MergeFlags(configs)[j] == Some(Concat(flagLists)[j])
  {
    if configs != [] {
      MergeFlagsOfArrays(configs[1..], flagLists[1..]);
      var head := FlagsOf(configs[0]);
      assert |head| == |flagLists[0]|;
      forall j | 0 <= j < |MergeFlags(configs)|
        ensures MergeFlags(configs)[j] == Some(Concat(flagLists)[j])
      {
        if j >= |head| {
          assert MergeFlags(configs)[j] == MergeFlags(configs[1..])[j - |head|];
          assert Concat(flagLists)[j] == Concat(flagLists[1..])[j - |head|];
        }
      }
    }
  }

  function TotalLength(lists: seq<seq<Json>>): nat
  {
    if lists == [] then 0 else |lists[0]| + TotalLength(lists[1..])
  }

  /** The lists one after another: `flat()` of an array of arrays. */
  function Concat(lists: seq<seq<Json>>): seq<Json>
  {
    if lists == [] then [] else lists[0] + Concat(lists[1..])
  }

  /**
   * `loadConfigFiles` once the I/O is factored out: `glob` stands for the
   * expansion of the normalised patterns into the files found, in order.
   */
  function LoadConfigFiles(inputPattern: string, glob: string -> seq<ConfigFile>,
                           schemaErrors: Json -> Option<string>): Result<seq<Option<Json>>, Error>
  {
    var files := glob(NormalizePatterns(inputPattern));
    if |files| == 0 then Err(ArgumentError(NoFilesMessage))
    else match CheckFiles(files, schemaErrors)
      case Err(e) => Err(e)
      case Ok(configs) => Ok(MergeFlags(configs))
  }

  /**
   * Loading fails with the no-files error exactly when the patterns match
   * nothing; otherwise it succeeds exactly when every file parses and passes
   * the schema, and then yields the merged flags of all files in order.
   */
  lemma LoadConfigFilesOutcome(inputPattern: string, glob: string -> seq<ConfigFile>,
                               schemaErrors: Json -> Option<string>, files: seq<ConfigFile>)
    requires files == glob(NormalizePatterns(inputPattern))
    ensures |files| == 0 <==> LoadConfigFiles(inputPattern, glob, schemaErrors) == Err(ArgumentError(NoFilesMessage))
    ensures LoadConfigFiles(inputPattern, glob, schemaErrors).Ok? <==>
      |files| > 0 && forall i :: 0 <= i < |files| ==> CheckFile(files[i], schemaErrors).Ok?
    ensures LoadConfigFiles(inputPattern, glob, schemaErrors).Ok? ==>
      LoadConfigFiles(inputPattern, glob, schemaErrors).value == MergeFlags(CheckFiles(files, schemaErrors).value)
  {
    if |files| > 0 {
      var checked := CheckFiles(files, schemaErrors);
      if checked.Err? {
        assert checked.error.ParseError? || checked.error.ValidationError?;
        assert LoadConfigFiles(inputPattern, glob, schemaErrors) == Err(checked.error);
      }
    }
  }

  // ---------------------------------------------------------------------------
  // validateConfigs: the id check
  // ---------------------------------------------------------------------------

  const IdMissingMessage := "Feature flag id is missing"

  /** `ff.id`. */
  function IdOf(f: Json): Option<Json>
  {
    Member(f, "id")
  }

  /** The property name `acc[ff.id]` uses: `String(ff.id)`. */
  function Key(f: Json): string
  {
    Interpolate(IdOf(f))
  }

  /** Every flag is a value other than `null`/`undefined` with a truthy `id`. */
  predicate IdsPresent(flags: seq<Option<Json>>)
  {
    forall i :: 0 <= i < |flags| ==> flags[i].Some? && !flags[i].value.Null? && Truthy(IdOf(flags[i].value))
  }

  /**
   * The id test inside the counting `reduce`, flag by flag: reading `ff.id`
   * throws on `null`/`undefined`, a falsy id throws the missing-id error.
   */
  function CheckIds(flags: seq<Option<Json>>): (r: Result<seq<Json>, Error>)
    ensures r.Ok? <==> IdsPresent(flags)
    ensures r.Ok? ==> |r.value| == |flags| && forall i :: 0 <= i < |flags| ==> flags[i] == Some(r.value[i])
    ensures r.Err? ==> r.error == TypeError || r.error == ValidationError(IdMissingMessage)
  {
    if flags == [] then Ok([])
    else if flags[0].None? || flags[0].value.Null? then Err(TypeError)
    else if !Truthy(IdOf(flags[0].value)) then Err(ValidationError(IdMissingMessage))
    else
      var rest :- CheckIds(flags[1..]);
      Ok([flags[0].value] + rest)
  }

  /** The id check stops at the first flag without an id; which error it throws depends on that flag alone. */
  lemma {:induction false} CheckIdsFirstFailure(flags: seq<Option<Json>>, i: nat)
    requires i < |flags| && IdsPresent(flags[..i]) && !IdsPresent(flags[..i + 1])
    ensures CheckIds(flags) == if flags[i].None? || flags[i].value.Null? then Err(TypeError)
                               else Err(ValidationError(IdMissingMessage))
  {
    if i > 0 {
      assert flags[1..][..i - 1] == flags[1..i];
      assert flags[1..][..i] == flags[1..i + 1];
      CheckIdsFirstFailure(flags[1..], i - 1);
      assert flags[0] == flags[..i][0];
    }
  }

  /** Checking a prefix and then one more flag is checking the longer prefix. */
  lemma {:induction false} CheckIdsSnoc(flags: seq<Option<Json>>, present: seq<Json>, f: Option<Json>)
    requires CheckIds(flags) == Ok(present)
    ensures CheckIds(flags + [f]) ==
      if f.None? || f.value.Null? then Err(TypeError)
      else if !Truthy(IdOf(f.value)) then Err(ValidationError(IdMissingMessage))
      else Ok(present + [f.value])
  {
    var g := flags + [f];
    if flags != [] {
      var rest := CheckIds(flags[1..]);
      assert rest.Ok? && present == [flags[0].value] + rest.value;
      CheckIdsSnoc(flags[1..], rest.value, f);
      assert g[0] == flags[0] && g[1..] == flags[1..] + [f];
      if f.Some? && !f.value.Null? && Truthy(IdOf(f.value)) {
        assert CheckIds(g) == Ok([flags[0].value] + (rest.value + [f.value]));
        assert [flags[0].value] + (rest.value + [f.value]) == present + [f.value];
      }
    } else {
      assert g == [f] && g[0] == f && g[1..] == [];
      assert present == [];
      if f.Some? && !f.value.Null? && Truthy(IdOf(f.value)) {
        assert CheckIds(g) == Ok([f.value] + []);
        assert [f.value] + [] == present + [f.value];
      }
    }
  }

  // ---------------------------------------------------------------------------
  // validateConfigs: duplicates
  // ---------------------------------------------------------------------------

  /** The property names the flags are counted under, in order. */
  function Keys(fs: seq<Json>): (r: seq<string>)
    ensures |r| == |fs| && forall i :: 0 <= i < |fs| ==> r[i] == Key(fs[i])
  {
    if fs == [] then [] else [Key(fs[0])] + Keys(fs[1..])
  }

  /** No two flags are counted under the same name. */
  predicate IdsUnique(fs: seq<Json>)
  {
    forall i, j :: 0 <= i < j < |fs| ==> Key(fs[i]) != Key(fs[j])
  }

  /** The flags of `fs` whose name occurs more than once in `keys`, in order. */
  function DuplicatesIn(fs: seq<Json>, keys: seq<string>): seq<Json>
  {
    if fs == [] then []
    else if multiset(keys)[Key(fs[0])] > 1 then [fs[0]] + DuplicatesIn(fs[1..], keys)
    else DuplicatesIn(fs[1..], keys)
  }

  /** `mergedFlags.filter(ff => count[ff.id] > 1)` with the counts taken exactly. */
  function Duplicates(fs: seq<Json>): seq<Json>
  {
    DuplicatesIn(fs, Keys(fs))
  }

  /** The ArgumentError message: every duplicated flag's id, each occurrence once, joined by ", ". */
  function DuplicateMessage(duplicates: seq<Json>): string
  {
    "Feature flag is defined multiple times which is not allowed: "
      + Join(seq(|duplicates|, i requires 0 <= i < |duplicates| => ElementString(IdOf(duplicates[i]))), ", ")
  }

  /**
   * The members every plain object inherits from `Object.prototype`. Counting
   * in a `{}` reads these through the prototype chain.
   */
  const ObjectPrototypeMembers: set<string> := {
    "constructor", "__defineGetter__", "__defineSetter__", "hasOwnProperty",
    "__lookupGetter__", "__lookupSetter__", "isPrototypeOf", "propertyIsEnumerable",
    "toString", "valueOf", "__proto__", "toLocaleString"}

  /**
   * The duplicate filter as the source computes it. For a name inherited from
   * `Object.prototype`, `(acc[id] || 0) + 1` starts from the inherited function
   * (or, for `__proto__`, from the prototype object, whose setter ignores the
   * store), so the stored count is a string or an object and `count > 1`
   * compares NaN: such flags are never listed, however often they occur.
   */
  function DuplicatesAsWritten(fs: seq<Json>): seq<Json>
  {
    DuplicatesInAsWritten(fs, Keys(fs))
  }

  function DuplicatesInAsWritten(fs: seq<Json>, keys: seq<string>): seq<Json>
  {
    if fs == [] then []
    else if multiset(keys)[Key(fs[0])] > 1 && Key(fs[0]) !in ObjectPrototypeMembers
    then [fs[0]] + DuplicatesInAsWritten(fs[1..], keys)
    else DuplicatesInAsWritten(fs[1..], keys)
  }

  /** Two flags with the id "constructor" pass the source's duplicate check; the corrected check reports both. */
  lemma PrototypeIdsEscapeDuplicateCheck()
    ensures var f := Obj(map["id" := Str("constructor")]);
      && !IdsUnique([f, f])
      && DuplicatesAsWritten([f, f]) == []
      && Duplicates([f, f]) == [f, f]
  {
    var f := Obj(map["id" := Str("constructor")]);
    assert Key(f) == "constructor";
    assert Keys([f, f]) == ["constructor", "constructor"];
    assert multiset(Keys([f, f]))["constructor"] == 2;
  }

  lemma {:induction false} DuplicatesInEmpty(fs: seq<Json>, keys: seq<string>)
    ensures DuplicatesIn(fs, keys) == [] <==> forall i :: 0 <= i < |fs| ==> multiset(keys)[Key(fs[i])] <= 1
  {
    if fs != [] {
      DuplicatesInEmpty(fs[1..], keys);
      assert forall i :: 1 <= i < |fs| ==> fs[i] == fs[1..][i - 1];
    }
  }

  lemma {:induction false} DistinctCounts(keys: seq<string>)
    requires forall i, j :: 0 <= i < j < |keys| ==> keys[i] != keys[j]
    ensures forall k :: multiset(keys)[k] <= 1
  {
    if keys != [] {
      DistinctCounts(keys[1..]);
      assert keys == [keys[0]] + keys[1..];
      assert keys[0] !in keys[1..];
    }
  }

  lemma TwoOccurrences(keys: seq<string>, i: nat, j: nat)
    requires i < j < |keys| && keys[i] == keys[j]
    ensures multiset(keys)[keys[i]] >= 2
  {
    assert keys == keys[..j] + keys[j..];
    assert keys[i] in keys[..j];
    assert keys[j..] == [keys[j]] + keys[j + 1..];
  }

  /** The duplicate check fires exactly when two flags share an id. */
  lemma DuplicatesIffNotUnique(fs: seq<Json>)
    ensures Duplicates(fs) == [] <==> IdsUnique(fs)
  {
    var keys := Keys(fs);
    DuplicatesInEmpty(fs, keys);
    if IdsUnique(fs) {
      DistinctCounts(keys);
    } else {
      var i, j :| 0 <= i < j < |fs| && Key(fs[i]) == Key(fs[j]);
      TwoOccurrences(keys, i, j);
    }
  }

  /** Filtering by a fixed count table keeps, for each name, all of its occurrences or none. */
  lemma {:induction false} DuplicatesInCounts(fs: seq<Json>, keys: seq<string>, k: string)
    ensures multiset(Keys(DuplicatesIn(fs, keys)))[k] ==
      if multiset(keys)[k] > 1 then multiset(Keys(fs))[k] else 0
  {
    if fs != [] {
      DuplicatesInCounts(fs[1..], keys, k);
      assert Keys(fs) == [Key(fs[0])] + Keys(fs[1..]);
      if multiset(keys)[Key(fs[0])] > 1 {
        assert Keys(DuplicatesIn(fs, keys)) == [Key(fs[0])] + Keys(DuplicatesIn(fs[1..], keys));
      }
    }
  }

  /**
   * The duplicate message lists each duplicated id exactly as often as it
   * occurs, and ids that occur once not at all.
   */
  lemma DuplicatesListEveryOccurrence(fs: seq<Json>, k: string)
    ensures multiset(Keys(Duplicates(fs)))[k] == if multiset(Keys(fs))[k] > 1 then multiset(Keys(fs))[k] else 0
  {
    DuplicatesInCounts(fs, Keys(fs), k);
  }

  /** The duplicates keep the order of the merged list: the filter distributes over concatenation. */
  lemma {:induction false} DuplicatesInAppend(a: seq<Json>, b: seq<Json>, keys: seq<string>)
    ensures DuplicatesIn(a + b, keys) == DuplicatesIn(a, keys) + DuplicatesIn(b, keys)
  {
    if a != [] {
      var ab := a + b;
      assert ab[0] == a[0] && ab[1..] == a[1..] + b;
      DuplicatesInAppend(a[1..], b, keys);
      var rest, later := DuplicatesIn(a[1..], keys), DuplicatesIn(b, keys);
      if multiset(keys)[Key(a[0])] > 1 {
        assert DuplicatesIn(a, keys) == [a[0]] + rest;
        assert DuplicatesIn(ab, keys) == [a[0]] + (rest + later);
        assert [a[0]] + (rest + later) == ([a[0]] + rest) + later;
      } else {
        assert DuplicatesIn(a, keys) == rest;
        assert DuplicatesIn(ab, keys) == rest + later;
      }
    } else {
      assert a + b == b;
      assert DuplicatesIn(a, keys) == [];
    }
  }

  // ---------------------------------------------------------------------------
  // validateConfigs: default_when_enabled
  // ---------------------------------------------------------------------------

  /** `f.allocation?.default_when_enabled`. */
  function DefaultWhenEnabled(f: Json): Option<Json>
  {
    OptMember(Member(f, "allocation"), "default_when_enabled")
  }

  predicate HasDefault(f: Json)
  {
    Truthy(DefaultWhenEnabled(f))
  }

  /** A flag without any allocation has no default either, so it is rejected. */
  lemma NoAllocationNoDefault(f: Json)
    requires Member(f, "allocation").None?
    ensures !HasDefault(f)
  {
  }

  /** The per-flag entry of the default check: a message, or `undefined` for a passing flag. */
  function DefaultEntry(f: Json): (r: Option<string>)
    ensures r.Some? <==> !HasDefault(f)
  {
    if HasDefault(f) then None
    else Some("Feature flag " + Interpolate(IdOf(f)) + " is missing default_when_enabled")
  }

  /** `entries.map(e => e.message).join(', ')`: a passing flag contributes an empty entry. */
  function RenderEntries(entries: seq<Option<string>>): string
  {
    Join(seq(|entries|, i requires 0 <= i < |entries| => if entries[i].Some? then entries[i].value else ""), ", ")
  }

  /** A passing flag before a failing one leaves a leading ", " in the message. */
  lemma PassingEntryLeavesSeparator(m: string)
    ensures RenderEntries([None, Some(m)]) == ", " + m
  {
    var entries: seq<Option<string>> := [None, Some(m)];
    var parts := seq(2, i requires 0 <= i < 2 => if entries[i].Some? then entries[i].value else "");
    assert parts == ["", m];
    assert parts[1..] == [m];
    assert Join(parts, ", ") == "" + ", " + m;
  }

  function DefaultsMessage(fs: seq<Json>): string
  {
    "Default_when_enabled is required: "
      + RenderEntries(seq(|fs|, i requires 0 <= i < |fs| => DefaultEntry(fs[i])))
  }

  // ---------------------------------------------------------------------------
  // validateConfigs: allocation references
  // ---------------------------------------------------------------------------

  /** `list` is absent, `null`, or an array without `null` elements: what `list?.map(x => x.name)` accepts. */
  predicate ListShaped(list: Option<Json>)
  {
    list.None? || list.value.Null?
    || (list.value.Arr? && forall i :: 0 <= i < |list.value.items| ==> !list.value.items[i].Null?)
  }

  /**
   * `list?.map(x => x.name) || []`: `[]` when the list is absent or `null`;
   * TypeError when it is not an array (`map` is not a function) or holds a
   * `null` (`x.name` on null).
   */
  function MapMember(list: Option<Json>, name: string): (r: Result<seq<Option<Json>>, Error>)
    ensures r.Ok? <==> ListShaped(list)
    ensures r.Err? ==> r.error == TypeError
  {
    if list.None? || list.value.Null? then Ok([])
    else if !list.value.Arr? then Err(TypeError)
    else if exists i | 0 <= i < |list.value.items| :: list.value.items[i].Null? then Err(TypeError)
    else
      var items := list.value.items;
      Ok(seq(|items|, i requires 0 <= i < |items| => Member(items[i], name)))
  }

  /** `f.variants?.map(v => v.name) || []`. */
  function VariantNames(f: Json): Result<seq<Option<Json>>, Error>
  {
    MapMember(Member(f, "variants"), "name")
  }

  /**
   * The variant names the allocation refers to, in the order the source
   * collects them: the percentile variants, then `default_when_enabled`, then
   * `default_when_disabled`, each default only when truthy.
   */
  function AllocationRefs(f: Json): Result<seq<Option<Json>>, Error>
  {
    var allocation := Member(f, "allocation");
    var percentile :- MapMember(OptMember(allocation, "percentile"), "variant");
    var whenEnabled := OptMember(allocation, "default_when_enabled");
    var whenDisabled := OptMember(allocation, "default_when_disabled");
    Ok(percentile + (if Truthy(whenEnabled) then [whenEnabled] else [])
                  + (if Truthy(whenDisabled) then [whenDisabled] else []))
  }

  /** `names.includes(v)`. */
  predicate Includes(names: seq<Option<Json>>, v: Option<Json>)
  {
    exists i :: 0 <= i < |names| && StrictEquals(names[i], v)
  }

  /** `refs.filter(v => !names.includes(v))`: order and repeats kept. */
  function InvalidRefs(names: seq<Option<Json>>, refs: seq<Option<Json>>): (r: seq<Option<Json>>)
    ensures forall v :: v in r ==> v in refs && !Includes(names, v)
    ensures forall v :: v in refs && !Includes(names, v) ==> v in r
    ensures r == [] <==> forall v :: v in refs ==> Includes(names, v)
    ensures |r| <= |refs|
  {
    if refs == [] then []
    else if Includes(names, refs[0]) then InvalidRefs(names, refs[1..])
    else [refs[0]] + InvalidRefs(names, refs[1..])
  }

  /** The filter keeps the references' order and repeats: it distributes over concatenation. */
  lemma {:induction false} InvalidRefsAppend(names: seq<Option<Json>>, a: seq<Option<Json>>, b: seq<Option<Json>>)
    ensures InvalidRefs(names, a + b) == InvalidRefs(names, a) + InvalidRefs(names, b)
  {
    if a == [] {
      assert a + b == b;
    } else {
      assert (a + b)[0] == a[0] && (a + b)[1..] == a[1..] + b;
      InvalidRefsAppend(names, a[1..], b);
      var ra, rb := InvalidRefs(names, a[1..]), InvalidRefs(names, b);
      if !Includes(names, a[0]) {
        Appended([a[0]], ra, rb);
      }
    }
  }

  /** Every allocation reference of the flag names one of its variants (and both lists are readable). */
  predicate ReferencesResolve(f: Json)
  {
    && VariantNames(f).Ok? && AllocationRefs(f).Ok?
    && forall v :: v in AllocationRefs(f).value ==> Includes(VariantNames(f).value, v)
  }

  /** The per-flag entry of the allocation check. */
  function AllocationEntry(f: Json): (r: Result<Option<string>, Error>)
    ensures r.Ok? <==> VariantNames(f).Ok? && AllocationRefs(f).Ok?
    ensures r.Err? ==> r.error == TypeError
    ensures r == Ok(None) <==> ReferencesResolve(f)
    ensures r.Ok? && r.value.Some? ==>
      r.value.value == "Feature flag " + Interpolate(IdOf(f)) + " has allocation to non-existing variants: "
                       + ArrayString(InvalidRefs(VariantNames(f).value, AllocationRefs(f).value))
  {
    var names :- VariantNames(f);
    var refs :- AllocationRefs(f);
    var invalid := InvalidRefs(names, refs);
    if |invalid| > 0 then
      Ok(Some("Feature flag " + Interpolate(IdOf(f)) + " has allocation to non-existing variants: " + ArrayString(invalid)))
    else Ok(None)
  }

  function Named(key: string, name: string): Json
  {
    Obj(map[key := Str(name)])
  }

  /** A flag that splits its traffic over two variants it does not declare. */
  const MisallocatedFlag := Obj(map[
    "id" := Str("NewFlagv2"),
    "variants" := Arr([Named("name", "gpt-4o"), Named("name", "gpt-35")]),
    "allocation" := Obj(map[
      "percentile" := Arr([Named("variant", "gpt-4o123"), Named("variant", "gpt-35123")]),
      "default_when_enabled" := Str("gpt-4o")])])

  lemma MisallocatedFlagShape()
    ensures IdOf(MisallocatedFlag) == Some(Str("NewFlagv2"))
    ensures VariantNames(MisallocatedFlag) == Ok([Some(Str("gpt-4o")), Some(Str("gpt-35"))])
    ensures AllocationRefs(MisallocatedFlag) == Ok([Some(Str("gpt-4o123")), Some(Str("gpt-35123")), Some(Str("gpt-4o"))])
  {
    var variants := [Named("name", "gpt-4o"), Named("name", "gpt-35")];
    assert Member(MisallocatedFlag, "variants") == Some(Arr(variants));
    NamesOfTwo(variants, "name", "gpt-4o", "gpt-35");
    var percentile := [Named("variant", "gpt-4o123"), Named("variant", "gpt-35123")];
    var allocation := Member(MisallocatedFlag, "allocation");
    assert OptMember(allocation, "percentile") == Some(Arr(percentile));
    NamesOfTwo(percentile, "variant", "gpt-4o123", "gpt-35123");
    assert OptMember(allocation, "default_when_enabled") == Some(Str("gpt-4o"));
    assert OptMember(allocation, "default_when_disabled") == None;
    assert [Some(Str("gpt-4o123")), Some(Str("gpt-35123"))] + [Some(Str("gpt-4o"))] + []
        == [Some(Str("gpt-4o123")), Some(Str("gpt-35123")), Some(Str("gpt-4o"))];
  }

  lemma NamesOfTwo(items: seq<Json>, key: string, a: string, b: string)
    requires items == [Named(key, a), Named(key, b)]
    ensures MapMember(Some(Arr(items)), key) == Ok([Some(Str(a)), Some(Str(b))])
  {
    assert forall i :: 0 <= i < |items| ==> !items[i].Null?;
    var mapped := MapMember(Some(Arr(items)), key).value;
    assert mapped[0] == Some(Str(a)) && mapped[1] == Some(Str(b));
    assert mapped == [mapped[0], mapped[1]];
  }

  lemma MisallocatedFlagInvalidRefs()
    ensures InvalidRefs([Some(Str("gpt-4o")), Some(Str("gpt-35"))],
                        [Some(Str("gpt-4o123")), Some(Str("gpt-35123")), Some(Str("gpt-4o"))])
         == [Some(Str("gpt-4o123")), Some(Str("gpt-35123"))]
  {
    var names := [Some(Str("gpt-4o")), Some(Str("gpt-35"))];
    var refs := [Some(Str("gpt-4o123")), Some(Str("gpt-35123")), Some(Str("gpt-4o"))];
    assert StrictEquals(names[0], refs[2]);
    assert !Includes(names, refs[0]) && !Includes(names, refs[1]);
    assert InvalidRefs(names, refs[2..]) == [] && refs[2..] == [refs[2]];
    assert refs[1..][1..] == refs[2..];
  }

  lemma MisallocatedFlagRendering()
    ensures ArrayString([Some(Str("gpt-4o123")), Some(Str("gpt-35123"))]) == "gpt-4o123" + "," + "gpt-35123"
  {
    var xs := [Some(Str("gpt-4o123")), Some(Str("gpt-35123"))];
    var rendered := seq(2, i requires 0 <= i < 2 => ElementString(xs[i]));
    assert rendered == ["gpt-4o123", "gpt-35123"] && rendered[1..] == ["gpt-35123"];
    assert Join(rendered, ",") == "gpt-4o123" + "," + Join(["gpt-35123"], ",");
  }

  /**
   * The flag above: both undeclared variants are reported, in percentile
   * order, and its declared default is not (the rendering of the list is
   * `MisallocatedFlagRendering`).
   */
  lemma AllocationEntryListsMissingVariants()
    ensures AllocationEntry(MisallocatedFlag)
         == Ok(Some("Feature flag " + "NewFlagv2" + " has allocation to non-existing variants: "
                    + ArrayString([Some(Str("gpt-4o123")), Some(Str("gpt-35123"))])))
  {
    MisallocatedFlagShape();
    MisallocatedFlagInvalidRefs();
  }

  /** `mergedFlags.map(...)` for the allocation check; a TypeError on any flag ends it. */
  function AllocationEntries(fs: seq<Json>): (r: Result<seq<Option<string>>, Error>)
    ensures r.Ok? <==> forall i :: 0 <= i < |fs| ==> AllocationEntry(fs[i]).Ok?
    ensures r.Ok? ==> |r.value| == |fs| && forall i :: 0 <= i < |fs| ==> r.value[i] == AllocationEntry(fs[i]).value
  {
    if fs == [] then Ok([])
    else
      var entry :- AllocationEntry(fs[0]);
      var rest :- AllocationEntries(fs[1..]);
      Ok([entry] + rest)
  }

  // ---------------------------------------------------------------------------
  // validateConfigs
  // ---------------------------------------------------------------------------

  /** What `validateConfigs` does: the four checks in order, each run only when the earlier ones passed. */
  function Validate(flags: seq<Option<Json>>): Result<(), Error>
  {
    var fs :- CheckIds(flags);
    ValidatePresent(fs)
  }

  /** The checks after the id check, on the flags themselves. */
  function ValidatePresent(fs: seq<Json>): Result<(), Error>
  {
    var duplicates := Duplicates(fs);
    if |duplicates| > 0 then Err(ArgumentError(DuplicateMessage(duplicates)))
    else if SomeLacksDefault(fs) then Err(ValidationError(DefaultsMessage(fs)))
    else
      var entries :- AllocationEntries(fs);
      if SomeReported(entries) then Err(ValidationError("Allocation error: " + RenderEntries(entries)))
      else Ok(())
  }

  /** `!mergedFlags.every(hasDefault)`. */
  predicate SomeLacksDefault(fs: seq<Json>)
  {
    exists i | 0 <= i < |fs| :: !HasDefault(fs[i])
  }

  /** Some flag's allocation check reported a message. */
  predicate SomeReported(entries: seq<Option<string>>)
  {
    exists i | 0 <= i < |entries| :: entries[i].Some?
  }

  /** The flags themselves, once every one of them is present. */
  function Present(flags: seq<Option<Json>>): (fs: seq<Json>)
    requires IdsPresent(flags)
    ensures |fs| == |flags| && forall i :: 0 <= i < |flags| ==> flags[i] == Some(fs[i])
  {
    seq(|flags|, i requires 0 <= i < |flags| => flags[i].value)
  }

  lemma CheckIdsPresent(flags: seq<Option<Json>>)
    requires IdsPresent(flags)
    ensures CheckIds(flags) == Ok(Present(flags))
  {
    var r := CheckIds(flags).value;
    assert forall i :: 0 <= i < |flags| ==> r[i] == flags[i].value;
    assert r == Present(flags);
  }

  /**
   * `validateConfigs` returns normally iff every flag has an id, the ids are
   * unique, every flag has a `default_when_enabled`, and every allocation
   * refers to existing variants.
   */
  lemma ValidateSucceedsIff(flags: seq<Option<Json>>)
    ensures Validate(flags).Ok? <==>
      && IdsPresent(flags)
      && IdsUnique(Present(flags))
      && (forall f :: f in Present(flags) ==> HasDefault(f))
      && (forall f :: f in Present(flags) ==> ReferencesResolve(f))
  {
    if IdsPresent(flags) {
      CheckIdsPresent(flags);
      ValidatePresentIff(Present(flags));
    }
  }

  lemma ValidatePresentIff(fs: seq<Json>)
    ensures ValidatePresent(fs).Ok? <==>
      && IdsUnique(fs)
      && (forall f :: f in fs ==> HasDefault(f))
      && (forall f :: f in fs ==> ReferencesResolve(f))
  {
    ValidatePresentOk(fs);
    DuplicatesIffNotUnique(fs);
    DefaultsPresentIff(fs);
    AllocationsResolveIff(fs);
    if AllocationEntries(fs).Ok? {
      NothingReportedIff(AllocationEntries(fs).value);
    }
  }

  /** No entry reports a message exactly when every entry is empty. */
  lemma NothingReportedIff(entries: seq<Option<string>>)
    ensures !SomeReported(entries) <==> forall i :: 0 <= i < |entries| ==> entries[i].None?
  {
  }

  /** The three checks of `validateConfigs`, in order, each finding nothing. */
  lemma ValidatePresentOk(fs: seq<Json>)
    ensures ValidatePresent(fs).Ok? <==>
      && |Duplicates(fs)| == 0
      && !SomeLacksDefault(fs)
      && AllocationEntries(fs).Ok?
      && !SomeReported(AllocationEntries(fs).value)
  {
  }

  /** No flag lacks a default exactly when every flag has one. */
  lemma DefaultsPresentIff(fs: seq<Json>)
    ensures !SomeLacksDefault(fs) <==> forall f :: f in fs ==> HasDefault(f)
  {
    if !forall f :: f in fs ==> HasDefault(f) {
      var f :| f in fs && !HasDefault(f);
      var i :| 0 <= i < |fs| && fs[i] == f;
    }
  }

  /** The allocation check finds nothing to report iff every flag's references resolve. */
  lemma AllocationsResolveIff(fs: seq<Json>)
    ensures (&& AllocationEntries(fs).Ok?
             && forall i :: 0 <= i < |AllocationEntries(fs).value| ==> AllocationEntries(fs).value[i].None?)
            <==> forall f :: f in fs ==> ReferencesResolve(f)
  {
    if forall f :: f in fs ==> ReferencesResolve(f) {
      ResolvedEntriesEmpty(fs);
    } else {
      var i :| 0 <= i < |fs| && !ReferencesResolve(fs[i]);
      UnresolvedEntryReported(fs, i);
    }
  }

  /** When every flag's references resolve, every entry of the allocation check is empty. */
  lemma ResolvedEntriesEmpty(fs: seq<Json>)
    requires forall f :: f in fs ==> ReferencesResolve(f)
    ensures AllocationEntries(fs).Ok?
    ensures forall i :: 0 <= i < |AllocationEntries(fs).value| ==> AllocationEntries(fs).value[i].None?
  {
    forall i | 0 <= i < |fs|
      ensures AllocationEntry(fs[i]) == Ok(None)
    {
      assert fs[i] in fs;
    }
  }

  /** A flag whose references do not resolve fails the check or leaves an entry. */
  lemma UnresolvedEntryReported(fs: seq<Json>, i: nat)
    requires i < |fs| && !ReferencesResolve(fs[i])
    ensures AllocationEntries(fs).Ok? ==> AllocationEntries(fs).value[i].Some?
  {
    if AllocationEntries(fs).Ok? {
      assert AllocationEntries(fs).value[i] == AllocationEntry(fs[i]).value;
    }
  }

  /** With ids present and shared, the run ends with the duplicate error listing them. */
  lemma DuplicateIdsReported(flags: seq<Option<Json>>)
    requires IdsPresent(flags) && !IdsUnique(Present(flags))
    ensures Validate(flags) == Err(ArgumentError(DuplicateMessage(Duplicates(Present(flags)))))
  {
    CheckIdsPresent(flags);
    DuplicatesIffNotUnique(Present(flags));
  }

  /** With ids present and unique, a flag without `default_when_enabled` ends the run with the aggregated message. */
  lemma MissingDefaultReported(flags: seq<Option<Json>>, i: nat)
    requires IdsPresent(flags) && IdsUnique(Present(flags))
    requires i < |flags| && !HasDefault(Present(flags)[i])
    ensures Validate(flags) == Err(ValidationError(DefaultsMessage(Present(flags))))
  {
    CheckIdsPresent(flags);
    DuplicatesIffNotUnique(Present(flags));
  }

  /** `counts` holds, for every name in `keys`, how often it occurs there, and nothing else. */
  ghost predicate CountsOf(counts: map<string, nat>, keys: seq<string>)
  {
    && (forall k :: k in counts <==> k in multiset(keys))
    && (forall k :: k in counts ==> counts[k] == multiset(keys)[k])
  }

  /** `acc[id] = (acc[id] || 0) + 1`. */
  function Bump(counts: map<string, nat>, key: string): map<string, nat>
  {
    counts[key := (if key in counts then counts[key] else 0) + 1]
  }

  lemma CountsStep(counts: map<string, nat>, keys: seq<string>, key: string)
    requires CountsOf(counts, keys)
    ensures CountsOf(Bump(counts, key), keys + [key])
  {
    assert multiset(keys + [key]) == multiset(keys) + multiset{key};
  }

  /** The error the id check throws for a flag without an id. */
  function IdError(ff: Option<Json>): Error
  {
    if ff.None? || ff.value.Null? then TypeError else ValidationError(IdMissingMessage)
  }

  lemma IdFailure(flags: seq<Option<Json>>, i: nat, fs: seq<Json>)
    requires i < |flags| && CheckIds(flags[..i]) == Ok(fs)
    requires flags[i].None? || flags[i].value.Null? || !Truthy(IdOf(flags[i].value))
    ensures CheckIds(flags) == Err(IdError(flags[i]))
  {
    assert IdsPresent(flags[..i]);
    assert flags[..i + 1][i] == flags[i];
    assert !IdsPresent(flags[..i + 1]);
    CheckIdsFirstFailure(flags, i);
  }

  lemma IdCounted(flags: seq<Option<Json>>, i: nat, fs: seq<Json>, counts: map<string, nat>)
    requires i < |flags| && CheckIds(flags[..i]) == Ok(fs) && CountsOf(counts, Keys(fs))
    requires flags[i].Some? && !flags[i].value.Null? && Truthy(IdOf(flags[i].value))
    ensures CheckIds(flags[..i + 1]) == Ok(fs + [flags[i].value])
    ensures CountsOf(Bump(counts, Key(flags[i].value)), Keys(fs + [flags[i].value]))
  {
    CheckIdsSnoc(flags[..i], fs, flags[i]);
    assert flags[..i + 1] == flags[..i] + [flags[i]];
    var key := Key(flags[i].value);
    assert Keys(fs + [flags[i].value]) == Keys(fs) + [key];
    CountsStep(counts, Keys(fs), key);
  }

  /**
   * The counting `reduce` of `validateConfigs`: a loop over the flags that
   * checks each id and counts it. The table is a map, so no inherited names
   * interfere with the counts.
   */
  method CountIds(flags: seq<Option<Json>>) returns (r: Result<map<string, nat>, Error>)
    ensures r.Err? <==> CheckIds(flags).Err?
    ensures r.Err? ==> CheckIds(flags) == Err(r.error)
    ensures r.Ok? ==> CountsOf(r.value, Keys(CheckIds(flags).value))
  {
    var counts: map<string, nat> := map[];
    ghost var fs: seq<Json> := [];
    var i := 0;
    while i < |flags|
      invariant 0 <= i <= |flags|
      invariant CheckIds(flags[..i]) == Ok(fs)
      invariant CountsOf(counts, Keys(fs))
    {
      var ff := flags[i];
      if ff.None? || ff.value.Null? || !Truthy(IdOf(ff.value)) {
        IdFailure(flags, i, fs);
        return Err(IdError(ff));
      }
      IdCounted(flags, i, fs, counts);
      counts := Bump(counts, Key(ff.value));
      fs := fs + [ff.value];
      i := i + 1;
    }
    assert flags[..i] == flags;
    return Ok(counts);
  }

  /** `validateConfigs`: the count loop, then the duplicate, default and allocation checks. */
  method ValidateConfigs(flags: seq<Option<Json>>) returns (r: Result<(), Error>)
    ensures r == Validate(flags)
  {
    var counted := CountIds(flags);
    if counted.Err? {
      return Err(counted.error);
    }
    var fs := Present(flags);
    CheckIdsPresent(flags);
    assert Validate(flags) == ValidatePresent(fs);
    var duplicates := CountedDuplicates(fs, counted.value);
    CountedDuplicatesExact(fs, counted.value, Keys(fs));
    if |duplicates| > 0 {
      return Err(ArgumentError(DuplicateMessage(duplicates)));
    }
    if exists j | 0 <= j < |fs| :: !HasDefault(fs[j]) {
      return Err(ValidationError(DefaultsMessage(fs)));
    }
    var entries := AllocationEntries(fs);
    if entries.Err? {
      return Err(entries.error);
    }
    if exists j | 0 <= j < |entries.value| :: entries.value[j].Some? {
      return Err(ValidationError("Allocation error: " + RenderEntries(entries.value)));
    }
    return Ok(());
  }

  /** `mergedFlags.filter(ff => counts[ff.id] > 1)` against a filled count table. */
  function CountedDuplicates(fs: seq<Json>, counts: map<string, nat>): seq<Json>
  {
    if fs == [] then []
    else if Key(fs[0]) in counts && counts[Key(fs[0])] > 1 then [fs[0]] + CountedDuplicates(fs[1..], counts)
    else CountedDuplicates(fs[1..], counts)
  }

  lemma {:induction false} CountedDuplicatesExact(fs: seq<Json>, counts: map<string, nat>, keys: seq<string>)
    requires CountsOf(counts, keys)
    ensures CountedDuplicates(fs, counts) == DuplicatesIn(fs, keys)
  {
    if fs != [] {
      CountedDuplicatesExact(fs[1..], counts, keys);
    }
  }
}
