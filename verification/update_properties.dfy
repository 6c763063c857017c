/**
 * What one run of `updateFeatureFlags` achieves when it succeeds: every
 * desired flag ends up stored under its id with a value deep-equal to it,
 * other labels are untouched, and with strict sync nothing but the desired
 * flags is left under the label. A second run over the result writes
 * nothing. The only errors left once the data is well formed are the
 * store's ApiErrors.
 */
module UpdateProperties {
  import opened Wrappers
  import opened Json
  import opened Errors
  import opened Utils
  import opened ConfigLoader
  import opened FeatureFlagClient
  import opened FeatureFlagUpdate

  /** What the records hold for `k`: nothing (None), or the record's value. */
  function KeyState(records: Records, k: StoreKey): Option<Option<Parse>>
  {
    if k in records then Some(records[k]) else None
  }

  /** Every record under the label holds a flag whose `id` is the string its key names. */
  ghost predicate WellKeyed(records: Records, labelName: string)
  {
    forall k :: k in records && k.labelName == labelName ==>
      records[k].Some? && records[k].value.Parsed? && IdOf(records[k].value.json) == Some(Str(k.id))
  }

  /** Every desired flag has a string `id`. */
  predicate StringIds(config: seq<Json>)
  {
    forall i :: 0 <= i < |config| ==> IdOf(config[i]).Some? && IdOf(config[i]).value.Str?
  }

  // ---------------------------------------------------------------------------
  // Requests applied in turn
  // ---------------------------------------------------------------------------

  /** Requests that do not name a key leave its record as it was. */
  lemma {:induction false} ApplyAllUntouched(records: Records, reqs: seq<Request>, respond: Request -> Response, k: StoreKey)
    requires forall i :: 0 <= i < |reqs| ==> KeyOf(reqs[i]) != Some(k)
    ensures KeyState(ApplyAll(records, reqs, respond), k) == KeyState(records, k)
    decreases |reqs|
  {
    if reqs != [] {
      ApplyAllUntouched(records, reqs[..|reqs| - 1], respond, k);
    }
  }

  /**
   * When every request naming a key is the same request `q`, the key ends as
   * `q` alone leaves it: repeating a put or a delete changes nothing more.
   */
  lemma {:induction false} ApplyAllSettledBy(records: Records, reqs: seq<Request>, respond: Request -> Response,
                                              k: StoreKey, q: Request)
    requires KeyOf(q) == Some(k) && q in reqs
    requires forall i :: 0 <= i < |reqs| && KeyOf(reqs[i]) == Some(k) ==> reqs[i] == q
    ensures KeyState(ApplyAll(records, reqs, respond), k) == KeyState(Apply(records, q, respond(q)), k)
    decreases |reqs|
  {
    var init, last := reqs[..|reqs| - 1], reqs[|reqs| - 1];
    assert reqs == init + [last];
    var before := ApplyAll(records, init, respond);
    if q in init {
      ApplyAllSettledBy(records, init, respond, k, q);
    } else {
      ApplyAllUntouched(records, init, respond, k);
    }
    if last == q && !Failed(respond(q)) {
      assert KeyState(Apply(before, q, respond(q)), k) == KeyState(Apply(records, q, respond(q)), k);
    }
  }

  // ---------------------------------------------------------------------------
  // Facts about the listing and the comparison
  // ---------------------------------------------------------------------------

  /** A listing of well-keyed records decodes, each flag carrying the id its key names. */
  lemma RemoteKeyed(records: Records, labelName: string, listed: seq<Entry>)
    requires Listing(listed, records, labelName) && WellKeyed(records, labelName)
    ensures Decode(listed).Ok?
    ensures forall i :: 0 <= i < |listed| ==>
      && records[StoreKey(labelName, listed[i].id)] == Some(Parsed(Decode(listed).value[i]))
      && IdOf(Decode(listed).value[i]) == Some(Str(listed[i].id))
    ensures StringIds(Decode(listed).value)
  {
    forall i | 0 <= i < |listed|
      ensures listed[i].value != Some(Unparsable)
    {
      ListedParsed(records, labelName, listed, i);
    }
    var remote := Decode(listed).value;
    forall i | 0 <= i < |listed|
      ensures records[StoreKey(labelName, listed[i].id)] == Some(Parsed(remote[i]))
      ensures IdOf(remote[i]) == Some(Str(listed[i].id))
    {
      ListedParsed(records, labelName, listed, i);
      assert DecodeValue(listed[i].value) == Ok(remote[i]);
    }
  }

  /** A listed item of a well-keyed label holds the parsed flag stored under its key, with that key's id. */
  lemma ListedParsed(records: Records, labelName: string, listed: seq<Entry>, i: int)
    requires Listing(listed, records, labelName) && WellKeyed(records, labelName)
    requires 0 <= i < |listed|
    ensures listed[i].value.Some? && listed[i].value.value.Parsed?
    ensures records[StoreKey(labelName, listed[i].id)] == listed[i].value
    ensures IdOf(listed[i].value.value.json) == Some(Str(listed[i].id))
  {
    assert StoreKey(labelName, listed[i].id) in records;
  }

  /** Two flags with string ids and the same key have the same id. */
  lemma SameKeySameId(a: Json, b: Json)
    requires IdOf(a).Some? && IdOf(a).value.Str? && IdOf(b).Some? && IdOf(b).value.Str?
    requires Key(a) == Key(b)
    ensures SameId(a, b)
  {
  }

  /** In a configuration with unique ids, a key names one flag. */
  lemma UniqueKey(config: seq<Json>, a: Json, b: Json)
    requires IdsUnique(config) && a in config && b in config && Key(a) == Key(b)
    ensures a == b
  {
    var i :| 0 <= i < |config| && config[i] == a;
    var j :| 0 <= j < |config| && config[j] == b;
    assert i == j;
  }

  /** A flag to delete never shares its key with a desired flag. */
  lemma DeletedKeysOutsideConfig(config: seq<Json>, remote: seq<Json>, c: Json)
    requires StringIds(config) && StringIds(remote) && c in config
    requires ToDelete(config, remote).Ok?
    ensures forall d :: d in ToDelete(config, remote).value ==> Key(d) != Key(c)
  {
    forall d | d in ToDelete(config, remote).value
      ensures Key(d) != Key(c)
    {
      var i :| 0 <= i < |config| && config[i] == c;
      var j :| 0 <= j < |remote| && remote[j] == d;
      if Key(d) == Key(c) {
        SameKeySameId(c, d);
        assert false;
      }
    }
  }

  /** The key of a flag with a string id is that string. */
  lemma KeyOfStringId(f: Json, id: string)
    requires IdOf(f) == Some(Str(id))
    ensures Key(f) == id
  {
  }

  // ---------------------------------------------------------------------------
  // A successful run
  // ---------------------------------------------------------------------------

  /**
   * A run that succeeds listed the label, wrote every flag that needed it and,
   * with strict sync, deleted every flag to delete, each request succeeding;
   * without strict sync it deleted nothing.
   */
  lemma RunSucceeded(records: Records, labelName: string, respond: Request -> Response, strictSync: bool,
                     config: seq<Json>, listed: seq<Entry>)
    requires Run(records, labelName, respond, strictSync, config, listed).result.Ok?
    ensures !Failed(respond(ListRequest(labelName)))
    ensures GetUpdatedFeatureFlags(config, listed).Ok?
    ensures strictSync ==> GetFlagsToDelete(config, listed).Ok?
    ensures var updated := GetUpdatedFeatureFlags(config, listed).value;
            var doomed := if strictSync then GetFlagsToDelete(config, listed).value else [];
            var puts := PutRequests(labelName, updated);
            var deletes := DeleteRequests(labelName, doomed);
            && FirstNull(updated) == |updated| && FirstNull(doomed) == |doomed|
            && (forall i :: 0 <= i < |puts| ==> !Failed(respond(puts[i])))
            && (forall i :: 0 <= i < |deletes| ==> !Failed(respond(deletes[i])))
            && Run(records, labelName, respond, strictSync, config, listed).requests == [ListRequest(labelName)] + puts + deletes
            && Run(records, labelName, respond, strictSync, config, listed).records
               == ApplyAll(ApplyAll(records, puts, respond), deletes, respond)
  {
    var updated := GetUpdatedFeatureFlags(config, listed).value;
    var puts := PutRequests(labelName, updated);
    WriteSucceeded(records, labelName, respond, strictSync, config, listed, updated);
    if strictSync {
      var doomed := GetFlagsToDelete(config, listed).value;
      Appended([ListRequest(labelName)], puts, DeleteRequests(labelName, doomed));
    } else {
      assert DeleteRequests(labelName, []) == [];
      assert puts + [] == puts;
    }
  }

  /** A batch that succeeded had no `null` flag and no failed request. */
  lemma BatchSucceeded(flags: seq<Json>, reqs: seq<Request>, respond: Request -> Response)
    requires BatchResult(flags, reqs, respond).Ok?
    ensures FirstNull(flags) == |flags| && flags[..FirstNull(flags)] == flags
    ensures forall i :: 0 <= i < |reqs| ==> !Failed(respond(reqs[i]))
  {
  }

  /** Successful writes followed, under strict sync, by successful deletes. */
  lemma WriteSucceeded(records: Records, labelName: string, respond: Request -> Response, strictSync: bool,
                       config: seq<Json>, listed: seq<Entry>, updated: seq<Json>)
    requires Write(records, labelName, respond, strictSync, config, listed, updated).result.Ok?
    ensures strictSync ==> GetFlagsToDelete(config, listed).Ok?
    ensures var doomed := if strictSync then GetFlagsToDelete(config, listed).value else [];
            var puts := PutRequests(labelName, updated);
            var deletes := DeleteRequests(labelName, doomed);
            var out := Write(records, labelName, respond, strictSync, config, listed, updated);
            && FirstNull(updated) == |updated| && FirstNull(doomed) == |doomed|
            && (forall i :: 0 <= i < |puts| ==> !Failed(respond(puts[i])))
            && (forall i :: 0 <= i < |deletes| ==> !Failed(respond(deletes[i])))
            && out.requests == puts + deletes
            && out.records == ApplyAll(ApplyAll(records, puts, respond), deletes, respond)
  {
    var puts := PutRequests(labelName, updated[..FirstNull(updated)]);
    BatchSucceeded(updated, puts, respond);
    if strictSync {
      DeleteSucceeded(ApplyAll(records, puts, respond), labelName, respond, config, listed);
    } else {
      assert DeleteRequests(labelName, []) == [];
      assert puts + [] == puts;
    }
  }

  /** Successful deletes: the flags to delete were known, none was `null`, and every delete succeeded. */
  lemma DeleteSucceeded(records: Records, labelName: string, respond: Request -> Response,
                        config: seq<Json>, listed: seq<Entry>)
    requires Delete(records, labelName, respond, config, listed).result.Ok?
    ensures GetFlagsToDelete(config, listed).Ok?
    ensures var doomed := GetFlagsToDelete(config, listed).value;
            var deletes := DeleteRequests(labelName, doomed);
            var out := Delete(records, labelName, respond, config, listed);
            && FirstNull(doomed) == |doomed|
            && (forall i :: 0 <= i < |deletes| ==> !Failed(respond(deletes[i])))
            && out.requests == deletes
            && out.records == ApplyAll(records, deletes, respond)
  {
    var doomed := GetFlagsToDelete(config, listed).value;
    BatchSucceeded(doomed, DeleteRequests(labelName, doomed[..FirstNull(doomed)]), respond);
  }

  /** The conditions under which a successful run converges. */
  ghost predicate Converging(records: Records, labelName: string, respond: Request -> Response, strictSync: bool,
                             config: seq<Json>, listed: seq<Entry>)
  {
    && Listing(listed, records, labelName) && WellKeyed(records, labelName)
    && StringIds(config) && IdsUnique(config)
    && Run(records, labelName, respond, strictSync, config, listed).result.Ok?
  }

  /** The flags a run writes, as requests. */
  function Puts(labelName: string, config: seq<Json>, listed: seq<Entry>): seq<Request>
    requires GetUpdatedFeatureFlags(config, listed).Ok?
  {
    PutRequests(labelName, GetUpdatedFeatureFlags(config, listed).value)
  }

  /** The flags a run deletes, as requests: none without strict sync. */
  function Deletes(labelName: string, strictSync: bool, config: seq<Json>, listed: seq<Entry>): seq<Request>
    requires strictSync ==> GetFlagsToDelete(config, listed).Ok?
  {
    if strictSync then DeleteRequests(labelName, GetFlagsToDelete(config, listed).value) else []
  }

  /**
   * Once the writes succeeded, a desired flag is stored under its id with a
   * value deep-equal to it: written now, or left as the deep-equal flag found
   * there.
   */
  lemma WritesStoreDesired(records: Records, labelName: string, respond: Request -> Response,
                           config: seq<Json>, listed: seq<Entry>, c: Json)
    requires Listing(listed, records, labelName) && WellKeyed(records, labelName)
    requires StringIds(config) && IdsUnique(config) && c in config
    requires GetUpdatedFeatureFlags(config, listed).Ok?
    requires forall i :: 0 <= i < |Puts(labelName, config, listed)| ==> !Failed(respond(Puts(labelName, config, listed)[i]))
    ensures var k := StoreKey(labelName, Key(c));
            var s := KeyState(ApplyAll(records, Puts(labelName, config, listed), respond), k);
            && s.Some? && s.value.Some? && s.value.value.Parsed? && DeepEqual(c, s.value.value.json)
            && (s == Some(Some(Parsed(c))) || s == KeyState(records, k))
  {
    RemoteKeyed(records, labelName, listed);
    var remote := Decode(listed).value;
    var updated := Updated(config, remote).value;
    var puts := PutRequests(labelName, updated);
    var k := StoreKey(labelName, Key(c));
    if c in updated {
      var q := PutRequest(labelName, Key(c), c);
      var n :| 0 <= n < |updated| && updated[n] == c;
      assert puts[n] == q;
      forall i | 0 <= i < |puts| && KeyOf(puts[i]) == Some(k)
        ensures puts[i] == q
      {
        UniqueKey(config, updated[i], c);
      }
      ApplyAllSettledBy(records, puts, respond, k, q);
    } else {
      var n :| 0 <= n < |config| && config[n] == c;
      var found := Find(remote, c).value.value;
      var j :| 0 <= j < |remote| && remote[j] == found;
      KeyOfStringId(c, listed[j].id);
      forall i | 0 <= i < |puts|
        ensures KeyOf(puts[i]) != Some(k)
      {
        if Key(updated[i]) == Key(c) {
          UniqueKey(config, updated[i], c);
        }
      }
      ApplyAllUntouched(records, puts, respond, k);
    }
  }

  /** The deletes never touch a desired flag's key. */
  lemma DeletesSpareDesired(records: Records, labelName: string, respond: Request -> Response, strictSync: bool,
                            config: seq<Json>, listed: seq<Entry>, c: Json, before: Records)
    requires Listing(listed, records, labelName) && WellKeyed(records, labelName)
    requires StringIds(config) && c in config
    requires strictSync ==> GetFlagsToDelete(config, listed).Ok?
    ensures var k := StoreKey(labelName, Key(c));
            KeyState(ApplyAll(before, Deletes(labelName, strictSync, config, listed), respond), k) == KeyState(before, k)
  {
    var deletes := Deletes(labelName, strictSync, config, listed);
    var k := StoreKey(labelName, Key(c));
    if strictSync {
      RemoteKeyed(records, labelName, listed);
      var doomed := GetFlagsToDelete(config, listed).value;
      DeletedKeysOutsideConfig(config, Decode(listed).value, c);
      assert forall i :: 0 <= i < |doomed| ==> Key(doomed[i]) != Key(c);
    }
    assert forall i :: 0 <= i < |deletes| ==> KeyOf(deletes[i]) != Some(k);
    ApplyAllUntouched(before, deletes, respond, k);
  }

  /** After a successful run, a desired flag is stored under its id with a value deep-equal to it. */
  lemma DesiredFlagStored(records: Records, labelName: string, respond: Request -> Response, strictSync: bool,
                          config: seq<Json>, listed: seq<Entry>, c: Json)
    requires Converging(records, labelName, respond, strictSync, config, listed)
    requires c in config
    ensures var after := Run(records, labelName, respond, strictSync, config, listed).records;
            var k := StoreKey(labelName, Key(c));
            && k in after && after[k].Some? && after[k].value.Parsed? && DeepEqual(c, after[k].value.json)
            && (after[k] == Some(Parsed(c)) || (k in records && after[k] == records[k]))
  {
    RunSucceeded(records, labelName, respond, strictSync, config, listed);
    var afterPuts := ApplyAll(records, Puts(labelName, config, listed), respond);
    WritesStoreDesired(records, labelName, respond, config, listed, c);
    DeletesSpareDesired(records, labelName, respond, strictSync, config, listed, c, afterPuts);
    assert Run(records, labelName, respond, strictSync, config, listed).records
        == ApplyAll(afterPuts, Deletes(labelName, strictSync, config, listed), respond);
  }

  /** The flags a run writes are desired flags. */
  lemma WrittenFlagsDesired(config: seq<Json>, listed: seq<Entry>)
    requires GetUpdatedFeatureFlags(config, listed).Ok?
    ensures forall u :: u in GetUpdatedFeatureFlags(config, listed).value ==> u in config
  {
    assert GetUpdatedFeatureFlags(config, listed) == Updated(config, Decode(listed).value);
  }

  /** The writes of a run, up to the first `null` flag, name only desired keys under the label. */
  lemma PutsNameDesiredKeys(labelName: string, config: seq<Json>, listed: seq<Entry>, k: StoreKey)
    requires GetUpdatedFeatureFlags(config, listed).Ok?
    requires k.labelName != labelName || k.id !in Keys(config)
    ensures var updated := GetUpdatedFeatureFlags(config, listed).value;
            forall i :: 0 <= i < FirstNull(updated) ==> KeyOf(PutRequests(labelName, updated[..FirstNull(updated)])[i]) != Some(k)
  {
    var updated := GetUpdatedFeatureFlags(config, listed).value;
    WrittenFlagsDesired(config, listed);
    forall i | 0 <= i < FirstNull(updated)
      ensures KeyOf(PutRequests(labelName, updated[..FirstNull(updated)])[i]) != Some(k)
    {
      assert updated[i] in updated;
      var m :| 0 <= m < |config| && config[m] == updated[i];
      assert Keys(config)[m] == Key(updated[i]);
    }
  }

  /** A run changes nothing outside its label, whatever the server answers. */
  lemma RunTouchesOnlyItsLabel(records: Records, labelName: string, respond: Request -> Response, strictSync: bool,
                               config: seq<Json>, listed: seq<Entry>, k: StoreKey)
    requires k.labelName != labelName
    ensures KeyState(Run(records, labelName, respond, strictSync, config, listed).records, k) == KeyState(records, k)
  {
    if !Failed(respond(ListRequest(labelName))) && GetUpdatedFeatureFlags(config, listed).Ok? {
      var updated := GetUpdatedFeatureFlags(config, listed).value;
      var puts := PutRequests(labelName, updated[..FirstNull(updated)]);
      ApplyAllUntouched(records, puts, respond, k);
      if BatchResult(updated, puts, respond).Ok? && strictSync && GetFlagsToDelete(config, listed).Ok? {
        var doomed := GetFlagsToDelete(config, listed).value;
        ApplyAllUntouched(ApplyAll(records, puts, respond), DeleteRequests(labelName, doomed[..FirstNull(doomed)]), respond, k);
      }
    }
  }

  /** Without strict sync a run changes only the desired flags' records, whatever the server answers. */
  lemma NonStrictRunKeepsUndesired(records: Records, labelName: string, respond: Request -> Response,
                                   config: seq<Json>, listed: seq<Entry>, k: StoreKey)
    requires k.id !in Keys(config)
    ensures KeyState(Run(records, labelName, respond, false, config, listed).records, k) == KeyState(records, k)
  {
    if !Failed(respond(ListRequest(labelName))) && GetUpdatedFeatureFlags(config, listed).Ok? {
      var updated := GetUpdatedFeatureFlags(config, listed).value;
      PutsNameDesiredKeys(labelName, config, listed, k);
      ApplyAllUntouched(records, PutRequests(labelName, updated[..FirstNull(updated)]), respond, k);
    }
  }

  /** A flag whose string id is no desired flag's key matches no desired flag. */
  lemma NotFoundOutsideKeys(config: seq<Json>, f: Json, id: string)
    requires IdOf(f) == Some(Str(id)) && id !in Keys(config)
    requires Find(config, f).Ok?
    ensures Find(config, f) == Ok(None)
  {
  }

  /** A stored flag under the label that no desired flag names is among the flags to delete. */
  lemma UndesiredRecordDoomed(records: Records, labelName: string, config: seq<Json>, listed: seq<Entry>, k: StoreKey)
    requires Listing(listed, records, labelName) && WellKeyed(records, labelName)
    requires GetFlagsToDelete(config, listed).Ok?
    requires k in records && k.labelName == labelName && k.id !in Keys(config)
    ensures DeleteRequest(labelName, k.id) in DeleteRequests(labelName, GetFlagsToDelete(config, listed).value)
  {
    RemoteKeyed(records, labelName, listed);
    var remote := Decode(listed).value;
    assert GetFlagsToDelete(config, listed) == ToDelete(config, remote);
    var doomed := ToDelete(config, remote).value;
    var i :| 0 <= i < |listed| && listed[i].id == k.id;
    var f := remote[i];
    assert f in remote;
    KeyOfStringId(f, k.id);
    NotFoundOutsideKeys(config, f, k.id);
    assert Unmatched(config, f);
    DeleteRequestIn(labelName, doomed, f);
  }

  /** Every flag of a batch has its delete request in the batch. */
  lemma DeleteRequestIn(labelName: string, flags: seq<Json>, f: Json)
    requires f in flags
    ensures DeleteRequest(labelName, Key(f)) in DeleteRequests(labelName, flags)
  {
    var j :| 0 <= j < |flags| && flags[j] == f;
    assert DeleteRequests(labelName, flags)[j] == DeleteRequest(labelName, Key(f));
  }

  /** Successful deletes leave no record under the label that no desired flag names. */
  lemma DeletesRemoveUndesired(records: Records, labelName: string, respond: Request -> Response,
                               config: seq<Json>, listed: seq<Entry>, k: StoreKey, before: Records)
    requires Listing(listed, records, labelName) && WellKeyed(records, labelName)
    requires GetFlagsToDelete(config, listed).Ok?
    requires var deletes := DeleteRequests(labelName, GetFlagsToDelete(config, listed).value);
             forall i :: 0 <= i < |deletes| ==> !Failed(respond(deletes[i]))
    requires k.labelName == labelName && k.id !in Keys(config)
    requires KeyState(before, k) == KeyState(records, k)
    ensures k !in ApplyAll(before, DeleteRequests(labelName, GetFlagsToDelete(config, listed).value), respond)
  {
    var deletes := DeleteRequests(labelName, GetFlagsToDelete(config, listed).value);
    var q := DeleteRequest(labelName, k.id);
    if k in records {
      UndesiredRecordDoomed(records, labelName, config, listed, k);
    }
    if q in deletes {
      ApplyAllSettledBy(before, deletes, respond, k, q);
    } else {
      ApplyAllUntouched(before, deletes, respond, k);
    }
  }

  /** With strict sync, a successful run leaves nothing under the label but the desired flags. */
  lemma StrictRunLeavesOnlyDesired(records: Records, labelName: string, respond: Request -> Response,
                                   config: seq<Json>, listed: seq<Entry>, k: StoreKey)
    requires Converging(records, labelName, respond, true, config, listed)
    requires k.labelName == labelName && k.id !in Keys(config)
    ensures k !in Run(records, labelName, respond, true, config, listed).records
  {
    RunSucceeded(records, labelName, respond, true, config, listed);
    var updated := GetUpdatedFeatureFlags(config, listed).value;
    PutsNameDesiredKeys(labelName, config, listed, k);
    assert updated[..FirstNull(updated)] == updated;
    ApplyAllUntouched(records, Puts(labelName, config, listed), respond, k);
    DeletesRemoveUndesired(records, labelName, respond, config, listed, k, ApplyAll(records, Puts(labelName, config, listed), respond));
  }

  /** A successful run leaves the label well keyed: every record holds a flag with the id its key names. */
  lemma RunKeepsWellKeyed(records: Records, labelName: string, respond: Request -> Response, strictSync: bool,
                          config: seq<Json>, listed: seq<Entry>)
    requires Converging(records, labelName, respond, strictSync, config, listed)
    ensures WellKeyed(Run(records, labelName, respond, strictSync, config, listed).records, labelName)
  {
    var after := Run(records, labelName, respond, strictSync, config, listed).records;
    forall k | k in after && k.labelName == labelName
      ensures after[k].Some? && after[k].value.Parsed? && IdOf(after[k].value.json) == Some(Str(k.id))
    {
      RunKeepsKeyWellKeyed(records, labelName, respond, strictSync, config, listed, k);
    }
  }

  /** After a successful run, a record under the label holds a flag with the id its key names. */
  lemma RunKeepsKeyWellKeyed(records: Records, labelName: string, respond: Request -> Response, strictSync: bool,
                             config: seq<Json>, listed: seq<Entry>, k: StoreKey)
    requires Converging(records, labelName, respond, strictSync, config, listed)
    requires k in Run(records, labelName, respond, strictSync, config, listed).records && k.labelName == labelName
    ensures var after := Run(records, labelName, respond, strictSync, config, listed).records;
            after[k].Some? && after[k].value.Parsed? && IdOf(after[k].value.json) == Some(Str(k.id))
  {
    if k.id in Keys(config) {
      var m :| 0 <= m < |config| && Keys(config)[m] == k.id;
      DesiredFlagStored(records, labelName, respond, strictSync, config, listed, config[m]);
      assert k == StoreKey(labelName, Key(config[m]));
    } else if strictSync {
      StrictRunLeavesOnlyDesired(records, labelName, respond, config, listed, k);
    } else {
      NonStrictRunKeepsUndesired(records, labelName, respond, config, listed, k);
    }
  }

  /** When the store already holds every desired flag (deep-equal, under its id), one of them needs no write. */
  lemma InSyncFlagNeedsNoWrite(records: Records, labelName: string, config: seq<Json>, listed: seq<Entry>, c: Json)
    requires Listing(listed, records, labelName) && WellKeyed(records, labelName)
    requires IdOf(c).Some? && IdOf(c).value.Str?
    requires var k := StoreKey(labelName, Key(c));
             k in records && records[k].Some? && records[k].value.Parsed? && DeepEqual(c, records[k].value.json)
    ensures Decode(listed).Ok? && Find(Decode(listed).value, c).Ok? && !NeedsUpdate(c, Decode(listed).value)
  {
    FoundIsStored(records, labelName, listed, c);
    var k := StoreKey(labelName, Key(c));
    var found := Find(Decode(listed).value, c).value;
    assert IdOf(records[k].value.json).Some?;
    assert Truthy(found) && DeepEqual(c, found.value);
  }

  /** A stored flag is found in the listing by its id, and what is found is what is stored under its key. */
  lemma FoundIsStored(records: Records, labelName: string, listed: seq<Entry>, c: Json)
    requires Listing(listed, records, labelName) && WellKeyed(records, labelName)
    requires IdOf(c).Some? && IdOf(c).value.Str?
    requires StoreKey(labelName, Key(c)) in records
    ensures Decode(listed).Ok?
    ensures Find(Decode(listed).value, c).Ok? && Find(Decode(listed).value, c).value.Some?
    ensures records[StoreKey(labelName, Key(c))] == Some(Parsed(Find(Decode(listed).value, c).value.value))
  {
    RemoteKeyed(records, labelName, listed);
    var remote := Decode(listed).value;
    var i :| 0 <= i < |listed| && listed[i].id == Key(c);
    KeyOfStringId(remote[i], listed[i].id);
    SameKeySameId(remote[i], c);
    FindsSome(remote, c, i);
    FoundUnderKey(records, labelName, listed, remote, Find(remote, c).value.value, c);
  }

  /** A listed flag with the same id as `c` is the record under `c`'s key. */
  lemma FoundUnderKey(records: Records, labelName: string, listed: seq<Entry>, remote: seq<Json>, found: Json, c: Json)
    requires |remote| == |listed|
    requires forall i :: 0 <= i < |listed| ==>
      && StoreKey(labelName, listed[i].id) in records
      && records[StoreKey(labelName, listed[i].id)] == Some(Parsed(remote[i]))
      && IdOf(remote[i]) == Some(Str(listed[i].id))
    requires found in remote && SameId(found, c) && IdOf(c).Some? && IdOf(c).value.Str?
    ensures StoreKey(labelName, Key(c)) in records && records[StoreKey(labelName, Key(c))] == Some(Parsed(found))
  {
    var j :| 0 <= j < |remote| && remote[j] == found;
    assert IdOf(c) == Some(Str(listed[j].id));
    KeyOfStringId(c, listed[j].id);
  }

  /** A flag with a string id is found among flags with string ids that include one with the same id. */
  lemma FindsSome(remote: seq<Json>, c: Json, i: nat)
    requires StringIds(remote) && i < |remote| && SameId(remote[i], c) && IdOf(c).Some?
    ensures Find(remote, c).Ok? && Find(remote, c).value.Some?
  {
    forall x | x in remote
      ensures !x.Null?
    {
      var j :| 0 <= j < |remote| && remote[j] == x;
    }
    assert remote[i] in remote;
  }

  /**
   * A successful run converges the label on the configuration: every desired
   * flag is stored under its id with a deep-equal value, other labels are
   * untouched, with strict sync nothing else is left under the label, and
   * without it every other record is as it was.
   */
  lemma RunConverges(records: Records, labelName: string, respond: Request -> Response, strictSync: bool,
                     config: seq<Json>, listed: seq<Entry>)
    requires Converging(records, labelName, respond, strictSync, config, listed)
    ensures var after := Run(records, labelName, respond, strictSync, config, listed).records;
            && (forall c :: c in config ==>
                  var k := StoreKey(labelName, Key(c));
                  k in after && after[k].Some? && after[k].value.Parsed? && DeepEqual(c, after[k].value.json))
            && (forall k: StoreKey :: k.labelName != labelName ==> KeyState(after, k) == KeyState(records, k))
            && (strictSync ==> forall k :: k in after && k.labelName == labelName ==> k.id in Keys(config))
            && (!strictSync ==> forall k: StoreKey :: k.id !in Keys(config) ==> KeyState(after, k) == KeyState(records, k))
            && WellKeyed(after, labelName)
  {
    var after := Run(records, labelName, respond, strictSync, config, listed).records;
    forall c | c in config
      ensures var k := StoreKey(labelName, Key(c));
              k in after && after[k].Some? && after[k].value.Parsed? && DeepEqual(c, after[k].value.json)
    {
      DesiredFlagStored(records, labelName, respond, strictSync, config, listed, c);
    }
    forall k: StoreKey | k.labelName != labelName
      ensures KeyState(after, k) == KeyState(records, k)
    {
      RunTouchesOnlyItsLabel(records, labelName, respond, strictSync, config, listed, k);
    }
    if strictSync {
      forall k | k in after && k.labelName == labelName
        ensures k.id in Keys(config)
      {
        if k.id !in Keys(config) {
          StrictRunLeavesOnlyDesired(records, labelName, respond, config, listed, k);
        }
      }
    } else {
      forall k: StoreKey | k.id !in Keys(config)
        ensures KeyState(after, k) == KeyState(records, k)
      {
        NonStrictRunKeepsUndesired(records, labelName, respond, config, listed, k);
      }
    }
    RunKeepsWellKeyed(records, labelName, respond, strictSync, config, listed);
  }

  /** When no desired flag needs a write, the filter keeps none. */
  lemma {:induction false} UpdatedEmpty(config: seq<Json>, remote: seq<Json>)
    requires forall i :: 0 <= i < |config| ==> Find(remote, config[i]).Ok? && !NeedsUpdate(config[i], remote)
    ensures Updated(config, remote) == Ok([])
  {
    if config != [] {
      UpdatedEmpty(config[1..], remote);
    }
  }

  /** When the store already holds every desired flag (deep-equal, under its id), nothing is to be written. */
  lemma InSyncWritesNothing(records: Records, labelName: string, config: seq<Json>, listed: seq<Entry>)
    requires Listing(listed, records, labelName) && WellKeyed(records, labelName) && StringIds(config)
    requires forall c :: c in config ==>
      var k := StoreKey(labelName, Key(c));
      k in records && records[k].Some? && records[k].value.Parsed? && DeepEqual(c, records[k].value.json)
    ensures GetUpdatedFeatureFlags(config, listed) == Ok([])
  {
    RemoteKeyed(records, labelName, listed);
    var remote := Decode(listed).value;
    forall i | 0 <= i < |config|
      ensures Find(remote, config[i]).Ok? && !NeedsUpdate(config[i], remote)
    {
      InSyncFlagNeedsNoWrite(records, labelName, config, listed, config[i]);
    }
    UpdatedEmpty(config, remote);
  }

  /** A second run over what a successful run left behind writes nothing. */
  lemma SecondRunWritesNothing(records: Records, labelName: string, respond: Request -> Response, strictSync: bool,
                               config: seq<Json>, listed: seq<Entry>,
                               respond2: Request -> Response, strictSync2: bool, listed2: seq<Entry>)
    requires Converging(records, labelName, respond, strictSync, config, listed)
    requires Listing(listed2, Run(records, labelName, respond, strictSync, config, listed).records, labelName)
    ensures GetUpdatedFeatureFlags(config, listed2) == Ok([])
    ensures var again := Run(Run(records, labelName, respond, strictSync, config, listed).records,
                             labelName, respond2, strictSync2, config, listed2);
            forall i :: 0 <= i < |again.requests| ==> !again.requests[i].PutRequest?
  {
    var after := Run(records, labelName, respond, strictSync, config, listed).records;
    RunKeepsWellKeyed(records, labelName, respond, strictSync, config, listed);
    forall c | c in config
      ensures var k := StoreKey(labelName, Key(c));
              k in after && after[k].Some? && after[k].value.Parsed? && DeepEqual(c, after[k].value.json)
    {
      DesiredFlagStored(records, labelName, respond, strictSync, config, listed, c);
    }
    InSyncWritesNothing(after, labelName, config, listed2);
    RunRequestsShape(after, labelName, respond2, strictSync2, config, listed2);
  }

  /** The writes a run issues: none when the listing failed or the comparison threw. */
  function WritesOf(labelName: string, respond: Request -> Response, config: seq<Json>, listed: seq<Entry>): seq<Request>
  {
    if Failed(respond(ListRequest(labelName))) || GetUpdatedFeatureFlags(config, listed).Err? then []
    else
      var updated := GetUpdatedFeatureFlags(config, listed).value;
      PutRequests(labelName, updated[..FirstNull(updated)])
  }

  /** The deletes a run issues: only with strict sync, after writes that all went through. */
  function DeletesOf(labelName: string, respond: Request -> Response, strictSync: bool, config: seq<Json>,
                     listed: seq<Entry>): seq<Request>
  {
    if Failed(respond(ListRequest(labelName))) || GetUpdatedFeatureFlags(config, listed).Err? then []
    else
      var updated := GetUpdatedFeatureFlags(config, listed).value;
      var puts := PutRequests(labelName, updated[..FirstNull(updated)]);
      if BatchResult(updated, puts, respond).Err? || !strictSync || GetFlagsToDelete(config, listed).Err? then []
      else
        var doomed := GetFlagsToDelete(config, listed).value;
        DeleteRequests(labelName, doomed[..FirstNull(doomed)])
  }

  /** A run issues the listing, its writes, then its deletes. */
  lemma RunRequestsSplit(records: Records, labelName: string, respond: Request -> Response, strictSync: bool,
                         config: seq<Json>, listed: seq<Entry>)
    ensures Run(records, labelName, respond, strictSync, config, listed).requests
         == [ListRequest(labelName)] + WritesOf(labelName, respond, config, listed)
            + DeletesOf(labelName, respond, strictSync, config, listed)
  {
    var list := ListRequest(labelName);
    if !Failed(respond(list)) && GetUpdatedFeatureFlags(config, listed).Ok? {
      var updated := GetUpdatedFeatureFlags(config, listed).value;
      var puts := PutRequests(labelName, updated[..FirstNull(updated)]);
      if BatchResult(updated, puts, respond).Ok? && strictSync && GetFlagsToDelete(config, listed).Ok? {
        var doomed := GetFlagsToDelete(config, listed).value;
        var deletes := DeleteRequests(labelName, doomed[..FirstNull(doomed)]);
        Appended([list], puts, deletes);
      }
    }
  }

  /** A run deletes only with strict sync and only after every write went through. */
  lemma DeletesNeedCleanWrites(labelName: string, respond: Request -> Response, strictSync: bool,
                               config: seq<Json>, listed: seq<Entry>)
    ensures DeletesOf(labelName, respond, strictSync, config, listed) != [] ==>
            strictSync && forall i :: 0 <= i < |WritesOf(labelName, respond, config, listed)| ==>
              !Failed(respond(WritesOf(labelName, respond, config, listed)[i]))
  {
    if DeletesOf(labelName, respond, strictSync, config, listed) != [] {
      var updated := GetUpdatedFeatureFlags(config, listed).value;
      var puts := PutRequests(labelName, updated[..FirstNull(updated)]);
      assert BatchResult(updated, puts, respond).Ok?;
      assert FirstFailure(puts, respond).None?;
    }
  }

  /** The order facts about a listing followed by writes followed by deletes. */
  lemma ListWritesDeletes(list: Request, puts: seq<Request>, deletes: seq<Request>, respond: Request -> Response)
    requires !list.PutRequest? && !list.DeleteRequest?
    requires forall i :: 0 <= i < |puts| ==> puts[i].PutRequest?
    requires forall i :: 0 <= i < |deletes| ==> deletes[i].DeleteRequest?
    ensures var reqs := [list] + puts + deletes;
            && (forall i :: 1 <= i < |reqs| ==> reqs[i].PutRequest? || reqs[i].DeleteRequest?)
            && (forall i, j :: 0 <= i < j < |reqs| && reqs[i].DeleteRequest? ==> reqs[j].DeleteRequest?)
            && (deletes == [] ==> forall i :: 0 <= i < |reqs| ==> !reqs[i].DeleteRequest?)
            && (puts == [] ==> forall i :: 0 <= i < |reqs| ==> !reqs[i].PutRequest?)
            && ((forall i :: 0 <= i < |puts| ==> !Failed(respond(puts[i]))) ==>
                  forall i :: 0 <= i < |reqs| && reqs[i].PutRequest? ==> !Failed(respond(reqs[i])))
  {
    var reqs := [list] + puts + deletes;
    assert forall i :: 1 <= i <= |puts| ==> reqs[i] == puts[i - 1];
    assert forall i :: |puts| < i < |reqs| ==> reqs[i] == deletes[i - 1 - |puts|];
  }

  /**
   * The requests of any run: the listing first, then the writes of the flags
   * that need one (up to a `null` flag), then, only with strict sync and
   * only when every write succeeded, the deletes.
   */
  lemma RunRequestsShape(records: Records, labelName: string, respond: Request -> Response, strictSync: bool,
                         config: seq<Json>, listed: seq<Entry>)
    ensures var reqs := Run(records, labelName, respond, strictSync, config, listed).requests;
            && |reqs| >= 1 && reqs[0] == ListRequest(labelName)
            && (forall i :: 1 <= i < |reqs| ==> reqs[i].PutRequest? || reqs[i].DeleteRequest?)
            && (forall i, j :: 0 <= i < j < |reqs| && reqs[i].DeleteRequest? ==> reqs[j].DeleteRequest?)
            && (!strictSync ==> forall i :: 0 <= i < |reqs| ==> !reqs[i].DeleteRequest?)
            && (forall i, j :: 0 <= i < |reqs| && 0 <= j < |reqs| && reqs[i].PutRequest? && Failed(respond(reqs[i]))
                  ==> !reqs[j].DeleteRequest?)
            && (GetUpdatedFeatureFlags(config, listed) == Ok([]) ==> forall i :: 0 <= i < |reqs| ==> !reqs[i].PutRequest?)
  {
    RunRequestsSplit(records, labelName, respond, strictSync, config, listed);
    DeletesNeedCleanWrites(labelName, respond, strictSync, config, listed);
    var puts := WritesOf(labelName, respond, config, listed);
    var deletes := DeletesOf(labelName, respond, strictSync, config, listed);
    ListWritesDeletes(ListRequest(labelName), puts, deletes, respond);
  }

  /**
   * With well-formed data (a well-keyed label and desired flags that are not
   * `null`), a run can only fail with the store's ApiError.
   */
  lemma ErrorsAreApiErrors(records: Records, labelName: string, respond: Request -> Response, strictSync: bool,
                           config: seq<Json>, listed: seq<Entry>)
    requires Listing(listed, records, labelName) && WellKeyed(records, labelName)
    requires forall i :: 0 <= i < |config| ==> !config[i].Null?
    ensures Run(records, labelName, respond, strictSync, config, listed).result.Err? ==>
            Run(records, labelName, respond, strictSync, config, listed).result.error.ApiError?
  {
    RemoteKeyed(records, labelName, listed);
    var remote := Decode(listed).value;
    FiltersSucceed(config, remote);
    var updated := Updated(config, remote).value;
    var doomed := ToDelete(config, remote).value;
    assert GetUpdatedFeatureFlags(config, listed) == Ok(updated);
    assert GetFlagsToDelete(config, listed) == Ok(doomed);
    WrittenFlagsDesired(config, listed);
    NoNullFlag(updated);
    NoNullFlag(doomed);
    WriteErrorsAreApiErrors(records, labelName, respond, strictSync, config, listed, updated);
    if !Failed(respond(ListRequest(labelName))) {
      assert Run(records, labelName, respond, strictSync, config, listed).result
          == Write(records, labelName, respond, strictSync, config, listed, updated).result;
    }
  }

  /** Without `null` on either side, both comparisons of the update go through. */
  lemma FiltersSucceed(config: seq<Json>, remote: seq<Json>)
    requires forall i :: 0 <= i < |config| ==> !config[i].Null?
    requires StringIds(remote)
    ensures Updated(config, remote).Ok? && ToDelete(config, remote).Ok?
    ensures forall x :: x in config ==> !x.Null?
  {
    assert forall x :: x in remote ==> !x.Null?;
    assert forall x :: x in config ==> !x.Null?;
  }

  /** Without a `null` flag, the batch reaches the end. */
  lemma NoNullFlag(flags: seq<Json>)
    requires forall x :: x in flags ==> !x.Null?
    ensures FirstNull(flags) == |flags|
  {
  }

  /** Writes and deletes without a `null` flag can only fail with the store's ApiError. */
  lemma WriteErrorsAreApiErrors(records: Records, labelName: string, respond: Request -> Response, strictSync: bool,
                                config: seq<Json>, listed: seq<Entry>, updated: seq<Json>)
    requires FirstNull(updated) == |updated|
    requires GetFlagsToDelete(config, listed).Ok?
    requires FirstNull(GetFlagsToDelete(config, listed).value) == |GetFlagsToDelete(config, listed).value|
    ensures Write(records, labelName, respond, strictSync, config, listed, updated).result.Err? ==>
            Write(records, labelName, respond, strictSync, config, listed, updated).result.error.ApiError?
  {
    var puts := PutRequests(labelName, updated[..FirstNull(updated)]);
    var doomed := GetFlagsToDelete(config, listed).value;
    BatchErrorIsApiError(updated, puts, respond);
    BatchErrorIsApiError(doomed, DeleteRequests(labelName, doomed[..FirstNull(doomed)]), respond);
  }

  /** A batch without a `null` flag can only fail with the error of a failed request. */
  lemma BatchErrorIsApiError(flags: seq<Json>, reqs: seq<Request>, respond: Request -> Response)
    requires FirstNull(flags) == |flags|
    ensures BatchResult(flags, reqs, respond).Err? ==> BatchResult(flags, reqs, respond).error.ApiError?
  {
  }
}
