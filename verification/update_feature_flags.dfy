/**
 * One deployment against the store: list the flags under the label, write
 * every desired flag that is missing or different, and, with strict sync,
 * delete the stored flags the configuration does not mention.
 *
 * The writes (and the deletes) are all started before any is awaited, so all
 * of them are issued even when one fails; the run then ends with the failure
 * of the first failing request, in order. Reading `.id` of a `null` flag
 * while starting them throws a TypeError at once, after the requests for the
 * flags before it were issued.
 */
module FeatureFlagUpdate {
  import opened Wrappers
  import opened Json
  import opened Errors
  import opened Utils
  import opened ConfigLoader
  import opened FeatureFlagClient
  import ActionInput

  // ---------------------------------------------------------------------------
  // Reading the listing and comparing
  // ---------------------------------------------------------------------------

  /** `JSON.parse(r.value ?? '{}')`: an item without a value reads as an empty object. */
  function DecodeValue(value: Option<Parse>): (r: Result<Json, Error>)
    ensures value.None? ==> r == Ok(Obj(map[]))
    ensures value.Some? && value.value.Parsed? ==> r == Ok(value.value.json)
    ensures r.Err? <==> value == Some(Unparsable)
    ensures r.Err? ==> r.error == SyntaxError
  {
    match value
    case None => Ok(Obj(map[]))
    case Some(Parsed(flag)) => Ok(flag)
    case Some(Unparsable) => Err(SyntaxError)
  }

  /** The stored flags of a listing, in listing order. */
  function Decode(entries: seq<Entry>): (r: Result<seq<Json>, Error>)
    ensures r.Ok? <==> forall i :: 0 <= i < |entries| ==> entries[i].value != Some(Unparsable)
    ensures r.Err? ==> r.error == SyntaxError
    ensures r.Ok? ==> |r.value| == |entries|
                      && forall i :: 0 <= i < |entries| ==> DecodeValue(entries[i].value) == Ok(r.value[i])
  {
    if entries == [] then Ok([])
    else
      var head :- DecodeValue(entries[0].value);
      var rest :- Decode(entries[1..]);
      Ok([head] + rest)
  }

  /** `x.id === target.id`. */
  predicate SameId(x: Json, target: Json)
  {
    StrictEquals(IdOf(x), IdOf(target))
  }

  /**
   * `xs.find(x => x.id === target.id)`: the first flag with the target's id.
   * Reaching a `null` on either side before a match throws a TypeError.
   */
  function Find(xs: seq<Json>, target: Json): (r: Result<Option<Json>, Error>)
    ensures r.Err? ==> r.error == TypeError
    ensures r.Ok? && r.value.Some? ==> r.value.value in xs && SameId(r.value.value, target)
    ensures r.Ok? && r.value.None? ==> forall x :: x in xs ==> !SameId(x, target)
    ensures !target.Null? && (forall x :: x in xs ==> !x.Null?) ==> r.Ok?
  {
    if xs == [] then Ok(None)
    else if xs[0].Null? || target.Null? then Err(TypeError)
    else if SameId(xs[0], target) then Ok(Some(xs[0]))
    else Find(xs[1..], target)
  }

  /** `xs[i]` is the first element with the target's id. */
  predicate FirstMatchAt(xs: seq<Json>, target: Json, i: int)
  {
    0 <= i < |xs| && SameId(xs[i], target) && forall j :: 0 <= j < i ==> !SameId(xs[j], target)
  }

  /** `find` reaches position `i`, no earlier id matching, and reads `.id` of a `null` there. */
  predicate ThrowsAt(xs: seq<Json>, target: Json, i: int)
  {
    0 <= i < |xs| && (xs[i].Null? || target.Null?) && forall j :: 0 <= j < i ==> !SameId(xs[j], target)
  }

  /**
   * `find` stops at the first position where the element is `null` (or the
   * target is), which throws, or where the ids match, which is the result.
   */
  lemma FindFirst(xs: seq<Json>, target: Json)
    ensures Find(xs, target).Ok? && Find(xs, target).value.Some? ==>
      exists i :: FirstMatchAt(xs, target, i) && xs[i] == Find(xs, target).value.value
    ensures Find(xs, target).Err? <==> exists i :: ThrowsAt(xs, target, i)
  {
    FindFirstMatch(xs, target);
    FindThrows(xs, target);
  }

  lemma {:induction false} FindFirstMatch(xs: seq<Json>, target: Json)
    ensures Find(xs, target).Ok? && Find(xs, target).value.Some? ==>
      exists i :: FirstMatchAt(xs, target, i) && xs[i] == Find(xs, target).value.value
  {
    if xs != [] && !xs[0].Null? && !target.Null? {
      if SameId(xs[0], target) {
        assert FirstMatchAt(xs, target, 0);
      } else {
        FindFirstMatch(xs[1..], target);
        if Find(xs, target).Ok? && Find(xs, target).value.Some? {
          var i :| FirstMatchAt(xs[1..], target, i) && xs[1..][i] == Find(xs[1..], target).value.value;
          assert FirstMatchAt(xs, target, i + 1);
        }
      }
    }
  }

  lemma {:induction false} FindThrows(xs: seq<Json>, target: Json)
    ensures Find(xs, target).Err? <==> exists i :: ThrowsAt(xs, target, i)
  {
    if xs == [] {
    } else if xs[0].Null? || target.Null? {
      assert ThrowsAt(xs, target, 0);
    } else if SameId(xs[0], target) {
      forall i | 0 <= i < |xs|
        ensures !ThrowsAt(xs, target, i)
      {
      }
    } else {
      FindThrows(xs[1..], target);
      if Find(xs, target).Err? {
        var i :| ThrowsAt(xs[1..], target, i);
        assert ThrowsAt(xs, target, i + 1);
      } else {
        forall i | 0 <= i < |xs|
          ensures !ThrowsAt(xs, target, i)
        {
          if i > 0 {
            assert !ThrowsAt(xs[1..], target, i - 1);
          }
        }
      }
    }
  }

  /**
   * `!existingFeatureFlag || !deepEqualCheck(c, existingFeatureFlag)`: a desired
   * flag has no stored counterpart, a falsy one, or one that is not deep-equal to it.
   */
  predicate NeedsUpdate(c: Json, remote: seq<Json>)
  {
    Find(remote, c).Ok? && (!Truthy(Find(remote, c).value) || !DeepEqual(c, Find(remote, c).value.value))
  }

  /** The filter of `getUpdatedFeatureFlags`, on the stored flags. */
  function Updated(config: seq<Json>, remote: seq<Json>): (r: Result<seq<Json>, Error>)
    ensures r.Ok? <==> forall i :: 0 <= i < |config| ==> Find(remote, config[i]).Ok?
    ensures r.Err? ==> r.error == TypeError
    ensures r.Ok? ==> forall c :: c in r.value <==> c in config && NeedsUpdate(c, remote)
  {
    if config == [] then Ok([])
    else
      var found :- Find(remote, config[0]);
      var rest :- Updated(config[1..], remote);
      Ok(if !Truthy(found) || !DeepEqual(config[0], found.value) then [config[0]] + rest else rest)
  }

  /** The filter keeps the configuration's order: it distributes over concatenation. */
  lemma {:induction false} UpdatedAppend(a: seq<Json>, b: seq<Json>, remote: seq<Json>)
    requires Updated(a, remote).Ok? && Updated(b, remote).Ok?
    ensures Updated(a + b, remote) == Ok(Updated(a, remote).value + Updated(b, remote).value)
  {
    if a == [] {
      assert a + b == b;
      assert Updated(a, remote) == Ok([]);
      assert [] + Updated(b, remote).value == Updated(b, remote).value;
    } else {
      var ab := a + b;
      assert ab[0] == a[0] && ab[1..] == a[1..] + b;
      assert Find(remote, a[0]).Ok? && Updated(a[1..], remote).Ok?;
      UpdatedAppend(a[1..], b, remote);
      var ra, rb := Updated(a[1..], remote).value, Updated(b, remote).value;
      UpdatedFirst(a, remote);
      UpdatedFirst(ab, remote);
      if NeedsUpdate(a[0], remote) {
        assert Updated(a, remote) == Ok([a[0]] + ra);
        assert Updated(ab, remote) == Ok([a[0]] + (ra + rb));
        Appended([a[0]], ra, rb);
      } else {
        assert Updated(a, remote) == Ok(ra);
        assert Updated(ab, remote) == Ok(ra + rb);
      }
    }
  }

  /** The filter on a non-empty configuration: its first flag is kept exactly when it needs an update. */
  lemma UpdatedFirst(config: seq<Json>, remote: seq<Json>)
    requires config != [] && Find(remote, config[0]).Ok? && Updated(config[1..], remote).Ok?
    ensures Updated(config, remote) == Ok(
      if NeedsUpdate(config[0], remote) then [config[0]] + Updated(config[1..], remote).value
      else Updated(config[1..], remote).value)
  {
  }

  /** `getUpdatedFeatureFlags`. */
  function GetUpdatedFeatureFlags(config: seq<Json>, entries: seq<Entry>): Result<seq<Json>, Error>
  {
    var remote :- Decode(entries);
    Updated(config, remote)
  }

  /** `!config.find(...)`: no desired flag has the stored flag's id, or the first that has it is falsy. */
  predicate Unmatched(config: seq<Json>, f: Json)
  {
    Find(config, f).Ok? && !Truthy(Find(config, f).value)
  }

  /** The filter of `getFlagsToDelete`, on the stored flags. */
  function ToDelete(config: seq<Json>, remote: seq<Json>): (r: Result<seq<Json>, Error>)
    ensures r.Ok? <==> forall i :: 0 <= i < |remote| ==> Find(config, remote[i]).Ok?
    ensures r.Err? ==> r.error == TypeError
    ensures r.Ok? ==> forall f :: f in r.value <==> f in remote && Unmatched(config, f)
  {
    if remote == [] then Ok([])
    else
      var found :- Find(config, remote[0]);
      var rest :- ToDelete(config, remote[1..]);
      Ok(if !Truthy(found) then [remote[0]] + rest else rest)
  }

  /** The filter on a non-empty listing: its first flag is kept exactly when it is unmatched. */
  lemma ToDeleteFirst(config: seq<Json>, remote: seq<Json>)
    requires remote != [] && Find(config, remote[0]).Ok? && ToDelete(config, remote[1..]).Ok?
    ensures ToDelete(config, remote) == Ok(
      if Unmatched(config, remote[0]) then [remote[0]] + ToDelete(config, remote[1..]).value
      else ToDelete(config, remote[1..]).value)
  {
  }

  /** The filter keeps the listing's order: it distributes over concatenation. */
  lemma {:induction false} ToDeleteAppend(config: seq<Json>, a: seq<Json>, b: seq<Json>)
    requires ToDelete(config, a).Ok? && ToDelete(config, b).Ok?
    ensures ToDelete(config, a + b) == Ok(ToDelete(config, a).value + ToDelete(config, b).value)
  {
    if a == [] {
      assert a + b == b;
      assert ToDelete(config, a) == Ok([]);
      assert [] + ToDelete(config, b).value == ToDelete(config, b).value;
    } else {
      var ab := a + b;
      assert ab[0] == a[0] && ab[1..] == a[1..] + b;
      assert Find(config, a[0]).Ok? && ToDelete(config, a[1..]).Ok?;
      ToDeleteAppend(config, a[1..], b);
      var ra, rb := ToDelete(config, a[1..]).value, ToDelete(config, b).value;
      ToDeleteFirst(config, a);
      ToDeleteFirst(config, ab);
      if Unmatched(config, a[0]) {
        assert ToDelete(config, a) == Ok([a[0]] + ra);
        assert ToDelete(config, ab) == Ok([a[0]] + (ra + rb));
        Appended([a[0]], ra, rb);
      } else {
        assert ToDelete(config, a) == Ok(ra);
        assert ToDelete(config, ab) == Ok(ra + rb);
      }
    }
  }

  /**
   * A falsy flag found by `find` counts as no match: `!existingFeatureFlag` and
   * `!config.find(...)` test truthiness. `false` and `{}` both lack an `id`, so
   * each matches the other's `undefined` id.
   */
  lemma FalsyMatchCountsAsMissing()
    ensures Updated([Bool(false)], [Bool(false)]) == Ok([Bool(false)])
    ensures ToDelete([Num(0)], [Obj(map[])]) == Ok([Obj(map[])])
  {
    assert IdOf(Bool(false)) == None && IdOf(Num(0)) == None && IdOf(Obj(map[])) == None;
    assert [Bool(false)][1..] == [] && [Obj(map[])][1..] == [];
    assert Find([Bool(false)], Bool(false)) == Ok(Some(Bool(false)));
    assert Find([Num(0)], Obj(map[])) == Ok(Some(Num(0)));
    assert [Bool(false)] + [] == [Bool(false)] && [Obj(map[])] + [] == [Obj(map[])];
  }

  /** `getFlagsToDelete`. */
  function GetFlagsToDelete(config: seq<Json>, entries: seq<Entry>): Result<seq<Json>, Error>
  {
    var remote :- Decode(entries);
    ToDelete(config, remote)
  }

  /** No flag is both written and deleted: a flag to delete shares its id with no desired flag. */
  lemma WrittenAndDeletedDisjoint(config: seq<Json>, remote: seq<Json>, c: Json, d: Json)
    requires ToDelete(config, remote).Ok? && d in ToDelete(config, remote).value
    requires forall i :: 0 <= i < |config| ==> IdOf(config[i]).Some?
    requires c in config
    ensures !SameId(c, d)
  {
  }

  /** With no desired flags, every stored flag is to be deleted (strict sync empties the label). */
  lemma EmptyConfigDeletesAll(remote: seq<Json>)
    ensures ToDelete([], remote) == Ok(remote)
  {
    if remote != [] {
      EmptyConfigDeletesAll(remote[1..]);
      assert [remote[0]] + remote[1..] == remote;
    }
  }

  // ---------------------------------------------------------------------------
  // The requests of a run
  // ---------------------------------------------------------------------------

  /** `encodeURIComponent(input.label)` of a label that may be `undefined`. */
  function LabelText(labelName: Option<string>): string
  {
    if labelName.None? then "undefined" else labelName.value
  }

  /** The index of the first `null` flag, or the length when there is none. */
  function FirstNull(flags: seq<Json>): (n: nat)
    ensures n <= |flags|
    ensures forall i :: 0 <= i < n ==> !flags[i].Null?
    ensures n < |flags| ==> flags[n].Null?
  {
    if flags == [] || flags[0].Null? then 0 else 1 + FirstNull(flags[1..])
  }

  function PutRequests(labelName: string, flags: seq<Json>): (reqs: seq<Request>)
    ensures |reqs| == |flags|
    ensures forall i :: 0 <= i < |flags| ==> reqs[i] == PutRequest(labelName, Key(flags[i]), flags[i])
  {
    seq(|flags|, i requires 0 <= i < |flags| => PutRequest(labelName, Key(flags[i]), flags[i]))
  }

  function DeleteRequests(labelName: string, flags: seq<Json>): (reqs: seq<Request>)
    ensures |reqs| == |flags|
    ensures forall i :: 0 <= i < |flags| ==> reqs[i] == DeleteRequest(labelName, Key(flags[i]))
  {
    seq(|flags|, i requires 0 <= i < |flags| => DeleteRequest(labelName, Key(flags[i])))
  }

  /** The records after the server answered each request in turn. */
  function ApplyAll(records: Records, reqs: seq<Request>, respond: Request -> Response): Records
  {
    if reqs == [] then records
    else
      var last := reqs[|reqs| - 1];
      Apply(ApplyAll(records, reqs[..|reqs| - 1], respond), last, respond(last))
  }

  /** The error of the first failing request, in order. */
  function FirstFailure(reqs: seq<Request>, respond: Request -> Response): (e: Option<Error>)
    ensures e.None? <==> forall i :: 0 <= i < |reqs| ==> !Failed(respond(reqs[i]))
    ensures e.Some? ==> e.value.ApiError?
  {
    if reqs == [] then None
    else
      var last := reqs[|reqs| - 1];
      var earlier := FirstFailure(reqs[..|reqs| - 1], respond);
      if earlier.Some? then earlier
      else if Failed(respond(last)) then Some(ErrorOf(last, respond(last)))
      else None
  }

  /** What a run leaves behind: the records, the requests it issued, and how it ended. */
  datatype Outcome = Outcome(records: Records, requests: seq<Request>, result: Result<(), Error>)

  /** How a batch of requests started together ends: TypeError at a `null` flag, else the first failure. */
  function BatchResult(flags: seq<Json>, reqs: seq<Request>, respond: Request -> Response): Result<(), Error>
  {
    if FirstNull(flags) < |flags| then Err(TypeError)
    else if FirstFailure(reqs, respond).Some? then Err(FirstFailure(reqs, respond).value)
    else Ok(())
  }

  /**
   * `updateFeatureFlags`, given the records before the run and the listing
   * the server returned (whose order the server chooses).
   */
  function Run(records: Records, labelName: string, respond: Request -> Response, strictSync: bool,
               config: seq<Json>, listed: seq<Entry>): Outcome
  {
    var list := ListRequest(labelName);
    if Failed(respond(list)) then Outcome(records, [list], Err(ErrorOf(list, respond(list))))
    else match GetUpdatedFeatureFlags(config, listed)
      case Err(e) => Outcome(records, [list], Err(e))
      case Ok(updated) =>
        var out := Write(records, labelName, respond, strictSync, config, listed, updated);
        Outcome(out.records, [list] + out.requests, out.result)
  }

  /** The rest of a run once the flags to write are known: the writes, then the strict-sync deletes. */
  function Write(records: Records, labelName: string, respond: Request -> Response, strictSync: bool,
                 config: seq<Json>, listed: seq<Entry>, updated: seq<Json>): Outcome
  {
    var puts := PutRequests(labelName, updated[..FirstNull(updated)]);
    var afterPuts := ApplyAll(records, puts, respond);
    var written := BatchResult(updated, puts, respond);
    if written.Err? || !strictSync then Outcome(afterPuts, puts, written)
    else
      var deleted := Delete(afterPuts, labelName, respond, config, listed);
      Outcome(deleted.records, puts + deleted.requests, deleted.result)
  }

  /** The strict-sync deletes: every remote flag the configuration no longer has. */
  function Delete(records: Records, labelName: string, respond: Request -> Response,
                  config: seq<Json>, listed: seq<Entry>): Outcome
  {
    match GetFlagsToDelete(config, listed)
    case Err(e) => Outcome(records, [], Err(e))
    case Ok(doomed) =>
      var deletes := DeleteRequests(labelName, doomed[..FirstNull(doomed)]);
      Outcome(ApplyAll(records, deletes, respond), deletes, BatchResult(doomed, deletes, respond))
  }

  // ---------------------------------------------------------------------------
  // updateFeatureFlags
  // ---------------------------------------------------------------------------

  lemma ApplyAllSnoc(records: Records, reqs: seq<Request>, req: Request, respond: Request -> Response)
    ensures ApplyAll(records, reqs + [req], respond) == Apply(ApplyAll(records, reqs, respond), req, respond(req))
    ensures FirstFailure(reqs + [req], respond) ==
      if FirstFailure(reqs, respond).Some? then FirstFailure(reqs, respond)
      else if Failed(respond(req)) then Some(ErrorOf(req, respond(req))) else None
  {
    assert (reqs + [req])[..|reqs|] == reqs;
  }


  /** One more flag written extends the requests by its put. */
  lemma PutRequestsSnoc(labelName: string, flags: seq<Json>, i: nat)
    requires i < |flags|
    ensures PutRequests(labelName, flags[..i + 1]) == PutRequests(labelName, flags[..i]) + [PutRequest(labelName, Key(flags[i]), flags[i])]
  {
  }

  /** One more flag deleted extends the requests by its delete. */
  lemma DeleteRequestsSnoc(labelName: string, flags: seq<Json>, i: nat)
    requires i < |flags|
    ensures DeleteRequests(labelName, flags[..i + 1]) == DeleteRequests(labelName, flags[..i]) + [DeleteRequest(labelName, Key(flags[i]))]
  {
  }

  /** A flag before the first `null` is not the last one before it. */
  lemma FirstNullStep(flags: seq<Json>, i: nat)
    requires i <= FirstNull(flags) && i < |flags| && !flags[i].Null?
    ensures i + 1 <= FirstNull(flags)
  {
  }

  /** How a batch ends once every request up to the first `null` flag was sent. */
  lemma BatchEnds(flags: seq<Json>, i: nat, sent: seq<Request>, failure: Option<Error>, respond: Request -> Response)
    requires i <= FirstNull(flags)
    requires i == |flags| || flags[i].Null?
    requires failure == FirstFailure(sent, respond)
    ensures i == FirstNull(flags)
    ensures BatchResult(flags, sent, respond) ==
      if i < |flags| then Err(TypeError) else if failure.Some? then Err(failure.value) else Ok(())
  {
  }

  /** One write of the batch: the request is sent and logged, and its failure is kept if it is the first. */
  method PutNext(store: FlagStore, labelName: string, flag: Json, failure: Option<Error>,
                 ghost start: Records, ghost log: seq<Request>, ghost sent: seq<Request>)
    returns (failure': Option<Error>)
    requires store.records == ApplyAll(start, sent, store.respond) && store.requests == log + sent
    requires failure == FirstFailure(sent, store.respond)
    modifies store
    ensures var request := PutRequest(labelName, Key(flag), flag);
      && store.records == ApplyAll(start, sent + [request], store.respond)
      && store.requests == log + (sent + [request])
      && failure' == FirstFailure(sent + [request], store.respond)
  {
    var request := PutRequest(labelName, Key(flag), flag);
    ApplyAllSnoc(start, sent, request, store.respond);
    Appended(log, sent, [request]);
    var result := store.Put(labelName, Key(flag), flag);
    failure' := failure;
    if result.Err? && failure.None? {
      failure' := Some(result.error);
    }
  }

  /** `Promise.all(flags.map(f => createOrUpdateFeatureFlag(...)))`. */
  method PutAll(store: FlagStore, labelName: string, flags: seq<Json>) returns (r: Result<(), Error>)
    modifies store
    ensures var puts := PutRequests(labelName, flags[..FirstNull(flags)]);
      && store.records == ApplyAll(old(store.records), puts, store.respond)
      && store.requests == old(store.requests) + puts
      && r == BatchResult(flags, puts, store.respond)
  {
    ghost var start := store.records;
    ghost var log := store.requests;
    ghost var sent: seq<Request> := [];
    var failure: Option<Error> := None;
    var i := 0;
    while i < |flags| && !flags[i].Null?
      invariant i <= FirstNull(flags)
      invariant sent == PutRequests(labelName, flags[..i])
      invariant store.records == ApplyAll(start, sent, store.respond)
      invariant store.requests == log + sent
      invariant failure == FirstFailure(sent, store.respond)
    {
      PutRequestsSnoc(labelName, flags, i);
      FirstNullStep(flags, i);
      var request := PutRequest(labelName, Key(flags[i]), flags[i]);
      failure := PutNext(store, labelName, flags[i], failure, start, log, sent);
      sent := sent + [request];
      i := i + 1;
    }
    BatchEnds(flags, i, sent, failure, store.respond);
    if i < |flags| {
      return Err(TypeError);
    }
    if failure.Some? {
      return Err(failure.value);
    }
    return Ok(());
  }

  /** One delete of the batch: the request is sent and logged, and its failure is kept if it is the first. */
  method DeleteNext(store: FlagStore, labelName: string, flag: Json, failure: Option<Error>,
                    ghost start: Records, ghost log: seq<Request>, ghost sent: seq<Request>)
    returns (failure': Option<Error>)
    requires store.records == ApplyAll(start, sent, store.respond) && store.requests == log + sent
    requires failure == FirstFailure(sent, store.respond)
    modifies store
    ensures var request := DeleteRequest(labelName, Key(flag));
      && store.records == ApplyAll(start, sent + [request], store.respond)
      && store.requests == log + (sent + [request])
      && failure' == FirstFailure(sent + [request], store.respond)
  {
    var request := DeleteRequest(labelName, Key(flag));
    ApplyAllSnoc(start, sent, request, store.respond);
    Appended(log, sent, [request]);
    var result := store.Delete(labelName, Key(flag));
    failure' := failure;
    if result.Err? && failure.None? {
      failure' := Some(result.error);
    }
  }

  /** `Promise.all(flags.map(f => deleteFeatureFlag(...)))`. */
  method DeleteAll(store: FlagStore, labelName: string, flags: seq<Json>) returns (r: Result<(), Error>)
    modifies store
    ensures var deletes := DeleteRequests(labelName, flags[..FirstNull(flags)]);
      && store.records == ApplyAll(old(store.records), deletes, store.respond)
      && store.requests == old(store.requests) + deletes
      && r == BatchResult(flags, deletes, store.respond)
  {
    ghost var start := store.records;
    ghost var log := store.requests;
    ghost var sent: seq<Request> := [];
    var failure: Option<Error> := None;
    var i := 0;
    while i < |flags| && !flags[i].Null?
      invariant i <= FirstNull(flags)
      invariant sent == DeleteRequests(labelName, flags[..i])
      invariant store.records == ApplyAll(start, sent, store.respond)
      invariant store.requests == log + sent
      invariant failure == FirstFailure(sent, store.respond)
    {
      DeleteRequestsSnoc(labelName, flags, i);
      FirstNullStep(flags, i);
      var request := DeleteRequest(labelName, Key(flags[i]));
      failure := DeleteNext(store, labelName, flags[i], failure, start, log, sent);
      sent := sent + [request];
      i := i + 1;
    }
    BatchEnds(flags, i, sent, failure, store.respond);
    if i < |flags| {
      return Err(TypeError);
    }
    if failure.Some? {
      return Err(failure.value);
    }
    return Ok(());
  }

  /** The strict-sync part of `updateFeatureFlags`: find the flags to delete and delete them. */
  method DeleteChanges(store: FlagStore, labelName: string, config: seq<Json>, listed: seq<Entry>)
    returns (r: Result<(), Error>)
    modifies store
    ensures store.records == Delete(old(store.records), labelName, store.respond, config, listed).records
    ensures store.requests == old(store.requests) + Delete(old(store.records), labelName, store.respond, config, listed).requests
    ensures r == Delete(old(store.records), labelName, store.respond, config, listed).result
  {
    var toDelete := GetFlagsToDelete(config, listed);
    if toDelete.Err? {
      return Err(toDelete.error);
    }
    r := DeleteAll(store, labelName, toDelete.value);
  }

  /** The part of `updateFeatureFlags` after the comparison: the writes, then the strict-sync deletes. */
  method WriteChanges(store: FlagStore, labelName: string, strictSync: bool, config: seq<Json>,
                      listed: seq<Entry>, updated: seq<Json>)
    returns (r: Result<(), Error>)
    modifies store
    ensures store.records == Write(old(store.records), labelName, store.respond, strictSync, config, listed, updated).records
    ensures store.requests == old(store.requests) + Write(old(store.records), labelName, store.respond, strictSync, config, listed, updated).requests
    ensures r == Write(old(store.records), labelName, store.respond, strictSync, config, listed, updated).result
  {
    ghost var puts := PutRequests(labelName, updated[..FirstNull(updated)]);
    ghost var log := store.requests;
    r := PutAll(store, labelName, updated);
    if r.Err? || !strictSync {
      return;
    }
    ghost var deleted := Delete(store.records, labelName, store.respond, config, listed);
    r := DeleteChanges(store, labelName, config, listed);
    Appended(log, puts, deleted.requests);
  }

  /** `updateFeatureFlags` on the store. */
  method UpdateFeatureFlags(store: FlagStore, input: ActionInput.Input, config: seq<Json>)
    returns (r: Result<(), Error>, ghost listed: seq<Entry>)
    modifies store
    ensures !Failed(store.respond(ListRequest(LabelText(input.labelName)))) ==>
      Listing(listed, old(store.records), LabelText(input.labelName))
    ensures store.records == Run(old(store.records), LabelText(input.labelName), store.respond, input.strictSync, config, listed).records
    ensures store.requests == old(store.requests) + Run(old(store.records), LabelText(input.labelName), store.respond, input.strictSync, config, listed).requests
    ensures r == Run(old(store.records), LabelText(input.labelName), store.respond, input.strictSync, config, listed).result
  {
    var labelName := LabelText(input.labelName);
    ghost var log := store.requests;
    var listing := store.List(labelName);
    if listing.Err? {
      return Err(listing.error), [];
    }
    listed := listing.value;
    var updated := GetUpdatedFeatureFlags(config, listing.value);
    if updated.Err? {
      return Err(updated.error), listed;
    }
    ghost var out := Write(old(store.records), labelName, store.respond, input.strictSync, config, listed, updated.value);
    r := WriteChanges(store, labelName, input.strictSync, config, listing.value, updated.value);
    Appended(log, [ListRequest(labelName)], out.requests);
  }
}
