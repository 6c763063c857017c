/**
 * The App Configuration store as the update sees it through its three REST
 * calls: list the flags under a label, create or update one flag, delete one
 * flag. The store is an object whose records the calls change in place; the
 * server's answer is a parameter of the store (`respond`), a function from
 * request to response, so every way of answering each request is covered,
 * though not a server that answers the same request differently at different
 * times; the requests issued are kept in order.
 */
module FeatureFlagClient {
  import opened Wrappers
  import opened Strings
  import opened Json
  import opened Errors

  /** Where a flag lives: its label and its id (the key is `.appconfig.featureflag/` followed by the id). */
  datatype StoreKey = StoreKey(labelName: string, id: string)

  /** What the store holds for a key: the flag's text as `JSON.parse` reads it, or no value at all. */
  type Records = map<StoreKey, Option<Parse>>

  /** One item of a listing: the flag id its key names and its value, if any. */
  datatype Entry = Entry(id: string, value: Option<Parse>)

  datatype Request =
    | ListRequest(labelName: string)
    | PutRequest(labelName: string, id: string, flag: Json)
    | DeleteRequest(labelName: string, id: string)

  datatype Response = Response(status: int, statusText: string, data: string)

  /** Every call treats a status of 400 or more as a failure. */
  predicate Failed(response: Response)
  {
    response.status >= 400
  }

  /** The ApiError each call throws on a failed response. */
  function ErrorOf(request: Request, response: Response): (e: Error)
    ensures e.ApiError?
  {
    var status := IntToString(response.status) + " - " + response.statusText;
    match request
    case ListRequest(_) => ApiError("Failed to list feature flags: " + status)
    case PutRequest(_, _, _) => ApiError("Failed to create or update feature flag: " + status)
    case DeleteRequest(_, _) => ApiError("Failed to delete feature flag: " + status + " - " + response.data)
  }

  /** The record a request writes or removes; a listing touches none. */
  function KeyOf(request: Request): Option<StoreKey>
  {
    match request
    case ListRequest(_) => None
    case PutRequest(labelName, id, _) => Some(StoreKey(labelName, id))
    case DeleteRequest(labelName, id) => Some(StoreKey(labelName, id))
  }

  /**
   * The records after the server answered `request` with `response`: a
   * successful put stores the flag (its `JSON.stringify` text, which parses
   * back to the same value), a successful delete removes the key, and a
   * failed request changes nothing.
   */
  function Apply(records: Records, request: Request, response: Response): (r: Records)
    ensures forall k :: Some(k) != KeyOf(request) ==> (k in r <==> k in records) && (k in r ==> r[k] == records[k])
    ensures !Failed(response) && request.PutRequest? ==>
      StoreKey(request.labelName, request.id) in r && r[StoreKey(request.labelName, request.id)] == Some(Parsed(request.flag))
    ensures !Failed(response) && request.DeleteRequest? ==> StoreKey(request.labelName, request.id) !in r
    ensures Failed(response) ==> r == records
  {
    if Failed(response) then records
    else match request
      case ListRequest(_) => records
      case PutRequest(labelName, id, flag) => records[StoreKey(labelName, id) := Some(Parsed(flag))]
      case DeleteRequest(labelName, id) => records - {StoreKey(labelName, id)}
  }

  /**
   * `entries` is a listing of the records under the label: every such record
   * exactly once, in whatever order the server chose.
   */
  ghost predicate Listing(entries: seq<Entry>, records: Records, labelName: string)
  {
    && (forall i, j :: 0 <= i < j < |entries| ==> entries[i].id != entries[j].id)
    && (forall i :: 0 <= i < |entries| ==>
          StoreKey(labelName, entries[i].id) in records && records[StoreKey(labelName, entries[i].id)] == entries[i].value)
    && (forall k :: k in records && k.labelName == labelName ==> exists i :: 0 <= i < |entries| && entries[i].id == k.id)
  }

  /**
   * Part way through a listing: `entries` lists, once each, the records under
   * the label that are no longer `pending`.
   */
  ghost predicate Collected(entries: seq<Entry>, pending: set<StoreKey>, records: Records, labelName: string)
  {
    && (forall k :: k in pending ==> k in records && k.labelName == labelName)
    && (forall i :: 0 <= i < |entries| ==>
          && StoreKey(labelName, entries[i].id) in records
          && records[StoreKey(labelName, entries[i].id)] == entries[i].value
          && StoreKey(labelName, entries[i].id) !in pending)
    && (forall i, j :: 0 <= i < j < |entries| ==> entries[i].id != entries[j].id)
    && (forall k :: k in records && k.labelName == labelName ==>
          k in pending || exists i :: 0 <= i < |entries| && entries[i].id == k.id)
  }

  /** Moving one pending record into the listing keeps the listing collected. */
  lemma CollectOne(entries: seq<Entry>, pending: set<StoreKey>, records: Records, labelName: string, k: StoreKey)
    requires Collected(entries, pending, records, labelName) && k in pending
    ensures Collected(entries + [Entry(k.id, records[k])], pending - {k}, records, labelName)
  {
    assert k == StoreKey(labelName, k.id);
    var listed := entries + [Entry(k.id, records[k])];
    forall other | other in records && other.labelName == labelName && other !in pending - {k}
      ensures exists i :: 0 <= i < |listed| && listed[i].id == other.id
    {
      if other == k {
        assert listed[|entries|].id == other.id;
      } else {
        var i :| 0 <= i < |entries| && entries[i].id == other.id;
        assert listed[i].id == other.id;
      }
    }
  }

  /** Once nothing is pending, the entries are a listing of the label. */
  lemma CollectedAll(entries: seq<Entry>, records: Records, labelName: string)
    requires Collected(entries, {}, records, labelName)
    ensures Listing(entries, records, labelName)
  {
  }

  class FlagStore {
    var records: Records
    var requests: seq<Request>
    const respond: Request -> Response

    constructor (initial: Records, respond: Request -> Response)
      ensures records == initial && requests == [] && this.respond == respond
    {
      records := initial;
      requests := [];
      this.respond := respond;
    }

    /** `listFeatureFlags`: the flags under the label, or an ApiError for a failed response. */
    method List(labelName: string) returns (r: Result<seq<Entry>, Error>)
      modifies this
      ensures records == old(records) && requests == old(requests) + [ListRequest(labelName)]
      ensures Failed(respond(ListRequest(labelName))) ==> r == Err(ErrorOf(ListRequest(labelName), respond(ListRequest(labelName))))
      ensures !Failed(respond(ListRequest(labelName))) ==> r.Ok? && Listing(r.value, records, labelName)
    {
      var request := ListRequest(labelName);
      requests := requests + [request];
      var response := respond(request);
      if Failed(response) {
        return Err(ErrorOf(request, response));
      }
      var pending := set k | k in records && k.labelName == labelName;
      var entries: seq<Entry> := [];
      while pending != {}
        invariant records == old(records) && requests == old(requests) + [request]
        invariant Collected(entries, pending, records, labelName)
        decreases |pending|
      {
        var k :| k in pending;
        CollectOne(entries, pending, records, labelName, k);
        entries := entries + [Entry(k.id, records[k])];
        pending := pending - {k};
      }
      CollectedAll(entries, records, labelName);
      return Ok(entries);
    }

    /** `createOrUpdateFeatureFlag`: store `flag` under `id`, or an ApiError for a failed response. */
    method Put(labelName: string, id: string, flag: Json) returns (r: Result<(), Error>)
      modifies this
      ensures requests == old(requests) + [PutRequest(labelName, id, flag)]
      ensures records == Apply(old(records), PutRequest(labelName, id, flag), respond(PutRequest(labelName, id, flag)))
      ensures r == if Failed(respond(PutRequest(labelName, id, flag)))
                   then Err(ErrorOf(PutRequest(labelName, id, flag), respond(PutRequest(labelName, id, flag))))
                   else Ok(())
    {
      var request := PutRequest(labelName, id, flag);
      requests := requests + [request];
      var response := respond(request);
      if Failed(response) {
        return Err(ErrorOf(request, response));
      }
      records := records[StoreKey(labelName, id) := Some(Parsed(flag))];
      return Ok(());
    }

    /** `deleteFeatureFlag`: remove the flag `id`, or an ApiError for a failed response. */
    method Delete(labelName: string, id: string) returns (r: Result<(), Error>)
      modifies this
      ensures requests == old(requests) + [DeleteRequest(labelName, id)]
      ensures records == Apply(old(records), DeleteRequest(labelName, id), respond(DeleteRequest(labelName, id)))
      ensures r == if Failed(respond(DeleteRequest(labelName, id)))
                   then Err(ErrorOf(DeleteRequest(labelName, id), respond(DeleteRequest(labelName, id))))
                   else Ok(())
    {
      var request := DeleteRequest(labelName, id);
      requests := requests + [request];
      var response := respond(request);
      if Failed(response) {
        return Err(ErrorOf(request, response));
      }
      records := records - {StoreKey(labelName, id)};
      return Ok(());
    }
  }
}
