# Deploying feature flags to Azure App Configuration, in Dafny

This project models the core of the GitHub Action that deploys feature flags to Azure App Configuration. The Action:

- reads its inputs (`path`, `strict`, `app-configuration-endpoint`, `operation`);
- loads and merges the feature-flag configuration files matched by the `path` glob patterns;
- validates the merged flags: ids present and unique, a `default_when_enabled` for every flag, and allocations that name existing variants only;
- lists the flags stored under the label;
- writes every flag that is missing or different, judging "different" with `deepEqualCheck`;
- with strict sync, deletes the stored flags the configuration does not mention.

Flags are JSON values with the JavaScript semantics the code relies on:

- reading a property of `null` throws a TypeError;
- `?.` yields `undefined`;
- truthiness, `String(...)` and template interpolation are modelled;
- `===` between parsed values compares primitives by value and never identifies two objects.

The store of App Configuration is a class (`FeatureFlagClient.FlagStore`):

- its records are a map from (label, id) to the stored text as `JSON.parse` reads it;
- it keeps the log of requests issued;
- the server's answer is a parameter, a function from request to response, so every way of answering each request once is covered. A server that answers the same request differently at different times is not covered.

`FeatureFlagUpdate.UpdateFeatureFlags` runs on that store. Its `ensures` ties the final records, the request log and the result to a pure specification, `FeatureFlagUpdate.Run`. The module `UpdateProperties` proves what `Run` achieves:

- **Convergence:** after a successful run, every desired flag is stored under its id with a deep-equal value.
- **Other labels:** records under other labels are untouched.
- **Strict sync:** nothing else is left under the label.
- **Without strict sync:** every other record is as it was.
- **Second run:** a run over the result writes nothing.
- **Request order:** deletes happen only with strict sync, only after every write went through, and always after all writes.
- **Errors:** with well-formed data, the only errors are the store's ApiErrors.

Modules, one per file:

- `Wrappers` (`Option`, `Result`);
- `Errors`;
- `Strings` (split, join, trim, lower-case, decimal rendering);
- `Json`;
- `Utils` (`deepEqualCheck`);
- `ConfigLoader`;
- `ActionInput`;
- `FeatureFlagClient`;
- `FeatureFlagUpdate`;
- `UpdateProperties`.

## Model

| member | source | states |
|---|---|---|
| Utils.DeepEqualSymmetric | src/utils.ts:1-29 | `deepEqualCheck(a, b)` and `deepEqualCheck(b, a)` always agree |
| Utils.DeepEqualImpliesSwapped | src/utils.ts:15-26 | if `a` deep-equals `b`, then `b` deep-equals `a`; the proof runs through the key-count check and the loop over the keys |
| Utils.DeepEqualPrimitive | src/utils.ts:2-13 | when either side is not an object or array, the result is strict equality of the values |
| Utils.DeepEqualKeyCount | src/utils.ts:15-20 | objects or arrays with different numbers of own keys are never equal |
| Utils.DeepEqualObjects | src/utils.ts:15-28 | two objects or arrays are equal iff they have as many own keys and every key of the first is a key of the second with a deep-equal value |
| Utils.DeepEqualMaps | src/utils.ts:15-28 | two JSON objects are equal iff they have the same key set and deep-equal values key by key |
| Utils.DeepEqualArrays | src/utils.ts:15-28 | two arrays are equal iff they have the same length and deep-equal elements |
| Utils.StructuralComparisonReflexive | src/utils.ts:2-4 | a value passes the structural comparison against itself, so the `===` fast path never changes the answer |
| Utils.DeepEqualAlongPaths | src/utils.ts:22-26 | deep-equal values have deep-equal values at every property path of the first |
| Utils.ArrayMatchesIndexObject | src/utils.ts:15-16 | an array and an object with the same index keys compare equal: `Object.keys` makes no difference between them |
| Utils.StructurallyEqualOnKeys | src/utils.ts:22-26 | the key loop succeeds iff every own key of the first value is a key of the second with a deep-equal value |
| Utils.OwnKeysCount | src/utils.ts:15-18 | `Object.keys(v).length` counts exactly the own keys of `v`, index keys included |
| Strings.Split | src/config-loader.ts:22 | `split('\n')` yields at least one part, none holding the separator |
| Strings.SplitOfJoin | src/config-loader.ts:22-25 | splitting what was joined with a separator gives back the parts when no part holds the separator |
| Strings.JoinOfSplit | src/config-loader.ts:22-25 | joining the parts of a split with its separator gives back the string |
| Strings.TrimSlice | src/config-loader.ts:23 | `trim()` keeps one contiguous slice of the line, with only white space before and after it and none at its ends |
| Strings.TrimStart | src/config-loader.ts:23 | a suffix of the input, with only white space removed before it |
| Strings.TrimEnd | src/config-loader.ts:23 | a prefix of the input, with only white space removed after it |
| Strings.ToLower | src/input.ts:68 | `toLowerCase()` keeps the length, maps each character and leaves no upper-case ASCII letter |
| ConfigLoader.NegationGapDropped | src/config-loader.ts:23 | a line starting with "!" has the white space after the "!" removed and the rest trimmed |
| ConfigLoader.IndentedNegationKeepsGap | src/config-loader.ts:23 | the `^!\s+` rewrite runs before `trim()`, so " ! x" becomes "! x" and keeps its gap |
| ConfigLoader.TrimEndAfter | src/config-loader.ts:23 | trimming the end of "!" followed by text trims only the text |
| ConfigLoader.NonEmptyNormalizedAppend | src/config-loader.ts:23-24 | normalising and dropping empty lines distributes over concatenation |
| ConfigLoader.NormalizeLineShape | src/config-loader.ts:23 | a normalised line is trimmed and holds no line break |
| ConfigLoader.NonEmptyNormalizedShape | src/config-loader.ts:23-24 | every kept pattern line is non-empty and trimmed |
| ConfigLoader.PatternsRoundTrip | src/config-loader.ts:21-25 | splitting the joined patterns again gives back exactly the normalised, non-empty lines |
| ConfigLoader.CheckFile | src/config-loader.ts:38-49 | an unparsable file fails with ParseError "Failed to parse: <file>."; a file the schema rejects fails with the schema ValidationError message |
| ConfigLoader.CheckFiles | src/config-loader.ts:38-51 | all files pass iff each passes; otherwise the error is a ParseError or a ValidationError |
| ConfigLoader.MergeFlagsAppend | src/config-loader.ts:55-58 | merging distributes over the list of files, so the merged flags keep file order |
| ConfigLoader.MergeFlagsOfArrays | src/config-loader.ts:55-58 | when every file holds an array of flags, the merge is their concatenation: position by position the flags of the arrays one after another, and its length is the sum |
| ConfigLoader.LoadConfigFilesOutcome | src/config-loader.ts:16-59 | no matching file gives ArgumentError "No configuration files found"; otherwise the result is Ok iff every file parses and passes the schema, and then it is the merge of the files' flags in order |
| ConfigLoader.CheckIds | src/config-loader.ts:62-72 | passes iff every flag is non-null with a truthy id; null gives TypeError, a falsy id gives ValidationError "Feature flag id is missing" |
| ConfigLoader.CheckIdsFirstFailure | src/config-loader.ts:62-72 | the reduce stops at the first flag without an id, whatever follows |
| ConfigLoader.CheckIdsSnoc | src/config-loader.ts:62-72 | checking one more flag extends the result or reports that flag's failure |
| ConfigLoader.CheckIdsPresent | src/config-loader.ts:62-72 | the ids check passes exactly on the flags that are present, and hands them on unchanged |
| ConfigLoader.Keys | src/config-loader.ts:67-68 | one counting name per flag, `String(id)`, in order |
| ConfigLoader.PrototypeIdsEscapeDuplicateCheck | src/config-loader.ts:62-76 | two flags with the id "constructor" are not unique; the filter as written lists neither, while the corrected one lists both |
| ConfigLoader.DuplicatesIffNotUnique | src/config-loader.ts:74-83 | the duplicate list is empty iff no two flags share an id |
| ConfigLoader.DuplicatesInEmpty | src/config-loader.ts:74-76 | the filter keeps nothing iff every name is counted at most once |
| ConfigLoader.DistinctCounts | src/config-loader.ts:62-72 | distinct names are each counted once |
| ConfigLoader.TwoOccurrences | src/config-loader.ts:62-72 | a name occurring at two positions is counted at least twice |
| ConfigLoader.DuplicatesInCounts | src/config-loader.ts:74-76 | the filter keeps, for each name, all of its occurrences or none |
| ConfigLoader.DuplicatesListEveryOccurrence | src/config-loader.ts:74-80 | the message lists each duplicated id as often as it occurs, and an id occurring once not at all |
| ConfigLoader.DuplicatesInAppend | src/config-loader.ts:74-76 | the duplicate list keeps the order of the merged flags |
| ConfigLoader.NoAllocationNoDefault | src/config-loader.ts:89 | a flag without `allocation` has no `default_when_enabled` |
| ConfigLoader.DefaultEntry | src/config-loader.ts:88-98 | an entry is produced iff `allocation?.default_when_enabled` is falsy, and it is "Feature flag <id> is missing default_when_enabled" |
| ConfigLoader.PassingEntryLeavesSeparator | src/config-loader.ts:103 | a passing flag's `undefined` message still takes its place in the ", "-joined list, so an empty entry and its separator appear |
| ConfigLoader.MapMember | src/config-loader.ts:109-111 | `x?.map(v => v.name) \|\| []`: `[]` on a nullish value, a TypeError on a value that is not an array or on a null element, and otherwise the member of each element |
| ConfigLoader.InvalidRefs | src/config-loader.ts:119-121 | keeps a referenced variant iff no variant name strictly equals it, every such reference included; nothing is kept iff all resolve |
| ConfigLoader.InvalidRefsAppend | src/config-loader.ts:119-121 | the filter keeps the references' order and repeats: it distributes over concatenation |
| ConfigLoader.AllocationEntry | src/config-loader.ts:107-132 | percentile variants, then `default_when_enabled`, then `default_when_disabled` when truthy, are checked against the variant names; a missing one gives "Feature flag <id> has allocation to non-existing variants: <list>" |
| ConfigLoader.MisallocatedFlagShape | __tests__/config-loader.test.ts:63-72 | the example flag's variant names and references are as the test describes |
| ConfigLoader.NamesOfTwo | src/config-loader.ts:109 | the names of two variants are read in order |
| ConfigLoader.MisallocatedFlagInvalidRefs | src/config-loader.ts:119-121 | both percentile references of the example flag name no variant |
| ConfigLoader.MisallocatedFlagRendering | src/config-loader.ts:124 | the missing variants are interpolated joined by "," with no space |
| ConfigLoader.AllocationEntryListsMissingVariants | src/config-loader.ts:124 | the example flag's message names the flag and lists "gpt-4o123,gpt-35123" |
| ConfigLoader.AllocationEntries | src/config-loader.ts:107-132 | one entry per flag; the first TypeError (if any) is reported |
| ConfigLoader.Present | src/config-loader.ts:62-72 | the present flags, one per input, in order |
| ConfigLoader.ValidateSucceedsIff | src/config-loader.ts:61-139 | validation passes iff every id is present, ids are unique, every flag has `default_when_enabled`, and every allocation names existing variants |
| ConfigLoader.ValidatePresentIff | src/config-loader.ts:74-139 | on present flags, validation passes iff ids are unique, defaults are present and allocations resolve |
| ConfigLoader.ValidatePresentOk | src/config-loader.ts:74-139 | on present flags, validation passes iff there is no duplicate, no flag lacks its default, the allocation pass throws nothing and reports no entry |
| ConfigLoader.DefaultsPresentIff | src/config-loader.ts:88-105 | no flag lacks `default_when_enabled` iff every flag has it |
| ConfigLoader.NothingReportedIff | src/config-loader.ts:134-138 | the allocation entries report nothing iff every entry is `undefined` |
| ConfigLoader.UnresolvedEntryReported | src/config-loader.ts:107-132 | a flag whose references do not all resolve has its entry reported |
| ConfigLoader.AllocationsResolveIff | src/config-loader.ts:107-138 | the allocation stage passes iff every flag's references resolve |
| ConfigLoader.DuplicateIdsReported | src/config-loader.ts:78-83 | with a shared id, the error is the ArgumentError listing the duplicates, before any other check |
| ConfigLoader.MissingDefaultReported | src/config-loader.ts:100-105 | with unique ids and a flag lacking its default, the error is "Default_when_enabled is required: " and the entries joined by ", " |
| ConfigLoader.CountsStep | src/config-loader.ts:68 | the corrected count of `acc[id] = (acc[id] \|\| 0) + 1`, in a map with no inherited entries, keeps the table equal to the counts of the names seen |
| ConfigLoader.IdFailure | src/config-loader.ts:64-66 | a null flag or a falsy id ends the count with the error the ids check reports |
| ConfigLoader.IdCounted | src/config-loader.ts:64-68 | a flag with an id extends the ids check by one |
| ConfigLoader.CountIds | src/config-loader.ts:62-72 | the counting loop fails exactly like the ids check; on success its table, a map with no inherited entries, holds the exact count of every name (the corrected count) |
| ConfigLoader.ValidateConfigs | src/config-loader.ts:61-139 | the method with the counting loop returns exactly what the validation specification returns |
| ConfigLoader.CountedDuplicatesExact | src/config-loader.ts:74-76 | filtering by the counted table gives the duplicates of the specification |
| ActionInput.RequiredInputString | src/input.ts:49-56 | Ok iff the input is given and non-empty, and then it is its value; otherwise "Required input is missing: <name>" |
| ActionInput.RequiredBooleanInput | src/input.ts:62-76 | true/false iff the lower-cased value is "true"/"false"; a missing input and an invalid lower-cased value give their messages |
| ActionInput.OperationType | src/input.ts:78-92 | deploy when not given; validate or deploy by the lower-cased value; otherwise "Invalid operation: …" |
| ActionInput.RemoveTrailingSlash | src/input.ts:45-47 | the result is the URL or the URL without one final "/" |
| ActionInput.RemoveTrailingSlashDropsOne | src/input.ts:45-47 | exactly one trailing slash is removed, so "x//" becomes "x/" |
| ActionInput.RemoveTrailingSlashKeeps | src/input.ts:45-47 | a URL without a trailing slash is unchanged |
| ActionInput.AppConfigEndpoint | src/input.ts:26-34 | Ok iff given and a valid URL, then without its trailing slash; otherwise "Invalid URL: <value>" or the missing-input error |
| ActionInput.GetActionInputAccepts | src/input.ts:8-24 | the inputs are accepted iff every input the operation reads is valid; validate mode yields strict sync off and an empty endpoint; deploy reads all three; the label is never set |
| ActionInput.ValidateModeIgnoresDeployInputs | src/input.ts:10-17 | in validate mode, `strict` and the endpoint do not affect the result |
| ActionInput.OperationCaseInsensitive | src/input.ts:83 | operations equal up to letter case are treated the same |
| ActionInput.PathReportedFirst | src/input.ts:11-19 | a missing path is the error reported, before `strict` or the endpoint |
| ActionInput.StrictReportedBeforeEndpoint | src/input.ts:19-21 | with the path given, a bad `strict` is reported before the endpoint |
| ActionInput.InvalidBooleanReportedLowerCase | __tests__/input.test.ts:48-56 | "invalidBoolean" is reported in lower case as "Invalid strict value: invalidboolean. …" |
| ActionInput.UpperCaseTrueAccepted | src/input.ts:68-75 | "TRUE" reads as true |
| ActionInput.EndpointTrailingSlashRemoved | __tests__/input.test.ts:66-75 | a deploy with endpoint "https://example.com/" reads it as "https://example.com" |
| Json.OptMember | src/config-loader.ts:110-111 | `v?.name` on `undefined` is `undefined`; on a defined value it is that value's member |
| FeatureFlagClient.ErrorOf | src/feature-flag-client.ts:24-70 | every failed call (list, put, delete) throws an ApiError with status and status text; a failed delete also carries the response data |
| FeatureFlagClient.Apply | src/feature-flag-client.ts:33-71 | a successful put stores the flag under (label, id); a successful delete removes the key; a failure changes nothing; every other key is unchanged |
| FeatureFlagClient.FlagStore.constructor | src/feature-flag-client.ts:15-71 | a store with the given records, an empty request log and the given server |
| FeatureFlagClient.FlagStore.List | src/feature-flag-client.ts:15-31 | logs the request and changes no record; a status of 400 or more gives the list ApiError; otherwise a listing of every record under the label, each once |
| FeatureFlagClient.FlagStore.Put | src/feature-flag-client.ts:33-54 | logs the request, applies it to the records, and fails iff the status is 400 or more |
| FeatureFlagClient.FlagStore.Delete | src/feature-flag-client.ts:56-71 | logs the request, applies it to the records, and fails iff the status is 400 or more |
| FeatureFlagUpdate.DecodeValue | src/update-feature-flags.ts:60-62 | an absent value reads as `{}`; parsed text reads as itself; unparsable text throws SyntaxError |
| FeatureFlagUpdate.Decode | src/update-feature-flags.ts:60-62 | the listing decodes iff no value is unparsable, one flag per item in order |
| FeatureFlagUpdate.Find | src/update-feature-flags.ts:65 | a found flag is in the list with the target's id; not found means no element has it; non-null lists and targets never throw |
| FeatureFlagUpdate.FindFirst | src/update-feature-flags.ts:65 | the found flag is the first with the target's id; `find` throws exactly when a `null` element (or a `null` target) comes before any match |
| FeatureFlagUpdate.Updated | src/update-feature-flags.ts:64-67 | Ok iff every lookup succeeds; then a desired flag is kept iff its stored counterpart is missing, falsy, or not deep-equal to it |
| FeatureFlagUpdate.UpdatedAppend | src/update-feature-flags.ts:64-67 | the filter keeps configuration order |
| FeatureFlagUpdate.ToDelete | src/update-feature-flags.ts:78-80 | Ok iff every lookup succeeds; then a stored flag is kept iff `find` over the desired flags gives nothing or a falsy flag |
| FeatureFlagUpdate.ToDeleteAppend | src/update-feature-flags.ts:78-80 | the filter keeps the listing's order and multiplicity: it distributes over concatenation |
| FeatureFlagUpdate.FalsyMatchCountsAsMissing | src/update-feature-flags.ts:64-80 | a falsy flag returned by `find` is treated as missing: `false` against a stored `false` is written, and a stored `{}` against a desired `0` is deleted |
| FeatureFlagUpdate.WrittenAndDeletedDisjoint | src/update-feature-flags.ts:64-80 | when every desired flag has an id (as validation ensures), no flag to delete shares its id with a desired flag |
| FeatureFlagUpdate.EmptyConfigDeletesAll | src/update-feature-flags.ts:78-80 | with no desired flags, every stored flag is to be deleted |
| FeatureFlagUpdate.FirstNull | src/update-feature-flags.ts:28-35 | the index of the first `null` flag, where reading `.id` throws; all before it are non-null |
| FeatureFlagUpdate.FirstFailure | src/update-feature-flags.ts:37-48 | `Promise.all` fails iff some request failed, always with an ApiError |
| FeatureFlagUpdate.ApplyAllSnoc | src/update-feature-flags.ts:28-37 | one more request applies on top of the earlier ones and keeps the first failure |
| FeatureFlagUpdate.PutNext | src/update-feature-flags.ts:28-35 | one put on the store extends the log and the applied requests by that put, and the first failure by its answer |
| FeatureFlagUpdate.PutAll | src/update-feature-flags.ts:28-37 | issues the puts up to the first null flag, the store applying each; the result is TypeError at a null flag, otherwise the first failure |
| FeatureFlagUpdate.DeleteAll | src/update-feature-flags.ts:45-48 | issues the deletes up to the first null flag, the store applying each; the result is TypeError at a null flag, otherwise the first failure |
| FeatureFlagUpdate.DeleteNext | src/update-feature-flags.ts:45-47 | one delete on the store extends the log and the applied requests by that delete, and the first failure by its answer |
| FeatureFlagUpdate.DeleteChanges | src/update-feature-flags.ts:40-48 | computes the flags to delete, propagating a failed lookup, and deletes them; records, log and result are those of the deletion specification |
| FeatureFlagUpdate.WriteChanges | src/update-feature-flags.ts:28-53 | the writes, then the strict-sync deletes only when the writes succeeded, as the specification describes |
| FeatureFlagUpdate.UpdateFeatureFlags | src/update-feature-flags.ts:15-54 | the listing is a true listing of the label, and the final records, request log and result are those of the specification `Run` |
| UpdateProperties.ApplyAllUntouched | src/feature-flag-client.ts:33-71 | requests that name other keys leave a key's record unchanged |
| UpdateProperties.ApplyAllSettledBy | src/feature-flag-client.ts:33-71 | when every request on a key is the same put or delete, the key ends as that one request leaves it |
| UpdateProperties.RemoteKeyed | src/update-feature-flags.ts:60-62 | a listing of well-keyed records decodes, each flag carrying its key's id and equal to the stored record |
| UpdateProperties.SameKeySameId | src/update-feature-flags.ts:65 | two flags with string ids and the same key strictly match |
| UpdateProperties.UniqueKey | src/config-loader.ts:74-83 | in validated flags, a key names exactly one flag |
| UpdateProperties.DeletedKeysOutsideConfig | src/update-feature-flags.ts:78-80 | no flag to delete has a desired flag's key |
| UpdateProperties.KeyOfStringId | src/update-feature-flags.ts:31 | the key of a flag with a string id is that string |
| UpdateProperties.NotFoundOutsideKeys | src/update-feature-flags.ts:79 | a flag whose id is no desired key matches no desired flag |
| UpdateProperties.RunSucceeded | src/update-feature-flags.ts:15-54 | a successful run listed, wrote every flag that needed it, and (with strict sync only) deleted every flag to delete, each request succeeding |
| UpdateProperties.BatchSucceeded | src/update-feature-flags.ts:28-37 | a batch that succeeded met no null flag and no failed request |
| UpdateProperties.WriteSucceeded | src/update-feature-flags.ts:28-53 | when the writes (and, with strict sync, the deletes) succeeded, every flag was written, every flag to delete deleted, each request succeeded, and the log is the puts followed by the deletes |
| UpdateProperties.DeleteSucceeded | src/update-feature-flags.ts:40-48 | successful deletes were issued for every flag to delete, each succeeding |
| UpdateProperties.WritesStoreDesired | src/update-feature-flags.ts:28-37 | after the writes, each desired flag is stored under its id deep-equal to it, written now or kept from before |
| UpdateProperties.DeletesSpareDesired | src/update-feature-flags.ts:40-48 | the deletes never touch a desired flag's key |
| UpdateProperties.DesiredFlagStored | src/update-feature-flags.ts:15-54 | after a successful run, each desired flag is stored under its id, deep-equal to it |
| UpdateProperties.WrittenFlagsDesired | src/update-feature-flags.ts:64-67 | every written flag is a desired flag |
| UpdateProperties.PutsNameDesiredKeys | src/update-feature-flags.ts:28-35 | the writes name only desired keys under the label |
| UpdateProperties.RunTouchesOnlyItsLabel | src/update-feature-flags.ts:15-54 | whatever the server answers, a run changes nothing outside its label |
| UpdateProperties.NonStrictRunKeepsUndesired | src/update-feature-flags.ts:49-53 | whatever the server answers, without strict sync no record outside the desired ids changes |
| UpdateProperties.UndesiredRecordDoomed | src/update-feature-flags.ts:78-80 | a stored flag no desired flag names is deleted by its own key |
| UpdateProperties.DeletesRemoveUndesired | src/update-feature-flags.ts:40-48 | successful deletes leave no undesired record under the label |
| UpdateProperties.StrictRunLeavesOnlyDesired | src/update-feature-flags.ts:40-48 | with strict sync, a successful run leaves only desired ids under the label |
| UpdateProperties.RunKeepsWellKeyed | src/update-feature-flags.ts:15-54 | a successful run keeps every record under the label holding a flag with its key's id |
| UpdateProperties.InSyncFlagNeedsNoWrite | src/update-feature-flags.ts:64-67 | a desired flag already stored deep-equal under its id needs no write |
| UpdateProperties.RunKeepsKeyWellKeyed | src/update-feature-flags.ts:15-54 | after a successful run, any one record under the label holds a flag with its key's id |
| UpdateProperties.FoundIsStored | src/update-feature-flags.ts:60-65 | a desired flag whose key is stored is found in the listing, and what is found is the stored record |
| UpdateProperties.RunConverges | src/update-feature-flags.ts:15-54 | all desired flags stored deep-equal under their ids; other labels unchanged; strict sync leaves only them, and without it nothing else changes |
| UpdateProperties.UpdatedEmpty | src/update-feature-flags.ts:64-67 | when no desired flag needs a write, nothing is to be written |
| UpdateProperties.InSyncWritesNothing | src/update-feature-flags.ts:56-69 | when the store holds every desired flag deep-equal under its id, nothing is to be written |
| UpdateProperties.SecondRunWritesNothing | src/update-feature-flags.ts:15-54 | a second run over what a successful run left issues no put, whatever its listing order |
| UpdateProperties.RunRequestsSplit | src/update-feature-flags.ts:15-54 | a run issues the listing, then its writes, then its deletes |
| UpdateProperties.DeletesNeedCleanWrites | src/update-feature-flags.ts:37-48 | deletes are issued only with strict sync and only after every write succeeded |
| UpdateProperties.ListWritesDeletes | src/update-feature-flags.ts:19-48 | in a listing-writes-deletes sequence, no write follows a delete |
| UpdateProperties.RunRequestsShape | src/update-feature-flags.ts:15-54 | listing first; writes before deletes; no delete without strict sync or after a failed write; no write when nothing needs one |
| UpdateProperties.BatchErrorIsApiError | src/update-feature-flags.ts:28-37 | a batch with no null flag fails only with an ApiError |
| UpdateProperties.WriteErrorsAreApiErrors | src/update-feature-flags.ts:28-53 | with no null flag to write or delete, writing and deleting fail only with an ApiError |
| UpdateProperties.ErrorsAreApiErrors | src/update-feature-flags.ts:15-54 | with a well-keyed label and non-null desired flags, a run can fail only with an ApiError |

## Left out

- HTTP, authentication (`DefaultAzureCredential`) and axios are left out; the server is a parameter of the store that answers each request. Axios itself rejects non-2xx answers by default; the model follows the code's own check of a status of 400 or more.
- The URLs and `encodeURIComponent` are not modelled. A record is addressed by (label, id). The put URL encodes the id twice (src/feature-flag-client.ts:44, the id is encoded and then the whole key again) while the delete URL encodes it once (line 62); for ids with characters that need escaping, the two may address different keys on a real server. The model assumes both address the same key.
- The listing is one answer holding every record under the label. The code reads only its `items` and follows no continuation link; what a server that pages its answers would do is not modelled.
- `FeatureFlagClient.Apply` stores the flag itself for a put: `JSON.stringify` followed by `JSON.parse` is taken to give the same value back.
- Concurrency: `Promise.all` is modelled as issuing every request in order and reporting the first failure in that order. The real call reports the first failure in time, and it leaves the other promises running.
- Schema validation (Ajv, `FeatureManagement.v2.0.0.schema.json`) is a parameter: a function from file to the errors it reports.
- The glob expansion, the file system and `JSON.parse` of a file are parameters: the files found and their parse result.
- `core.info`/`core.error` logging and `main.ts` are not part of this model.
- `isValidUrl` (the platform's `URL` constructor) is a parameter.
- `core.getInput` is modelled as a map from names to the strings it returns. Its own trimming is not modelled.
- Strings.ToLower: lower-cases ASCII letters only; `toLowerCase` also folds other scripts.
- `getActionInput` never sets `label`, so `input.label` is `undefined`. The model carries it as an optional label and renders `undefined` as "undefined" in requests (`FeatureFlagUpdate.LabelText`).
- An item whose `value` is an empty string or unparsable text is not read as `{}`. Only a missing value is (`?? '{}'`), and unparsable text throws a SyntaxError.
- Property reads treat `id`, `allocation`, `variants` and the like as own fields. Names inherited from `Object.prototype` matter only in the duplicate count (see Findings).
- ConfigLoader.CountIds / ConfigLoader.ValidateConfigs: these count ids in a map with no inherited entries, so they implement the corrected duplicate check. The count as written, where an id such as "constructor" starts from an inherited value, is `ConfigLoader.DuplicatesAsWritten`.
- Numbers are integers. No arithmetic is done on flag values, and non-integer numbers would only change how `String(...)` renders an id.
- FeatureFlagUpdate.FirstFailure: its contract states only that the error is an ApiError; which request's error it is, is given by its definition (the first failing one in order).
- UpdateProperties.RunConverges holds under stated conditions:
  - records under the label hold parsed flags whose `id` is the string the key names (`WellKeyed`);
  - desired flags have string ids that are unique.

  A stored flag whose value names a different id than its key would be deleted or compared under its value's id, as the code does; the convergence statement does not cover that case.

## Findings

| source | as written | input that shows it | evidently intended | confidence | as-written member | corrected member |
|---|---|---|---|---|---|---|
| src/config-loader.ts:62-76 | ids are counted in a plain `{}`; for an id naming an `Object.prototype` member, `(acc[id] \|\| 0) + 1` starts from the inherited function, so the count is a string and `> 1` is false | two flags both with id "constructor" (also "toString", "__proto__", …) | every id occurring more than once is reported as a duplicate | not executed | ConfigLoader.DuplicatesAsWritten (shown by ConfigLoader.PrototypeIdsEscapeDuplicateCheck) | ConfigLoader.Duplicates (proved by ConfigLoader.DuplicatesIffNotUnique, used by ConfigLoader.ValidateConfigs) |
