# A verified model of the ourcodejs utility packages

This project models, in Dafny, the logic at the heart of a TypeScript monorepo of small libraries:

- **delta**: a path-routing trie.
  - `DeltaRouter`'s constructor registers routes. Literal pieces are keyed by their text and every parameter piece by `'*'`. Nested routers are mounted by splicing their root's children in.
  - `getRoute` walks the trie: literal child first, then `'*'`, with no backtracking.
  - `getSegments` cuts a path into pieces.
- **oak**: the `OakTree` path builder.
  - A full path is root + trunk + path.
  - `:name` placeholders are filled left to right from the arguments.
  - The router path drops the first character.
- **river**: the endpoint pipeline.
  - Middlewares run in order until one answers falsy, and the handler runs only when all of them said go on.
  - Anything thrown is wrapped as an `Error` and logged, then handed to the error handler unless the response has ended.
  - `safeEndResponse`, `defaultErrorHandler` and `nextFn` work on the response.
- **reef**:
  - arrays: `removeIndexFromArray`, the Fisher-Yates shuffles in place and on a copy, `reverseFilter`;
  - the two `objectDeepAssign` variants over JavaScript values;
  - strings: `capitalizeWords`, `getOnlyAlphaNumeric`, `checkEmail`, `getRandomCharset`;
  - numbers: `padStartWithZeros`;
  - dates: the timestamp range checks, the extraction of a trailing time offset (section 5.6 of RFC 3339: `Z` or `±HH:MM`), its conversion to `±HHMM`, and the ISO date-time check.
- **sunshine**: the same date helpers in their other revision. In that revision the timestamp ranges are disjoint, and the ISO check looks for an offset at the end of the string.

## How the model is built

| module | file | source | form |
|---|---|---|---|
| `DeltaLib` | delta_lib.dfy | packages/delta/src/lib.ts | class `TrieHeap` over a node arena, with methods proved against functions |
| `DeltaUtils` | delta_utils.dfy | packages/delta/src/utils.ts | functions and lemmas |
| `Oak` | oak.dfy | packages/oak/src/index.ts | functions; the argument loop is a method |
| `RiverUtils` | river_utils.dfy | packages/river/src/utils.ts | class `Response` plus functions it is proved against |
| `RiverLib` | river_lib.dfy | packages/river/src/lib.ts | closures as functions; the middleware loop and the endpoint call as methods |
| `ReefArray` | reef_array.dfy | packages/reef/src/array.ts | in-place shuffle on an `array`; the loops as methods |
| `ReefJson` | reef_json.dfy | — | JavaScript values, reads and writes of array keys, and the targets (classes `JsObject`, `JsArray`) |
| `ReefLibObject` | reef_lib_object.dfy | packages/reef/src/lib/object.ts | methods writing `JsObject.entries` in place |
| `ReefObject` | reef_object.dfy | packages/reef/src/object.ts | the same, for the older variant, which also writes into arrays (class `JsArray`) |
| `ReefString` | reef_string.dfy | packages/reef/src/string.ts | functions and lemmas; `getRandomCharset` as a loop |
| `ReefNumber` | reef_number.dfy | packages/reef/src/number.ts | functions and lemmas |
| `ReefLibDate` | reef_lib_date.dfy | packages/reef/src/lib/date.ts, packages/sunshine/src/lib/utilities.ts | predicates and lemmas |
| `ReefDate` | reef_date.dfy | packages/reef/src/date.ts, packages/sunshine/src/utils.ts | functions and lemmas |
| `SunshineUtilities` | sunshine_utilities.dfy | packages/sunshine/src/lib/utilities.ts | predicates and lemmas |
| `JsString` | js_string.dfy | — | `split`, `join`, `filter(Boolean)`, `trim` and ASCII case mapping |
| `Wrappers` | wrappers.dfy | — | `Option` and `Result` |

Inputs the code takes from outside are parameters:
- `Math.random()` becomes a sequence of picks.
- Luxon's verdict on a string becomes a boolean.
- The effect of a middleware or handler on the response becomes a `Behaviour`.

Facts about the router code that the model keeps:
- The method compare at packages/delta/src/lib.ts:75 is exact. The `'ALL'` method of packages/delta/src/types.ts:13 gets no special treatment, and there is no case folding.
- The path is split at '/' as it is (packages/delta/src/lib.ts:56). A query string is not stripped, so it stays inside the last path piece.
- A mounted router is also stored as the mount node's handler (packages/delta/src/lib.ts:35-51).
- A parameter's name is written onto the node being left (packages/delta/src/lib.ts:31) and read from the `'*'` node entered (packages/delta/src/lib.ts:68).
  - The key a parameter's value is filed under is whatever piece the last registration that walked on from that `'*'` node wrote there.
  - It is null only when no registration continued past that node.
  - For example, with `/a/:id/b` and `/a/:id` registered, `/a/5` files '5' under 'b'.
  - `DeltaLib.TrailingParamKeyIsNull` and `DeltaLib.ParamKeyIsNextPiece` cover the `'*'` child that the step itself creates.

## Model

| member | source | states |
|---|---|---|
| DeltaLib.Find | packages/delta/src/lib.ts:27 | `children.has/get`: None exactly when no entry has the key, else the child stored under it |
| DeltaLib.FindAppend | packages/delta/src/lib.ts:28 | appending an entry under a new key leaves every other key's lookup unchanged |
| DeltaLib.GrowChild | packages/delta/src/lib.ts:27-29 | afterwards the node has a child under the key; the arena stays closed and only grows |
| DeltaLib.InsertStep | packages/delta/src/lib.ts:25-32 | one walk step ends at the child stored under the piece's key (`'*'` for a parameter) |
| DeltaLib.PieceWrittenOnNodeLeft | packages/delta/src/lib.ts:31-32 | a step writes the piece name onto the node it leaves and changes no other existing node; a new child is blank and appended last |
| DeltaLib.WalkInsert | packages/delta/src/lib.ts:24-33 | the registration walk keeps the arena closed and only grows it |
| DeltaLib.WalkInsertReaches | packages/delta/src/lib.ts:24-33 | following the stored keys from the start node ends at the node the walk returns |
| DeltaLib.WalkInsertExisting | packages/delta/src/lib.ts:27-32 | on a path that already exists the walk ends where the existing keys lead |
| DeltaLib.Mount | packages/delta/src/lib.ts:37-43 | the mount loop only throws 'Router already exists for this route!' |
| DeltaLib.MountThrowsIffClash | packages/delta/src/lib.ts:37-40 | mounting throws exactly when one of the nested root's keys is already a child key of the mount node |
| DeltaLib.MountThrewCopiesPrefix | packages/delta/src/lib.ts:37-43 | a mount that throws has appended exactly the entries before the first clashing one, in order |
| DeltaLib.MountDoneAppends | packages/delta/src/lib.ts:37-43 | a mount that succeeds appends every nested entry, in order, to the mount node's children |
| DeltaLib.MountMatchesChildren | packages/delta/src/lib.ts:37-43 | the mount, read on the mount node's child list alone, throws and leaves the list as the loop over that list says |
| DeltaLib.NestedPathsReachable | packages/delta/src/lib.ts:35-44 | after a mount, every path of the nested router continues from the mount node to the same (shared) node |
| DeltaLib.Finish | packages/delta/src/lib.ts:46-51 | setting method and handler keeps the arena closed and only grows it |
| DeltaLib.DuplicateHandlerThrows | packages/delta/src/lib.ts:46-48 | registering on a path whose node already holds a handler throws, whatever the methods; for a handler the message is 'Handler already exists for this route!' |
| DeltaLib.InsertItem | packages/delta/src/lib.ts:20-51 | one registration keeps the arena closed and only grows it |
| DeltaLib.InsertItemRegisters | packages/delta/src/lib.ts:20-51 | a successful registration leaves its method and resolver on the node its keys lead to; a mount also stores the router as the handler |
| DeltaLib.InsertAll | packages/delta/src/lib.ts:19-52 | registering all items in order keeps the arena closed and only grows it |
| DeltaLib.InsertAllRegisters | packages/delta/src/lib.ts:19-52 | every registration of a construction that succeeded is in place at the end |
| DeltaLib.TakenPathStaysTaken | packages/delta/src/lib.ts:46-48 | once a node holds a handler, no later registration with the same keys lets construction succeed |
| DeltaLib.BuiltRoutesAreDistinct | packages/delta/src/lib.ts:19-52 | a construction that succeeded had no two registrations with the same keys |
| DeltaLib.ConstructedRoutesAreDistinct | packages/delta/src/lib.ts:18-53 | a router whose constructor did not throw has no two routes with the same keys |
| DeltaLib.Construct | packages/delta/src/lib.ts:15-53 | the constructor allocates a fresh root and registers every item below it |
| DeltaLib.ConstructRegisters | packages/delta/src/lib.ts:15-53 | every registration of a built router is in place below its root |
| DeltaLib.WithRoot | packages/delta/src/lib.ts:15 | the new root is a node the arena did not hold before |
| DeltaLib.LookupFrom | packages/delta/src/lib.ts:60-73 | the lookup walk only ends on nodes of the arena |
| DeltaLib.KeyPathLookup | packages/delta/src/lib.ts:60-64 | a request spelling the stored keys takes the literal branch at every step and binds no parameter |
| DeltaLib.MatchingLookup | packages/delta/src/lib.ts:60-73 | a request that matches stored keys (literal where literal, `'*'` where no literal child) ends where those keys lead |
| DeltaLib.LiteralFirstNoBacktrack | packages/delta/src/lib.ts:60-64 | once a literal child is taken, a failure below it is final: no fallback to `'*'` |
| DeltaLib.TrailingParamKeyIsNull | packages/delta/src/lib.ts:31-69 | when a step creates the `'*'` child and nothing walks on from it, a request piece taken through it is filed under the null key |
| DeltaLib.ParamKeyIsNextPiece | packages/delta/src/lib.ts:31-69 | when a step creates the `'*'` child and the next step walks on to a literal, a request piece taken through it is filed under that literal's text |
| DeltaLib.RegisteredRouteResolves | packages/delta/src/lib.ts:18-80 | a built router answers a path matching a registration with its resolver exactly when the request method equals the registered method's name |
| DeltaLib.RegisteredMatchResolves | packages/delta/src/lib.ts:55-80 | a registration in place answers matching paths for its exact method only |
| DeltaLib.ResolvedNodeHasMethodAndHandler | packages/delta/src/lib.ts:75-79 | a non-null route comes from the reached node's handler, whose method name equals the request method; params are those collected |
| DeltaLib.ResolveRoute | packages/delta/src/lib.ts:55-80 | null when the walk fails; a route comes only from the node the walk reaches, when its method name equals the requested one exactly and it has a handler; the params are those the walk collected |
| DeltaLib.SlashOnlyPathAtRoot | packages/delta/src/lib.ts:56-79 | an empty or slash-only path is answered by the root node itself |
| DeltaLib.TrieHeap.constructor | packages/delta/src/lib.ts:6-12 | an empty arena |
| DeltaLib.TrieHeap.CreateRouter | packages/delta/src/lib.ts:15-85 | the arena afterwards is the constructor's outcome; the router is the fresh root, or the error thrown |
| DeltaLib.TrieHeap.Insert | packages/delta/src/lib.ts:20-51 | one pass of the loop body writes exactly what `InsertItem` says and reports its error |
| DeltaLib.TrieHeap.Walk | packages/delta/src/lib.ts:24-33 | the in-place walk leaves the arena and target that `WalkInsert` describes |
| DeltaLib.TrieHeap.Step | packages/delta/src/lib.ts:25-32 | one in-place step is `InsertStep` |
| DeltaLib.TrieHeap.MountInto | packages/delta/src/lib.ts:37-43 | the in-place mount loop is `Mount`, and reports a clash exactly when it throws |
| DeltaLib.TrieHeap.GetRoute | packages/delta/src/lib.ts:55-80 | `getRoute` reads the nodes, writes none, and returns what `ResolveRoute` describes |
| DeltaUtils.PathPieces | packages/delta/src/utils.ts:8 | every piece is non-empty and holds no '/' |
| DeltaUtils.GetSegments | packages/delta/src/utils.ts:7-14 | one segment per non-empty piece, in order; `isParam` exactly when the piece starts with ':', which the value then loses |
| DeltaUtils.SegmentsRoundTrip | packages/delta/src/utils.ts:7-14 | rendering the segments as '/' + (':' for a parameter) + value and segmenting again gives them back |
| DeltaUtils.LeadingSlashIgnored | packages/delta/src/utils.ts:8 | a leading slash changes no piece |
| DeltaUtils.TrailingSlashIgnored | packages/delta/src/utils.ts:8 | a trailing slash changes no piece |
| DeltaUtils.RepeatedSlashIgnored | packages/delta/src/utils.ts:8 | a doubled slash reads as a single one |
| DeltaUtils.OnlySlashesHaveNoPieces | packages/delta/src/utils.ts:8 | a path of slashes only has no pieces |
| DeltaUtils.QueryStaysInLastPiece | packages/delta/src/utils.ts:8 | a query string is not stripped: it stays inside the last piece |
| DeltaUtils.BareColonIsEmptyParam | packages/delta/src/utils.ts:3-12 | a bare ':' is a parameter with an empty name |
| Oak.GetFullPath | packages/oak/src/index.ts:8-10 | the full path is root, then trunk, then path, each at its place |
| Oak.GetRouterPath | packages/oak/src/index.ts:20-22 | the router path is the full path without its first character: the first character followed by it is the full path; an empty full path gives an empty one |
| Oak.RouterPathRestoresSlash | packages/oak/src/index.ts:20-22 | a full path starting with '/' is '/' followed by the router path |
| Oak.WordRunIsGreedy | packages/oak/src/index.ts:14 | `\w+` takes every word character up to the first other one |
| Oak.FindPlaceholderFrom | packages/oak/src/index.ts:14 | a match found is a ':' followed by its greedy word run |
| Oak.FindFromIsLeftmost | packages/oak/src/index.ts:14 | no placeholder starts before the match found |
| Oak.ReplaceFirstSplices | packages/oak/src/index.ts:14 | `replace` swaps the leftmost placeholder as a whole for the argument and keeps the text around it |
| Oak.ReplaceFirst | packages/oak/src/index.ts:14 | without a placeholder the path is unchanged; otherwise the text before the placeholder stays and the length changes by the argument's length minus the placeholder's |
| Oak.NoPlaceholderUnchanged | packages/oak/src/index.ts:14 | a path without placeholder is left as it is |
| Oak.FillNoArgs | packages/oak/src/index.ts:13-15 | with no arguments the path is unchanged |
| Oak.FillArgs | packages/oak/src/index.ts:13-15 | a path without placeholders is unchanged, whatever the arguments |
| Oak.NextPlaceholderAfterArg | packages/oak/src/index.ts:13-15 | placeholders are filled left to right: the next one searched for is the first after the replaced one |
| Oak.GetFullPathWithArgs | packages/oak/src/index.ts:12-18 | the loop replaces one placeholder per argument, then the full path is built from the result |
| Oak.FilledBranchExample | packages/oak/src/index.ts:12-18 | `/branch2/:id` with `'123'` gives `/root/trunk/branch2/123` |
| Oak.RouterPathExample | packages/oak/src/index.ts:20-22 | the router path of `/branch1` is `root/trunk/branch1` |
| RiverUtils.Response.constructor | packages/river/src/utils.ts:3 | a response in the given state |
| RiverUtils.Response.End | packages/river/src/utils.ts:10 | `end`: headers out, chunk written, response ended |
| RiverUtils.Response.SetHeader | packages/river/src/utils.ts:23 | `setHeader` sets the header, or throws (nothing changes) once headers were sent |
| RiverUtils.SafeEndResponse | packages/river/src/utils.ts:3-19 | the response method does what `SafeEnd` says and returns its status |
| RiverUtils.SafeEnd | packages/river/src/utils.ts:3-19 | 'open' exactly when neither ended nor headers sent, and then unchanged; an ended response stays unchanged; otherwise it ends unless `end` threw |
| RiverUtils.SafeEndKeepsStatusAndHeaders | packages/river/src/utils.ts:3-19 | never touches status, headers or body; 'open' exactly when neither ended nor headers sent, and then nothing changes; without a throwing `end` the response is ended exactly when the answer is 'ended' |
| RiverUtils.DefaultErrorHandler | packages/river/src/utils.ts:21-25 | the response method does what `DefaultHandled` says and reports the throw |
| RiverUtils.DefaultHandled | packages/river/src/utils.ts:21-25 | status 500; no throw exactly when the headers were not out, and then the response ends; after the throw it is as open as before |
| RiverUtils.DefaultHandlerAnswers500 | packages/river/src/utils.ts:21-25 | on a response whose headers are not out: status 500, `text/plain`, the error text, ended, no throw |
| RiverUtils.DefaultHandlerThrowsAfterHeaders | packages/river/src/utils.ts:23 | as written, on a response whose headers are out it throws and leaves the response open |
| RiverUtils.GuardedDefaultErrorHandler | packages/river/src/utils.ts:3-25 | the guarded handler on the response object does what `GuardedDefaultHandled` says |
| RiverUtils.GuardedDefaultHandled | packages/river/src/utils.ts:3-25 | never throws; a response that had ended or sent its headers keeps its status |
| RiverUtils.GuardedHandlerAlwaysEnds | packages/river/src/utils.ts:3-25 | guarded by `safeEndResponse`, the handler never throws, always ends the response, never rewrites sent headers, and is the default handler on an open response |
| RiverUtils.NextFn | packages/river/src/utils.ts:27-29 | `nextFn` always answers true |
| RiverLib.CreateMiddleware | packages/river/src/lib.ts:15-21 | listening calls the middleware with the event and `nextFn` |
| RiverLib.NextCallbackSaysGo | packages/river/src/lib.ts:19 | the `next` a middleware receives answers true |
| RiverLib.CreateHandler | packages/river/src/lib.ts:23-27 | listening forwards the event unchanged |
| RiverLib.CreateErrorHandler | packages/river/src/lib.ts:29-35 | listening forwards the event and the error unchanged |
| RiverLib.RunEndpointMiddlewares | packages/river/src/lib.ts:37-52 | the loop with its `break` does what `RunMiddlewares` says, to the response object too |
| RiverLib.RunMiddlewares | packages/river/src/lib.ts:37-52 | the middlewares called are a prefix of the list, in list order, each once |
| RiverLib.StopFrom | packages/river/src/lib.ts:44-49 | the first middleware that does not answer truthy; all before it did |
| RiverLib.RunFromCalls | packages/river/src/lib.ts:44-51 | the loop calls middlewares up to and including the first non-truthy one, and answers true exactly when there is none |
| RiverLib.MiddlewaresStopAtFirstFalsy | packages/river/src/lib.ts:37-52 | middlewares run in order; no later one runs after the first falsy answer or throw; the run says go on exactly when all answered truthy |
| RiverLib.CreateEndpoint | packages/river/src/lib.ts:54-58 | missing middlewares become `[]`, a missing error handler the default one |
| RiverLib.Wrap | packages/river/src/lib.ts:75-78 | an `Error` is kept; anything else becomes `Error('Unknown error')` with it as the cause |
| RiverLib.CallEndpoint | packages/river/src/lib.ts:54-86 | one call of the endpoint does what `EndpointCall` says: calls, response and rejection; without an error handler option the unguarded `defaultErrorHandler` handles the error |
| RiverLib.EndpointCall | packages/river/src/lib.ts:60-86 | a call rejects only when the try block threw on a response that had not ended; without a throw the response is as the try block left it |
| RiverLib.HandleError | packages/river/src/lib.ts:80-84 | the error handler's call comes last in the log; the default one sets status 500 and rejects exactly when the headers were already out |
| RiverLib.HandlerOnceIffMiddlewaresPass | packages/river/src/lib.ts:68-73 | the handler is called once when every middleware answered truthy, and never otherwise |
| RiverLib.CatchLog | packages/river/src/lib.ts:74-85 | the catch block only adds error logging and the error handler's call after the try block's calls |
| RiverLib.ThrowLoggedOnce | packages/river/src/lib.ts:74-80 | whatever throws in the try block is logged exactly once, wrapped as an `Error`; nothing is logged otherwise |
| RiverLib.ErrorHandlerOnlyWhenOpen | packages/river/src/lib.ts:80-84 | the error handler is called, once and last with the logged error, exactly when something threw and the response had not ended |
| RiverLib.NoMiddlewaresRunsHandlerFirst | packages/river/src/lib.ts:55-73 | without middlewares the handler is the first call |
| RiverLib.DefaultErrorAnswer | packages/river/src/lib.ts:56-84 | without an error handler option, a throw on an open response ends it with status 500, `text/plain` and the error text |
| RiverLib.DefaultErrorRejectsAfterHeaders | packages/river/src/lib.ts:56-84 | without an error handler option, a throw after the headers went out makes the call reject with Node's headers-sent error and leaves the response open with status 500 and its headers and body unchanged |
| ReefArray.RemoveIndexDropsOne | packages/reef/src/array.ts:1-7 | inside the array exactly that element goes; the others keep their order; past the end the array comes back |
| ReefArray.RemoveIndex | packages/reef/src/array.ts:1-7 | one element shorter for an index inside the array, the same length otherwise; elements before the index stay and those after it move down one |
| ReefArray.RemoveIndexExample | packages/reef/src/array.ts:1-7 | `[1, 2, 3, 4, 5]` without index 2 is `[1, 2, 4, 5]` |
| ReefArray.ShuffleDownPermutes | packages/reef/src/array.ts:10-13 | each step swaps with a position not above it; positions above are never touched again; the result is a permutation |
| ReefArray.ShuffledPermutes | packages/reef/src/array.ts:9-16 | a shuffle is a permutation of its input, of the same length |
| ReefArray.Shuffled | packages/reef/src/array.ts:9-16 | the shuffle keeps the length |
| ReefArray.ShuffleInPlace | packages/reef/src/array.ts:10-25 | the in-place loop leaves the array as `Shuffled` of its old contents |
| ReefArray.ShuffleArray | packages/reef/src/array.ts:9-16 | shuffles in place and returns the same array |
| ReefArray.GetShuffleArray | packages/reef/src/array.ts:18-28 | a fresh shuffled copy; the input is untouched |
| ReefArray.Filter | packages/reef/src/array.ts:38 | everything kept passes the test |
| ReefArray.FilterCounts | packages/reef/src/array.ts:37-42 | each element is kept as often as it occurs exactly when it passes |
| ReefArray.ReverseFilter | packages/reef/src/array.ts:30-45 | the loop from the back, returning at the first hit when asked, gives `ReverseFiltered` |
| ReefArray.ReverseFiltered | packages/reef/src/array.ts:30-45 | every element passes the test; with `onlyFirstCoincidence` there is at most one |
| ReefArray.ReverseFilterKeepsMatches | packages/reef/src/array.ts:30-45 | the result holds the matches, each as often as it occurs, and nothing else; with `onlyFirstCoincidence` it is empty exactly when nothing matches |
| ReefArray.LastHit | packages/reef/src/array.ts:39 | with `onlyFirstCoincidence` the answer is the last match alone |
| ReefArray.ReverseFilterExample | packages/reef/src/array.ts:30-45 | `reverseFilter([1, 2, 3, 4, 5], isEven)` is `[4, 2]` |
| ReefJson.Get | packages/reef/src/lib/object.ts:17 | a missing key reads as `undefined` |
| ReefJson.ArrSetReads | packages/reef/src/object.ts:17 | after `a[k] = v` on an array, `a[k]` reads `v`, every other key reads as before and no element is lost |
| ReefJson.IndexKeyRoundTrip | packages/reef/src/object.ts:3 | an index key is the decimal text of the element it names |
| ReefJson.ArrWriteReads | packages/reef/src/object.ts:3-18 | after writing the keys of a map onto an array, each key reads what was written, every other key reads as before, and no element is lost |
| ReefJson.ArrWriteStep | packages/reef/src/object.ts:3-18 | writing one more key after the others is writing them all with that key added, so the order of the keys does not matter |
| ReefJson.JsObject.constructor | packages/reef/src/lib/object.ts:5 | a target with the given own keys |
| ReefJson.JsArray.constructor | packages/reef/src/object.ts:12 | an array target with the given elements and named properties |
| ReefJson.JsArray.Set | packages/reef/src/object.ts:14-17 | writing a key of the array target in place leaves the array `ArrSet` describes |
| ReefLibObject.IsPlainObject | packages/reef/src/lib/object.ts:1-2 | an object that is neither null nor an array |
| ReefLibObject.Merged | packages/reef/src/lib/object.ts:14-28 | a plain-object value leaves a plain object with the source's keys, and the old keys when the key held a plain object; an array lands as a copy of its elements; anything else lands as it is |
| ReefLibObject.PartialStep | packages/reef/src/lib/object.ts:13-28 | writing one more key reads the key as before the source and lands it as `Merged` says |
| ReefLibObject.AssignSource | packages/reef/src/lib/object.ts:13-29 | writing one source in place gives the merge of the source into the target |
| ReefLibObject.ObjectDeepAssign | packages/reef/src/lib/object.ts:4-33 | writes all sources in order onto the target in place and returns the same target |
| ReefLibObject.UntouchedKeysKeep | packages/reef/src/lib/object.ts:10-30 | a key no source has keeps its value |
| ReefLibObject.LastSourceWins | packages/reef/src/lib/object.ts:23-28 | the last source with a key decides it when its value there is not a plain object |
| ReefLibObject.MergedKeys | packages/reef/src/lib/object.ts:16-22 | a merge keeps the old keys and adds the source's; a non-object target value is replaced by `{}` first |
| ReefLibObject.AssignAllKeys | packages/reef/src/lib/object.ts:10-30 | afterwards the target has its old keys and every source's keys, and no others |
| ReefLibObject.MergeIdempotent | packages/reef/src/lib/object.ts:13-28 | writing the same source twice is writing it once |
| ReefObject.PartialStep | packages/reef/src/object.ts:3-19 | writing one more key reads the key as before the source and lands it as `Merged` says |
| ReefObject.Merged | packages/reef/src/object.ts:4-18 | an object value leaves an array exactly when the key held an array, else an object holding the source's keys; an array value lands as a copy of its elements; anything else lands as it is |
| ReefObject.ArrPartialStep | packages/reef/src/object.ts:3-18 | writing one more key onto an array target: the key reads as before, and the array afterwards has that key written as `Merged` says |
| ReefObject.ArrayTargetMergedInto | packages/reef/src/object.ts:8-12 | an object merged into an array held by the key leaves an array that keeps every element; each key of the object reads what landed on it, every other key reads as before |
| ReefObject.AssignSource | packages/reef/src/object.ts:3-19 | writing one source in place gives the merge of the source into the target |
| ReefObject.ObjectDeepAssign | packages/reef/src/object.ts:1-23 | writes all sources in order onto the target in place and returns it |
| ReefObject.Land | packages/reef/src/object.ts:4-18 | what one key's value leaves on the key is `Merged` of the old value and the new one |
| ReefObject.AssignIntoArray | packages/reef/src/object.ts:3-19 | writing an object's keys into an array target in place leaves the array `Merged` describes |
| ReefObject.FalsyOverwrites | packages/reef/src/object.ts:16-17 | a falsy or non-object value overwrites the key |
| ReefObject.ExistingObjectKept | packages/reef/src/object.ts:8-12 | an object the target holds is merged into: its keys stay and those the source lacks keep their values |
| ReefObject.VariantsAgree | packages/reef/src/object.ts:1-23 | the two variants agree wherever no target array meets a source object |
| ReefObject.ArrayTargetDiffers | packages/reef/src/object.ts:8-12 | where the key holds an array and the source an object, this variant writes into the array: `{x: 1}` on `[]` is a named property `x` of the array, and `{0: 9}` on `[7]` gives `[9]`; the newer variant replaces the array by a merge into `{}` |
| ReefObject.AssignExample | packages/reef/src/object.ts:1-23 | `{a: 1, b: 2}` with `{b: 3, c: 4}` gives `{a: 1, b: 3, c: 4}` |
| ReefString.CapitalizeWordsAt | packages/reef/src/string.ts:1-14 | each position of the trimmed text is lower-cased and then upper-cased when it starts a word, else lower-cased; the length is the trimmed length |
| ReefString.JoinCapitalized | packages/reef/src/string.ts:3-11 | splitting at ' ', capitalizing each word and joining is the character-level reading `CapitalizeFrom` |
| ReefString.CapitalizeFromAt | packages/reef/src/string.ts:5-10 | the character reading upper-cases exactly the characters at the start or after a space |
| ReefString.CapitalizedSpaces | packages/reef/src/string.ts:3-11 | capitalizing keeps the spaces where they were and adds none |
| ReefString.CapitalizeWordsKeepsShape | packages/reef/src/string.ts:1-14 | the trimmed length and the number of ' '-separated words are kept |
| ReefString.CapitalizeWordsIsTrimmed | packages/reef/src/string.ts:3 | the result neither starts nor ends with white space |
| ReefString.CapitalizeWordsIdempotent | packages/reef/src/string.ts:1-14 | capitalizing capitalized words changes nothing |
| ReefString.CapitalizeWordsExample | packages/reef/src/string.ts:1-14 | `'hello world'` becomes `'Hello World'` |
| ReefString.GetOnlyAlphaNumericOneChar | packages/reef/src/string.ts:47-53 | one character stays exactly when the class allows it: letters, digits and the listed accents always; white space, '-' and '_' when their flags are set |
| ReefString.GetOnlyAlphaNumeric | packages/reef/src/string.ts:41-54 | never longer than the input; every character left is one the class allows |
| ReefString.GetOnlyAlphaNumericOnlyAllowed | packages/reef/src/string.ts:53 | the result holds allowed characters only |
| ReefString.GetOnlyAlphaNumericCounts | packages/reef/src/string.ts:53 | each allowed character stays as often as it occurs; the others are gone |
| ReefString.GetOnlyAlphaNumericAppend | packages/reef/src/string.ts:53 | filtering a concatenation concatenates the filtered parts: order is kept |
| ReefString.GetOnlyAlphaNumericKeepsClean | packages/reef/src/string.ts:53 | an allowed-only string comes back unchanged |
| ReefString.GetOnlyAlphaNumericDropsRejected | packages/reef/src/string.ts:53 | a rejected-only string is removed entirely |
| ReefString.GetOnlyAlphaNumericIdempotent | packages/reef/src/string.ts:53 | filtering twice is filtering once |
| ReefString.GetOnlyAlphaNumericPieces | packages/reef/src/string.ts:53 | an allowed piece stays and a rejected piece after it goes |
| ReefString.GetOnlyAlphaNumericDefaultsExample | packages/reef/src/string.ts:41-54 | with the defaults, `'hello world @#'` gives `'hello world '` |
| ReefString.GetOnlyAlphaNumericHelloWorld | packages/reef/src/string.ts:41-54 | two words around a rejected piece come out joined |
| ReefString.GetOnlyAlphaNumericNoWhitespaceExample | packages/reef/src/string.ts:41-54 | without white space, `'hello world @#'` gives `'helloworld'` |
| ReefString.GetOnlyAlphaNumericNoHyphenExample | packages/reef/src/string.ts:41-54 | without hyphen and underscore, `'_hello-world'` gives `'helloworld'` |
| ReefString.CheckEmailBuilt | packages/reef/src/string.ts:56-59 | an address built from local labels, '@', domain labels and top-level letters is accepted exactly when every label is `[\w-]+` and the top level is 2 to 7 letters |
| ReefString.CheckEmailParts | packages/reef/src/string.ts:56-59 | every accepted address is built that way |
| ReefString.DomainNeedsDot | packages/reef/src/string.ts:57 | a domain without a dot is refused |
| ReefString.CheckEmailAcceptsExample | packages/reef/src/string.ts:56-59 | `'test@example.com'` is accepted |
| ReefString.CheckEmailRefusesExample | packages/reef/src/string.ts:56-59 | `'test@example'` is refused |
| ReefString.GetRandomCharset | packages/reef/src/string.ts:21-30 | `size` characters (none for a size below one), the i-th being the alphabet letter picked at step i, all in a..z |
| ReefNumber.NatToString | packages/reef/src/number.ts:10 | the decimal text is non-empty and all digits |
| ReefNumber.NatToStringRoundTrip | packages/reef/src/number.ts:10 | the decimal text reads back as the number and has no leading zero unless it is '0' |
| ReefNumber.LeadingZerosIgnored | packages/reef/src/number.ts:10 | zeros in front do not change the number a digit string stands for |
| ReefNumber.NumeralRoundTrip | packages/reef/src/number.ts:10 | a decimal numeral without a leading zero is the decimal text of the number it reads as |
| ReefNumber.PadStartWithZeros | packages/reef/src/number.ts:9-11 | at least `pads` characters, all digits, reading back as the value |
| ReefNumber.PadStartWithZerosShape | packages/reef/src/number.ts:9-11 | the result is the decimal text with zeros in front up to `pads`, never cut, all digits, reading back as the value |
| ReefNumber.PadStartWithZerosExamples | packages/reef/src/number.ts:9-11 | `(123, 5)` gives `'00123'`; `7` with the default width gives `'07'` |
| ReefLibDate.SecondsAndMillisDisjoint | packages/reef/src/lib/date.ts:1-21 | no number is both a seconds and a milliseconds timestamp |
| ReefLibDate.SecondsScaleToMillis | packages/reef/src/lib/date.ts:1-21 | a seconds timestamp times 1000 is a milliseconds timestamp |
| ReefLibDate.TimestampExamples | packages/sunshine/src/lib/utilities.ts:50-70 | the range ends, negative, fractional and out-of-range cases of both checks |
| ReefDate.FindMatchAtEnd | packages/reef/src/date.ts:76-77 | the leftmost match of the anchored regex is the trailing `±HH:MM`, else a trailing `Z`, else none |
| ReefDate.ExtractOffsetFromISO | packages/reef/src/date.ts:75-84 | a result is `+00:00` or the last six characters of the date; null only when the date ends in neither `±HH:MM` nor `Z` |
| ReefDate.ExtractOffsetFromISOSuffix | packages/reef/src/date.ts:75-84 | a trailing `±HH:MM` is returned as it is, a trailing `Z` gives `+00:00`, anything else null |
| ReefDate.ExtractOffsetFromISOShape | packages/reef/src/date.ts:75-84 | every result is a sign, two digits, ':' and two digits |
| ReefDate.ExtractOffsetFromISOOfOffset | packages/sunshine/src/utils.ts:26-35 | a date ending in a sign and `HH:MM` gives exactly that offset |
| ReefDate.ExtractOffsetFromISOWithout | packages/reef/src/date.ts:75-84 | a date ending in a digit with no sign six characters back has no offset |
| ReefDate.ExtractOffsetFromISOExamples | packages/sunshine/src/lib/utilities.ts:39-48 | after a time: `-06:00` and `+05:30` as they are, `Z` as `+00:00`, nothing and `-0600` as null |
| ReefDate.ConvertOffsetToTimezone | packages/reef/src/date.ts:86-93 | at least two characters, with no ':' before the last two |
| ReefDate.ConvertOffsetToTimezoneParts | packages/reef/src/date.ts:86-93 | hours before the first ':', minutes after it right-padded with '0' to two ('00' when empty); later parts dropped |
| ReefDate.ConvertOffsetToTimezoneNoColon | packages/sunshine/src/utils.ts:37-44 | without ':' the offset is kept whole and '00' follows |
| ReefDate.ConvertOffsetToTimezonePadsRight | packages/reef/src/date.ts:89-90 | one minute digit gains a '0' on the right |
| ReefDate.ConvertOffsetToTimezoneOfOffset | packages/reef/src/date.ts:86-93 | `±HH:MM` loses its colon: five characters |
| ReefDate.ExtractThenConvert | packages/reef/src/date.ts:75-93 | every extracted offset converts to a sign and four digits |
| ReefDate.SecondsWithinMillis | packages/reef/src/date.ts:95-111 | every seconds timestamp passes the milliseconds check too |
| ReefDate.TimestampBounds | packages/reef/src/date.ts:95-111 | negative and fractional numbers fail both checks; 0 passes both; the upper ends are exclusive past 1e10 - 1 and 1e13 - 1 |
| ReefDate.DateOfNumber | packages/reef/src/date.ts:35-47 | `now` exactly for 0; never the seconds branch; a milliseconds timestamp is taken as given |
| ReefDate.DateOfNumberNeverSeconds | packages/reef/src/date.ts:36-47 | as written no number reaches the seconds branch; 1640995200 is read as milliseconds in January 1970 |
| ReefDate.DateOfNumberCorrected | packages/reef/src/lib/date.ts:1-21 | `now` exactly for 0; every other seconds timestamp of the disjoint ranges is read as seconds, standing for 1000 times as many milliseconds; a milliseconds timestamp is taken as given |
| ReefDate.DateOfNumberCorrectedSeconds | packages/reef/src/lib/date.ts:1-21 | with the disjoint ranges a seconds timestamp is read as seconds and stands for the same instant as its milliseconds equivalent |
| ReefDate.IsValidIsoDateWithTimezoneLoose | packages/reef/src/date.ts:60-73 | false without 'T'; with luxon's approval and a 'T', any '-' makes it true |
| ReefDate.IsValidIsoDateWithTimezoneAcceptsNoOffset | packages/reef/src/date.ts:64-69 | `2022-01-01T00:00:00` has no offset yet passes when luxon parses it |
| SunshineUtilities.TimezoneRegexTestSuffix | packages/sunshine/src/lib/utilities.ts:32-33 | the anchored regex finds a match exactly when the string ends in `±HH:MM`, `±HHMM` or `Z` |
| SunshineUtilities.IsValidIsoDateWithTimezoneSuffix | packages/sunshine/src/lib/utilities.ts:23-37 | true exactly when luxon accepts, there is a 'T' and the string ends in `±HH:MM`, `±HHMM` or `Z` |
| SunshineUtilities.IsValidIsoDateWithTimezoneWithOffset | packages/sunshine/src/lib/utilities.ts:23-48 | where `getOffsetFromISO` finds an offset, only luxon and the 'T' decide |
| SunshineUtilities.IsValidIsoDateWithTimezoneStricter | packages/sunshine/src/lib/utilities.ts:23-37 | every string it accepts also passes the looser check of packages/reef/src/date.ts |
| SunshineUtilities.NoTimezoneAtEnd | packages/sunshine/src/lib/utilities.ts:32-33 | a string ending in ':' and digits has no time zone at its end |
| SunshineUtilities.IsValidIsoDateWithTimezoneExamples | packages/sunshine/src/lib/utilities.ts:23-37 | `2022-01-01T00:00:00` is refused even when luxon parses it (the looser check accepts it); with `+05:30` or `-0600` it is accepted |
| JsString.Split | packages/delta/src/utils.ts:8 | `split` on one character: at least one part, none holding the separator |
| JsString.JoinSplit | packages/reef/src/string.ts:3-11 | joining the parts of a split gives the string back |
| JsString.SplitJoin | packages/reef/src/string.ts:3-11 | splitting a join of separator-free parts gives them back |
| JsString.TrimSlice | packages/reef/src/string.ts:3 | `trim` is a slice with only white space cut off, and non-space ends when non-empty |
| JsString.LowerCase | packages/reef/src/string.ts:3 | `toLowerCase` maps each character, ASCII capitals to small ones |

## Left out

- The luxon wrappers and the global zone settings: `setTimezone`, `getTimezone`, `getDateTime`, `getLocalTimezone` and `getTimezoneFromDate` (packages/reef/src/date.ts:4, 15-33, 52-58); the helpers of packages/sunshine/src/utils.ts:3-9; `getTimezoneShortOffset` and `getTimezoneTechieOffset` (packages/sunshine/src/lib/utilities.ts:7-21). They are calls into a library that is not part of this model.
- `getDate` for `DateTime`, `Date` and string arguments (packages/reef/src/date.ts:37-42): luxon conversions. Only the choice for a number is modelled (`ReefDate.DateOfNumber`).
- `DateTime.fromISO(s).isValid` is a boolean parameter. A throw from luxon is caught and answered false, which is the parameter being false.
- JavaScript numbers are exact reals or integers: `NaN`, the infinities and rounding of doubles are not modelled.
- `naturalSort` (`localeCompare` with the `'es'` locale), `getConvenientStringFormat` (NFD normalisation and `\p{Diacritic}`), `toBase64InBrowser` and `fromBase64InBrowser` (browser `btoa`/`atob`): foreign string semantics.
- `getRandomIntInclusive`: floating-point arithmetic over `Math.random()`.
- `isAsyncFn` (packages/reef/src/fns.ts, packages/reef/src/lib/fns.ts): it relies on `constructor.name`.
- `getEndpointConfig` is not part of this model. The `errorLogger` it supplies is recorded as a log entry.
- Real async scheduling in the river pipeline: every awaited call completes in turn.
- The request object of a river event: no modelled listener reads it.
- DeltaLib.TrieHeap.CreateRouter: registrations come as pieces `(value, isParam)`, because `getDeltaPathPieces` (packages/delta/src/lib.ts:2) is not part of this model. `DeltaUtils.GetSegments` is modelled on its own.
- DeltaLib.TrieHeap.GetRoute: nothing is proved about lookups after a mounted router is changed again through its own root. The shared node ids are modelled, but such later mutation is not.
- Oak.GetFullPathWithArgs: requires that no argument holds `$`, because `String.prototype.replace` expands `$` patterns.
- ReefArray.RemoveIndex: the index is a natural number, because negative `slice` indices count from the end and are not modelled.
- ReefArray.ShuffleArray: `Math.floor(Math.random() * (i + 1))` is a given pick in `0..i`, not a random draw.
- ReefString.CapitalizeWords: `toLowerCase`/`toUpperCase` map the ASCII letters only; Unicode case mapping is not modelled.
- ReefString.GetOnlyAlphaNumeric: the `i` flag is not modelled separately, because the class already holds both cases of each of its letters.
- ReefString.GetRandomCharset: `size` is an integer; a fractional size, which the loop rounds up, is not modelled.
- ReefNumber.PadStartWithZeros: the value is a natural number; `toString` of negative or fractional numbers is not modelled. From 1e21 on `Number.prototype.toString` switches to exponent notation (`1e+21`); the model always writes the decimal digits.
- ReefLibObject.ObjectDeepAssign: nested objects are values, so aliasing between the target and a source, and the identity of the nested object merged into, are not modelled. Numbers are integers.
- ReefObject.ObjectDeepAssign: the same as `ReefLibObject.ObjectDeepAssign`. An array merged into is built anew rather than updated in place, so other references to it are not modelled.
- ReefObject.Merged: the key `length` of an array target is an ordinary named property here, whereas JavaScript would resize the array.
- ReefJson.Get: the prototype chain is not modelled. Reading or writing a key such as `__proto__` or `constructor` is an own-key access here, so `ReefLibObject.AssignAllKeys` does not cover sources with such keys.
- Oak.GetRouterPath: strings are sequences of Unicode scalar values, not UTF-16 code units, so `substring(1)` of a path starting with a character outside the Basic Multilingual Plane drops the whole character instead of half of it.
- RiverLib.CallEndpoint: a listener's outcome depends on the event only, not on the response it finds.

## Findings

| source | as written | input that shows it | evidently intended | confidence | as-written member | corrected member |
|---|---|---|---|---|---|---|
| packages/river/src/utils.ts:21-25 | `defaultErrorHandler` calls `setHeader` without looking at `headersSent`; Node throws there, so the response is never ended | a handler that sent its headers, then threw | end such a response without touching status or headers, as `safeEndResponse` (lines 3-19) does | medium, not executed | RiverUtils.DefaultHandlerThrowsAfterHeaders | RiverUtils.GuardedHandlerAlwaysEnds |
| packages/reef/src/date.ts:44-46 | `getDate` tries `timestampIsMs` first, whose range `[0, 1e13 - 1]` contains the seconds range `[0, 1e10 - 1]`, so the seconds branch is dead | `getDate(1640995200)` (2022-01-01 in seconds) gives an instant in January 1970 | the disjoint ranges of packages/reef/src/lib/date.ts, under which seconds are read as seconds | high, not executed | ReefDate.DateOfNumberNeverSeconds | ReefDate.DateOfNumberCorrectedSeconds |
| packages/reef/src/date.ts:64-69 | `isValidIsoDateWithTimezone` accepts any `'-'` as an offset, including the dashes of the date | `'2022-01-01T00:00:00'` is accepted whenever luxon parses it | an offset at the end of the string, as packages/sunshine/src/lib/utilities.ts:31-33 checks | high, not executed | ReefDate.IsValidIsoDateWithTimezoneAcceptsNoOffset | SunshineUtilities.IsValidIsoDateWithTimezoneExamples |
