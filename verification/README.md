# Verified model of a Go web stack

The repository bundles an HTTP implementation (`fasthttp`), a router on top of it
(`fasthttp-routing`) and helpers. This project models its most intricate parts in Dafny and proves
what they are for:

- **Routing** (`RouteKeys`, `RouteTree`, `RouteSearch`, `RouteBuffer`, `RouteStore`, `Routers`). The
  radix tree of parametric keys, as heap nodes that are split and linked in place and searched with
  pruning and a shared value buffer, equals a linear scan for the first added route that matches.
- **Reverse routing** (`ReverseRoute`). URLs built from a route are taken back to it with the same
  parameters.
- **Handler chains** (`Handlers`, `HandlerChains`). `Next` and `Abort` for arbitrary handler behaviour.
- **The connection pool** (`WantQueue`, `ConnPool`, `ConnOutcomes`) and **the pipeline client**
  (`Pipeline`, `PipelineOrder`): state machines whose actions are the critical sections and channel
  operations of the Go code, with safety over every interleaving, who is served and who is turned
  away, and that everybody comes to an end.
- **The worker pool** (`WorkerPool`, `WorkerOutcomes`) and **the file-handle cache** (`FileCache`,
  `FileKeys`), in the same way.
- **The chunked transfer coding** (`Chunked`, `ChunkStream`, `ChunkText`), section 4.1 of RFC 7230:
  encoder, buffered decoder and incremental decoder agree, and the decoder accepts exactly the inputs
  of a grammar.
- **URIs** (`Ascii`, `Percent`, `PercentText`, `QueryArgs`, `QueryText`, `Segments`, `PathFold`,
  `NormalizePath`, `Uri`, `UriText`): in-place path normalisation is a fold of segments on a stack
  (compare section 5.2.4 of RFC 3986), and parsing and printing are inverse to each other.
- **`CleanUrlPath`** (`CleanPath`, `CleanText`): the two-index cleaner with its lazy buffer is split,
  fold, join.

Objects that the Go code changes in place are classes, buffers are arrays, loops are loops; each is
proved against a function on values, and the laws are lemmas about those functions; those of the
`Text` modules, and the last ones of `RouteKeys` and `ReverseRoute`, speak of the text of keys, URIs
and inputs alone. The concurrent parts are state machines: a state holds where every goroutine is, an
action is one critical section, one channel operation or one call out, and a run is any sequence of
actions that may happen.

Byte strings are strings whose characters are below 256. A regular expression is an uninterpreted
function from the pattern and a text to where the leftmost match ends, if there is one. The syntax
check of a host, the reading of a trailer, the sizes of short reads, the outcomes of dials, reads and
file operations, the passing of time and the firing of timers are parameters or free choices.

`dafny verify dfyconfig.toml` checks everything.

## Where a property fails, and exactly when it holds

- An incremental read reports a clean end of file when the input is cut between two chunks, because
  `readHexInt` passes a bare end of input on (fasthttp/streaming.go:32-35, fasthttp/bytesconv.go:258-262).
  `ChunkStream.CutStreamEndsWell` gives such an input; `ChunkStream.ReadAll` shows that on input the
  buffered decoder refuses the stream ends as if complete exactly when `CutBetweenChunks` holds.
- `URLByIndex` indexes the first byte of every segment and so panics on an empty one
  (fasthttp-routing/route.go:216-217). `ReverseRoute.LoneTokenPanics` gives a route;
  `ReverseRoute.PanicIff` shows that it panics exactly on the empty route, on one that starts with a
  token and on one with two tokens side by side.
- A built URL does not always lead back to its parameters (`ReverseRoute.TextBehindTokenIsLost`).
  `ReverseRoute.ReversedIff` shows, for every route without regular expressions, that it does exactly
  when `Reversible` holds of the route: each plain token stands before a slash or the end and a
  catch-all only at the end.
- Printing arguments and parsing them again can lose entries (`QueryArgs.EmptyEntryIsLost`).
  `QueryArgs.ParsePrint` says for every list what is left, and `QueryArgs.RoundTripIff` on which lists
  that is everything.
- The documentation of `URI.Path` calls the path always normalised (fasthttp/uri.go:164-166); a final
  `/.` is kept (fasthttp/uri.go:593-603), for instance that of `/a/.` (`PathFold.FinalDotIsKept`).
  `PathFold.FullyNormalIff` shows that this is the only exception: the result has no dot segment left
  exactly when the decoded, rooted path does not end in `/.`.
- The cleaner of the worker pool does not always stop exactly the obsolete workers. Workers note the
  time of their release before they take the lock (fasthttp/workerpool.go:204-205), so a later time can
  get in front of an earlier one, and the binary search then misses: `WorkerPool.OvertakenRun` is such
  a run, and `WorkerPool.UnsortedCuts` has one list on which a fresh worker is stopped and one on which
  an obsolete worker is kept. `WorkerPool.CleanIsExactIff` shows that the cleaner is exact if and only
  if no fresh worker stands before an obsolete one, and `WorkerPool.CleanAfterRun` that it is exact
  after every run in which no release was overtaken.
- A lookup with a buffer made before a route with more parameters was added can index past its end
  (fasthttp-routing/router.go:90-93, 151-153); `RouteBuffer.OldBufferOverruns` is such a lookup.
  `RouteStore.Store.Get` panics exactly when `Overruns` holds of the tree, and `RouteBuffer.OverrunsIff`
  reads that on the added keys, for every history, path and buffer: some key with too many parameters
  matches the path up to the first of them without a cell, and at none of its parameters up to that one
  does a key that goes another way there match the path and precede all keys that go the same way.

## Model

| member | source | states |
|---|---|---|
| `RouteKeys.MatchLiteral` | fasthttp-routing/store.go:229-241 | a literal run in front of a key matches exactly the paths that start with it, and matching goes on behind it |
| `RouteKeys.MatchToken` | fasthttp-routing/store.go:242-267 | a token captures what it consumes (non-slash characters, everything for `.*`, the end of the match otherwise) and matching goes on behind it, without backtracking |
| `RouteKeys.MatchNothing` | fasthttp-routing/store.go:225-306 | the empty key matches the empty path and no other |
| `RouteKeys.MatchPlain` | fasthttp-routing/store.go:253-267 | `<name>` takes everything up to the next slash or the end, whatever the name, and matching goes on behind it |
| `RouteKeys.MatchEmptyPattern` | fasthttp-routing/store.go:193-206 | `<name:>` is the same as `<name>` |
| `RouteKeys.MatchCatchAll` | fasthttp-routing/store.go:243-246 | `<name:.*>` takes the whole rest of the path, even an empty one |
| `RouteKeys.MatchPattern` | fasthttp-routing/store.go:193-252 | `<name:e>` takes the match of `^e` at the start of the rest of the path and fails without one, on the text of the key and the matcher alone |
| `RouteKeys.MatchArity` | fasthttp-routing/store.go:14-17 | a match has one captured value per parameter name |
| `RouteKeys.TokensArePrefixFree` | fasthttp-routing/store.go:146-222 | of two tokens that start the same string neither is longer: tokens end at the first `>` |
| `RouteTree.AddLookup` | fasthttp-routing/store.go:78-143 | for every key: after `add` the key that was added is found with its data and order (the earlier ones if it was there), and every other key is found exactly as before |
| `RouteTree.AddChildLookup` | fasthttp-routing/store.go:146-222 | the chain `addChild` builds answers to exactly the key it was built from and hides nothing that was there |
| `RouteTree.CutLookup` | fasthttp-routing/store.go:123-140 | splitting a node at a common prefix changes no lookup |
| `RouteTree.AddValid` | fasthttp-routing/store.go:78-143 | every add keeps the tree invariant: static siblings filed under their first byte, static keys free of tokens, distinct parameter children, names along the path, `minOrder` below all orders of the subtree and attained, parameter children in the order of their `minOrder` |
| `RouteSearch.MinOrderIsLeast` | fasthttp-routing/store.go:78-143 | `minOrder` of a node is the least order of any key stored below it |
| `RouteSearch.BestSound` | fasthttp-routing/store.go:225-306 | what the search returns is the entry of some stored key that matches the whole path, with that key's names and captured values |
| `RouteSearch.BestComplete` | fasthttp-routing/store.go:225-306 | for every stored key that matches, the search returns an entry of that order or an earlier one |
| `RouteSearch.BestNotBeforeMinOrder` | fasthttp-routing/store.go:288-290 | no hit below a node precedes its `minOrder`, so pruning on it loses nothing |
| `RouteSearch.KeysFit` | fasthttp-routing/store.go:38-41 | a buffer as large as the largest value any Add returned has room for the parameters of every node |
| `RouteSearch.FitsNeverOverruns` | fasthttp-routing/store.go:225-306 | a buffer with room for every node is never too small for a lookup |
| `RouteSearch.AddIndexes` | fasthttp-routing/store.go:38-41 | an Add extends the history the tree stands for by one entry; a key added again keeps its first order |
| `RouteSearch.SearchIsFirstMatch` | fasthttp-routing/README.md:84-85 | for every sequence of Adds and every path the tree search equals a linear scan for the first added key that matches, with its names and values |
| `RouteBuffer.TriedIff` | fasthttp-routing/store.go:284-290 | the loop tries a parameter child if and only if each matching key that goes another way from the node is younger than some key of the child |
| `RouteBuffer.OverrunsSound` | fasthttp-routing/store.go:225-306 | a lookup that runs out of cells has met a stored key that matches the path up to and including its first parameter without a cell, and was not pruned on the way |
| `RouteBuffer.OverrunsComplete` | fasthttp-routing/store.go:225-306 | every such key makes the lookup run out of cells |
| `RouteBuffer.OverrunsIff` | fasthttp-routing/router.go:90-93 | for every history, path and buffer size: the lookup goes out of bounds if and only if some added key matches up to a parameter without a cell and no older match keeps the search away from it |
| `RouteBuffer.WinnerOverruns` | fasthttp-routing/router.go:90-93 | with too few cells the lookup goes out of bounds for a key that wins, precedes the winner, or when nothing matches |
| `RouteBuffer.OldBufferOverruns` | fasthttp-routing/router.go:90-93 | a buffer made before the first route with a parameter, and a lookup that goes past its end |
| `RouteStore.Node.Add` | fasthttp-routing/store.go:78-143 | the in-place insertion turns the nodes that spell a tree into nodes that spell the tree after `add`, and returns the number of parameters of the key |
| `RouteStore.Node.AddChild` | fasthttp-routing/store.go:146-222 | the in-place chain building spells the tree with the chain |
| `RouteStore.Node.SplitAt` | fasthttp-routing/store.go:123-140 | splitting a node in place: the new child takes over data and children, this node keeps the prefix |
| `RouteStore.Node.Get` | fasthttp-routing/store.go:225-306 | the pruned search over the heap nodes panics exactly when it needs a cell the buffer does not have, and otherwise returns the hit of the reference search, with names and order, and its captured values in the shared buffer; cells before the node's own parameter are not touched |
| `RouteStore.Node.Eat` | fasthttp-routing/store.go:229-267 | matches the node's own key, static, plain, `.*` or pattern, and records the captured value in its cell and no other, or panics without that cell |
| `RouteStore.Node.Put` | fasthttp-routing/store.go:245 | writes the one cell, or panics when it lies past the end |
| `RouteStore.Node.Descend` | fasthttp-routing/store.go:269-283 | the `goto` fast path (static child only) reaches the same hit as the recursive search |
| `RouteStore.Node.TryParams` | fasthttp-routing/store.go:284-303 | the loop over parameter children keeps the best hit and its values in the buffer although failed branches write to a buffer of their own or the same one |
| `RouteStore.Store.Add` | fasthttp-routing/store.go:38-41 | appends to the history and returns the key's number of parameters |
| `RouteStore.Store.Get` | fasthttp-routing/store.go:46-49 | panics exactly when the buffer runs out, never when every key fits; otherwise returns the data of the earliest added key that matches, nothing exactly when none matches, with the key's names and, in the first cells of the buffer, its captured values |
| `RouteStore.PrefixLength` | fasthttp-routing/store.go:78-86 | the length of the longest common prefix |
| `RouteStore.FindToken` | fasthttp-routing/store.go:147-157 | the first token of a key, or none |
| `RouteStore.SplitToken` | fasthttp-routing/store.go:193-201 | name and pattern of a token, split at its first colon |
| `RouteStore.SlashOrEnd` | fasthttp-routing/store.go:253-267 | the first slash or the end |
| `RouteStore.EqualPrefix` | fasthttp-routing/store.go:229-241 | the path starts with the node's key |
| `ReverseRoute.KeyOfWellFormed` | fasthttp-routing/route.go:40-48 | replacing a final asterisk by the catch-all token keeps every token closed |
| `ReverseRoute.AsteriskText` | fasthttp-routing/route.go:45-48 | the key of `p*` is `p<*:.*>`, and a path without a final asterisk is its own key |
| `ReverseRoute.AsteriskMatches` | fasthttp-routing/route.go:45-48 | for every text p and path: the key of `p*` matches exactly the paths that start with p, and captures what is behind it |
| `ReverseRoute.BuildTemplate` | fasthttp-routing/route.go:226-267 | the scanning loop yields the segments, names and patterns of the key, for every key whose tokens are closed |
| `ReverseRoute.TemplateText` | fasthttp-routing/route.go:226-256 | on the text of a route: the literal in front of a token and `<name>` become segments, and the expression is dropped |
| `ReverseRoute.PatternsText` | fasthttp-routing/route.go:226-256 | on the text of a route: each token gives its expression, a plain one none |
| `ReverseRoute.NewRoute` | fasthttp-routing/route.go:40-59 | a route's template belongs to its key, which is the path with a final asterisk made a catch-all |
| `ReverseRoute.URLByIndex` | fasthttp-routing/route.go:197-225 | refuses unacceptable parameters, panics exactly when a segment is empty, and otherwise fills the parameters in |
| `ReverseRoute.CheckParams` | fasthttp-routing/route.go:202-214 | all parameters are acceptable, and no other list is let through |
| `ReverseRoute.RefusedIff` | fasthttp-routing/route.go:197-214 | for every route and parameters: refused if and only if the number is wrong, a value for a plain token has a slash, or `^e` does not match a value for a token with expression e |
| `ReverseRoute.BuiltLiteral` | fasthttp-routing/route.go:215-224 | the URL of a route without tokens is the route |
| `ReverseRoute.BuiltText` | fasthttp-routing/route.go:215-224 | the literal in front of the first token, the first parameter, and the URL of the rest of the route with the other parameters |
| `ReverseRoute.FillIn` | fasthttp-routing/route.go:215-224 | the segments with the parameters in the place of the tokens, or a panic at an empty segment |
| `ReverseRoute.MatchBuilt` | fasthttp-routing/route.go:197-225 | for every key, patterns included: a built URL matches its key with the same parameters if and only if every token takes off exactly its parameter |
| `ReverseRoute.ReversedIff` | fasthttp-routing/route.go:197-225 | for every key with plain and catch-all tokens and every URL built from it: the URL matches the key with the same parameters if and only if each plain token stands before a slash or the end and a catch-all at the end |
| `ReverseRoute.BuiltMatches` | fasthttp-routing/route.go:197-225 | with plain tokens before a slash or the end and at most a final catch-all, a URL built successfully matches the key with exactly the parameters it was built from |
| `ReverseRoute.BuiltIsFound` | fasthttp-routing/route.go:197-267 | such a URL is found again as the same route with the same parameters unless an earlier route matches it |
| `ReverseRoute.NoPanic` | fasthttp-routing/route.go:215-224 | such a route that starts with a slash never panics |
| `ReverseRoute.PanicIff` | fasthttp-routing/route.go:215-224 | for every route and acceptable parameters: a panic if and only if the route is empty, starts with a token or has two tokens side by side |
| `ReverseRoute.LoneTokenPanics` | fasthttp-routing/route.go:215-224 | a route that is a single token panics |
| `ReverseRoute.TextBehindTokenIsLost` | fasthttp-routing/route.go:215-224 | a route with text behind a token: its URL does not match it |
| `Routers.Router.Add` | fasthttp-routing/router.go:145-154 | the route goes behind those of its method and of no other; `maxParams` becomes the largest parameter count |
| `Routers.Router.StoreFor` | fasthttp-routing/router.go:146-150 | a store for the method, with every history unchanged |
| `Routers.Router.Find` | fasthttp-routing/router.go:156-166 | for a buffer of any size: panics exactly when an added key leads past its end, never with `maxParams` cells; otherwise the earliest route of the method that matches, with names and values, or none |
| `Routers.ThereAndBack` | fasthttp-routing/route.go:197-225 | building a URL for a route and looking it up gives that route and those parameters unless an earlier route of the method takes it, with a buffer of `maxParams` cells in any case |
| `Handlers.Ctx.Next` | fasthttp-routing/context.go:183-191 | dispatch terminates for all handler behaviours and does what the trace semantics says |
| `Handlers.Ctx.AbortChain` | fasthttp-routing/context.go:204-206 | the index moves past the last handler |
| `Handlers.Ctx.Call` | fasthttp-routing/context.go:183-206 | a handler that aborts, calls `Next` any number of times and returns, on the shared index |
| `Handlers.Ctx.CallOn` | fasthttp-routing/context.go:183-191 | a handler that calls `Next` and goes on according to its result |
| `Handlers.LoopOrdered` | fasthttp-routing/context.go:183-191 | from any index on, handlers start in strictly increasing order and only those up to the final index |
| `Handlers.StartsInOrder` | fasthttp-routing/context.go:183-191 | in a whole dispatch each handler starts at most once and in strictly increasing order |
| `Handlers.AbortIsFinal` | fasthttp-routing/context.go:201-206 | after an abort no handler starts |
| `Handlers.ErrorStopsChain` | fasthttp-routing/context.go:178-191 | between an error and the next handler that starts, somebody swallowed the error |
| `Handlers.ErrorIsReported` | fasthttp-routing/context.go:178-191 | the dispatch returns an error if and only if its trace has a handler that ended with one and nobody swallowed an error after that |
| `Handlers.AllStart` | fasthttp-routing/context.go:182-191 | without an abort and a final error every handler has started, whether or not `Next` is called |
| `HandlerChains.PlainChain` | fasthttp-routing/context.go:183-191 | handlers that return at once run in order, up to and including the first that fails, whose error is the result |
| `HandlerChains.LoopBehind` | fasthttp-routing/context.go:183-191 | a handler in front changes nothing in what the others do but their place |
| `HandlerChains.Transparent` | fasthttp-routing/context.go:183-191 | for every chain: a handler that only calls `Next` and returns its result leaves the outcome and all that happens as they were |
| `HandlerChains.Wrapped` | fasthttp-routing/context.go:183-191 | for every chain and continuations: the outcome of a handler that calls `Next` and goes on by its result |
| `HandlerChains.Deciding` | fasthttp-routing/context.go:183-191 | a handler that turns the result of `Next` into one of its own decides the outcome; if it clears an error the chain goes on behind the handler that failed |
| `HandlerChains.NextAgain` | fasthttp-routing/context.go:183-191 | a second call of `Next` after all went well runs nothing |
| `HandlerChains.ReportedIsLast` | fasthttp-routing/context.go:178-191 | the error of a dispatch is the one its last event ended with |
| `WantQueue.WantConnQueue.PushBack` | fasthttp/client.go:2107-2109 | the two-stage queue is a FIFO: one more at the back |
| `WantQueue.WantConnQueue.PopFront` | fasthttp/client.go:2112-2125 | the front leaves, across the swap of the two stages; nothing from an empty queue |
| `WantQueue.WantConnQueue.PeekFront` | fasthttp/client.go:2128-2136 | the front, or nothing |
| `WantQueue.WantConnQueue.Len` | fasthttp/client.go:2102-2104 | the number of waiters in both stages |
| `WantQueue.WantConnQueue.ClearFront` | fasthttp/client.go:2140-2149 | drops exactly the decided waiters in front, and says whether there were any |
| `WantQueue.WantConnQueue.PopWaiting` | fasthttp/client.go:1671-1695 | takes the first waiter still waiting, together with everything before it |
| `ConnPool.AcquireKeeps` | fasthttp/client.go:1465-1538 | taking an idle connection, a slot to dial with, or a place to wait keeps the books |
| `ConnPool.EnqueueKeeps` | fasthttp/client.go:1566-1574 | queueing a waiter keeps the invariant |
| `ConnPool.CollectKeeps` | fasthttp/client.go:1533-1549 | a waiter that finds its channel closed takes its connection or its error |
| `ConnPool.CancelKeeps` | fasthttp/client.go:2066-2080 | cancelling takes back an uncollected connection, or decides the waiter |
| `ConnPool.ReleaseKeeps` | fasthttp/client.go:1724-1749 | releasing picks the first waiter still waiting, or the pool |
| `ConnPool.DeliverKeeps` | fasthttp/client.go:1724-1749 | a delivery that loses against a cancellation puts the connection into the pool |
| `ConnPool.HandOverKeeps` | fasthttp/client.go:1576-1589 | a dialed connection goes to its waiter, or is released |
| `ConnPool.ReportKeeps` | fasthttp/client.go:1576-1589 | a dial error goes to the waiter and the slot is given up |
| `ConnPool.DecKeeps` | fasthttp/client.go:1671-1695 | a slot is handed to the first waiter still waiting without changing the count, or given up |
| `ConnPool.TakeIdleKeeps` | fasthttp/client.go:1595-1663 | the cleaners move idle connections out of the pool before their slots are given up |
| `ConnPool.ShutKeeps` | fasthttp/client.go:1665-1669 | closing a connection takes it out of the books |
| `ConnPool.NextKeeps` | fasthttp/client.go:1465-1749 | every critical section of every goroutine keeps the invariant |
| `ConnPool.RunsKeepInv` | fasthttp/client.go:1465-1749 | the invariant holds after every interleaving |
| `ConnPool.CountIsExact` | fasthttp/client.go:1465-1749 | `connsCount` is the number of idle, held, delivered, dialing and being-closed connections and slots, and within the limit |
| `ConnPool.LiveIsSomewhere` | fasthttp/client.go:1465-1749 | no open connection is lost: some party has it |
| `ConnPool.OnePlace` | fasthttp/client.go:1465-1749 | no open connection has two owners |
| `ConnPool.WaitersDecidedOnce` | fasthttp/client.go:2030-2080 | a waiter's channel is closed at most once, exactly when it is decided, and an undecided one has its caller waiting |
| `ConnPool.OutcomeIsFinal` | fasthttp/client.go:2048-2080 | no action changes the outcome of a decided waiter |
| `ConnPool.ComesBackStep` | fasthttp/client.go:2066-2080 | no other goroutine takes such a connection, and the release brings it back |
| `ConnPool.DecidedForGood` | fasthttp/client.go:2030-2080 | to the end of every run a waiter keeps the one outcome it got |
| `ConnPool.LateDeliveryIsReturned` | fasthttp/client.go:1533-1549 | over every run: a connection delivered while its waiter times out stays with that waiter or the cancelling caller until the caller's release, after which it is in the pool or on its way to another waiter still waiting |
| `ConnPool.LateDeliveryHappens` | fasthttp/client.go:1533-1549 | there is a run in which a delivery and a timeout race and the cancelling caller ends up with the connection |
| `ConnPool.PoolSafety` | fasthttp/client.go:1465-1749 | over every interleaving: the count exact and within the limit, every open connection in exactly one place, every waiter decided at most once |
| `ConnOutcomes.AcquireOutcome` | fasthttp/client.go:1465-1538 | for every state: refused exactly with nothing idle, no room and no waiting; dials exactly with nothing idle and room; waits exactly with nothing idle, no room and waiting on; holds a connection exactly when one is idle |
| `ConnOutcomes.AcquireTakes` | fasthttp/client.go:1485-1502 | the idle connection taken is the last one for LIFO and the first one for FIFO, and the others keep their order |
| `ConnOutcomes.AcquireElse` | fasthttp/client.go:1471-1538 | without an idle connection: a slot is taken to dial, or a new undecided waiter belongs to the caller, or nothing changes |
| `ConnOutcomes.InitialLimit` | fasthttp/client.go:1473-1476 | the limit is `MaxConns`, or 512 when that is not positive |
| `ConnOutcomes.ReleaseOutcome` | fasthttp/client.go:1724-1749 | a released connection is for the first undecided waiter of the queue, and becomes idle exactly when there is none |
| `ConnOutcomes.DecOutcome` | fasthttp/client.go:1671-1695 | a free slot is for the first undecided waiter of the queue, and is given up exactly when there is none |
| `ConnOutcomes.NobodyOvertakes` | fasthttp/client.go:1566-1749 | whatever happens, only decided waiters and the first undecided one, which is served, leave the queue, and newcomers go to its end |
| `ConnOutcomes.FirstMessageDecides` | fasthttp/client.go:2030-2080 | the first delivery, error or cancellation decides a waiter, with what it brings, and later ones change nothing |
| `ConnOutcomes.ReleasedLate` | fasthttp/client.go:1735-1749 | a released connection goes into the pool exactly when its waiter was decided before |
| `ConnOutcomes.DialedLate` | fasthttp/client.go:1576-1589 | a dialed connection is released exactly when its waiter was decided before |
| `ConnOutcomes.CallerCollects` | fasthttp/client.go:1533-1549 | a caller that finds its channel closed has the connection it was given, or an error |
| `ConnOutcomes.CleanerTakesOldest` | fasthttp/client.go:1618-1645 | the cleaner takes the connections that became idle first |
| `ConnOutcomes.KeepAlive` | fasthttp/client.go:1465-1749 | a connection released while nobody waits is the next one a LIFO client gets |
| `ConnOutcomes.OnlyAskedClose` | fasthttp/client.go:1595-1669 | over every run: only callers that close and cleaners close connections |
| `ConnOutcomes.NearerToTheEnd` | fasthttp/client.go:1465-1749 | every action brings its goroutine nearer to its end, in at most five steps or two per connection to close, and moves no other |
| `ConnOutcomes.NoDeadlock` | fasthttp/client.go:1465-1749 | a goroutine that is not at its end can go on, or the one that has the lock can |
| `Pipeline.NextKeeps` | fasthttp/client.go:2635-2843 | every channel operation of callers, writer and reader keeps the invariant |
| `Pipeline.OrderKept` | fasthttp/client.go:2692-2843 | requests written, responses read and items in between stay in one order |
| `Pipeline.RunsKeepInv` | fasthttp/client.go:2635-2843 | the invariant holds after every run of one worker |
| `Pipeline.PipelineSafety` | fasthttp/client.go:2469-2522 | over every run: the k-th response goes to the item written k-th, no item is signalled twice, and none that is queued or held was signalled |
| `Pipeline.ReturnedIsFree` | fasthttp/client.go:2442-2452 | an item whose caller got the signal is referred to by nobody else, so it may be recycled |
| `PipelineOrder.SentInOrder` | fasthttp/client.go:2692-2790 | over every run: requests are written in the order in which they were queued, before the one in hand and those in the queue |
| `PipelineOrder.InitialCapacity` | fasthttp/client.go:2592-2606 | room for `MaxPendingRequests`, or 1024 when that is not positive |
| `PipelineOrder.EvictsOldest` | fasthttp/client.go:2499-2506 | a full queue gives up its oldest request, whose caller is told, and no other |
| `PipelineOrder.RetryOutcome` | fasthttp/client.go:2507-2512 | then a request is refused exactly when the queue is full again |
| `PipelineOrder.RoomForAll` | fasthttp/client.go:2495-2498 | with room in the queue every request gets in, at its end |
| `PipelineOrder.OnlyDeadlinesExpire` | fasthttp/client.go:2692-2740 | over every run: only an item with a deadline is left behind by its caller or dropped by the writer |
| `PipelineOrder.WorkerGoesOn` | fasthttp/client.go:2635-2676 | until writer and reader have stopped and the queue of responses is empty the worker can go on |
| `PipelineOrder.NobodyForgotten` | fasthttp/client.go:2635-2676 | when a worker has ended, whoever waits without a signal is in the queue for the next one |
| `WorkerPool.ServeKeeps` | fasthttp/workerpool.go:147-201 | taking the last ready worker, making one, or refusing keeps the invariant |
| `WorkerPool.CleanKeeps` | fasthttp/workerpool.go:101-145 | stopping obsolete ready workers keeps the invariant |
| `WorkerPool.StopKeeps` | fasthttp/workerpool.go:73-92 | Stop empties `ready` and leaves nil in each of those channels |
| `WorkerPool.ExitKeeps` | fasthttp/workerpool.go:242-250 | a worker that leaves is counted out once |
| `WorkerPool.NextKeeps` | fasthttp/workerpool.go:73-250 | every action of acceptors, workers and cleaner keeps the invariant |
| `WorkerPool.RunsKeepInv` | fasthttp/workerpool.go:73-250 | the invariant holds after every interleaving |
| `WorkerPool.ReadyIsEmpty` | fasthttp/workerpool.go:203-213 | a ready worker waits with an empty channel |
| `WorkerPool.SendHasRoom` | fasthttp/workerpool.go:147-154 | every pending send finds room in its channel, so none blocks |
| `WorkerPool.PoolSafety` | fasthttp/workerpool.go:73-250 | over every interleaving: the count is that of the live workers and within the limit, ready workers have empty channels, each accepted connection is received once or on its way to one worker, and `ready` is empty after Stop |
| `WorkerPool.StopIsFinal` | fasthttp/workerpool.go:73-92 | no action undoes Stop |
| `WorkerPool.StoppedForGood` | fasthttp/workerpool.go:73-92 | from Stop on, to the end of every run, no worker is ready |
| `WorkerPool.CleanCut` | fasthttp/workerpool.go:112-133 | the binary search, for every list of times: where it cuts, and that the workers in front of the cut are the obsolete ones if and only if no fresh worker stands before an obsolete one |
| `WorkerPool.CutIsExactIff` | fasthttp/workerpool.go:112-133 | for every list: the first workers up to the cut are exactly the obsolete ones if and only if no fresh one stands before an obsolete one |
| `WorkerPool.CleanIsExactIff` | fasthttp/workerpool.go:101-133 | in every state: the ready workers that `clean` takes away are exactly those last used before the critical time, if and only if no fresh one stands before an obsolete one in `ready` |
| `WorkerPool.OrderKept` | fasthttp/workerpool.go:203-213 | every action but an overtaken release keeps the release times in `ready` in order |
| `WorkerPool.CleanAfterRun` | fasthttp/workerpool.go:101-133 | after every run in which no release was overtaken, `clean` takes exactly the obsolete workers |
| `WorkerPool.UnsortedCuts` | fasthttp/workerpool.go:112-133 | a list on which a fresh worker is stopped, and one on which an obsolete worker is kept |
| `WorkerPool.OvertakenRun` | fasthttp/workerpool.go:203-213 | a run in which two workers note their times in one order and take the lock in the other, after which `clean` keeps an obsolete worker |
| `WorkerOutcomes.RefusedIff` | fasthttp/workerpool.go:147-201 | for every state: a connection is refused if and only if no worker is ready and the pool is at its limit |
| `WorkerOutcomes.ServedBy` | fasthttp/workerpool.go:147-201 | otherwise it is sent to the worker that became ready last, or to a new one when none is ready |
| `WorkerOutcomes.LastReleasedServes` | fasthttp/workerpool.go:147-213 | the worker released last is the next to serve |
| `WorkerOutcomes.ReleaseOutcome` | fasthttp/workerpool.go:203-213 | a worker becomes ready behind all others, or leaves when the pool is stopped |
| `WorkerOutcomes.ReceiveOutcome` | fasthttp/workerpool.go:215-240 | a worker serves the connection it finds in its channel and leaves on nil |
| `WorkerOutcomes.StopOutcome` | fasthttp/workerpool.go:73-92 | Stop puts nil into the channels of the ready workers and of no others |
| `WorkerOutcomes.CleanOutcome` | fasthttp/workerpool.go:127-145 | those the cleaner takes out of `ready`, from its front, are sent nil, in order, and nobody else is |
| `WorkerOutcomes.NearerToTheEnd` | fasthttp/workerpool.go:73-250 | in a stopped pool every action of a worker brings it nearer to its end, and no other moves it |
| `WorkerOutcomes.NoDeadlock` | fasthttp/workerpool.go:73-250 | a worker that has not left can go on, or gets a message, or is ready in a pool that was not stopped |
| `FileCache.HitKeeps` | fasthttp/fs.go:869-880 | a cache hit counts a reader |
| `FileCache.SetFreeKeeps` | fasthttp/fs.go:882-904 | a new file enters the cache with one reader |
| `FileCache.SetTakenKeeps` | fasthttp/fs.go:882-904 | a file that lost the race is released and the cached one used |
| `FileCache.UsePooledKeeps` | fasthttp/fs.go:571-599 | a pooled big-file reader is taken by one handler |
| `FileCache.CloseBackKeeps` | fasthttp/fs.go:661-684 | a big-file reader goes back to its file's pool |
| `FileCache.LeaveKeeps` | fasthttp/fs.go:615-622 | a handler that leaves is counted out |
| `FileCache.CollectKeeps` | fasthttp/fs.go:934-982 | expired files without readers are collected, those with readers kept pending |
| `FileCache.ReleaseNextKeeps` | fasthttp/fs.go:601-613 | a release closes the file and its pooled readers, once |
| `FileCache.NextKeeps` | fasthttp/fs.go:869-982 | every action of handlers and cleaner keeps the invariant |
| `FileCache.RunsKeepInv` | fasthttp/fs.go:869-982 | the invariant holds after every interleaving, and every reference points to a file or reader there is |
| `FileCache.CacheSafety` | fasthttp/fs.go:601-622 | over every interleaving: a file is released at most once and only without readers, `readersCount` is the number of handlers reading, a reader in use is open and has one user, pooled readers of a released file are closed |
| `FileCache.ClampNeverFires` | fasthttp/fs.go:615-622 | the count is positive whenever a handler leaves, so the clamp at zero never acts |
| `FileCache.OneUser` | fasthttp/fs.go:571-599 | no big-file reader is used by two handlers |
| `FileKeys.OwnFile` | fasthttp/fs.go:869-904 | over every run: every handler reads, has read, or is about to read a file that was opened for the kind and path it asked for, and what is cached under a key was opened for it |
| `FileKeys.RequestOutcome` | fasthttp/fs.go:869-880 | a request is a hit exactly when its key is in the cache, and counts one reader on the file cached under it and on no other |
| `FileKeys.SetFileOutcome` | fasthttp/fs.go:882-904 | a file is cached exactly when its key is free; otherwise the handler goes over to the cached one, and the reader is counted on the file it is to read |
| `FileKeys.CachedIsHit` | fasthttp/fs.go:869-982 | over every run: from being cached until its key is found expired, every request for the key is a hit on that file |
| `FileKeys.CollectOutcome` | fasthttp/fs.go:934-982 | the cleaner takes exactly the expired keys out; of the stale files exactly those without readers are to be released and the others stay pending |
| `FileKeys.ReleaseOutcome` | fasthttp/fs.go:601-613 | a release closes the first file in line with its idle readers, and nothing else |
| `FileKeys.ReaderReused` | fasthttp/fs.go:571-684 | the reader put back last is the next one a handler of the file gets |
| `FileKeys.NearerToTheEnd` | fasthttp/fs.go:569-982 | every action of a handler brings it nearer to its end, in at most six steps, and no other moves it |
| `FileKeys.NoDeadlock` | fasthttp/fs.go:569-982 | a handler that is not at its end can go on |
| `Percent.AppendQuotedArg` | fasthttp/bytesconv.go:329-341 | appends the quoted argument |
| `Percent.AppendQuotedPath` | fasthttp/bytesconv.go:343-357 | appends the quoted path, a lone asterisk unchanged |
| `Percent.DecodeAppend` | fasthttp/args.go:546-626 | appends the decoded string, with or without the plus rule, through the fast and the slow path |
| `Percent.ArgRoundTrip` | fasthttp/bytesconv.go:329-341 | decoding undoes argument quoting, whatever follows |
| `Percent.PathRoundTrip` | fasthttp/bytesconv.go:343-357 | decoding without the plus rule undoes path quoting, whatever follows |
| `Percent.QuotedArgChars` | fasthttp/bytesconv_table_gen.go:17-99 | a quoted argument holds unreserved characters, percent and plus only |
| `Percent.QuotedPathChars` | fasthttp/bytesconv_table_gen.go:17-99 | a quoted path holds percent and the characters the path table leaves alone |
| `PercentText.HexText` | fasthttp/bytesconv_table_gen.go:17-30 | for every byte: the value of a hexadecimal digit is its place among the sixteen, in either case, and nothing else is a digit |
| `PercentText.ArgByteText` | fasthttp/bytesconv_table_gen.go:56-80 | for every byte: letters, digits and four marks stay, a space becomes `+`, and all others `%` and two upper-case digits |
| `PercentText.PathByteText` | fasthttp/bytesconv_table_gen.go:82-99 | in paths nine marks more stay, and a space is no exception |
| `PercentText.QuotedCat` | fasthttp/bytesconv.go:329-357 | quoting goes byte by byte |
| `PercentText.DecodedText` | fasthttp/args.go:546-626 | for every front of a string: two digits give their byte, an escape with anything else or cut short stays, `+` is a space only where asked for, all else stays |
| `QueryArgs.ScanNext` | fasthttp/args.go:506-544 | fills a slot from the next segment, whatever the slot held before, and leaves the rest |
| `QueryArgs.Args.Append` | fasthttp/args.go:443-454 | one more entry behind the list, with an empty value when marked as without one, whatever the reused slot held |
| `QueryArgs.Args.ParseBytes` | fasthttp/args.go:89-103 | the slots, reused in place, hold the arguments of the query string |
| `QueryArgs.Args.AppendBytes` | fasthttp/args.go:133-148 | appends the printed list |
| `QueryArgs.ParseInvertsPrint` | fasthttp/args.go:89-148 | parsing inverts printing on lists of printable entries |
| `QueryArgs.ParsePrint` | fasthttp/args.go:89-148 | for every list: printing and parsing again drops exactly the entries without key and value and the values of entries marked as without one |
| `QueryArgs.RoundTripIff` | fasthttp/args.go:89-148 | printing and parsing again gives the list back if and only if every entry has a key or a value, and an empty value when marked as without one |
| `QueryArgs.EmptyEntryIsLost` | fasthttp/args.go:89-148 | the entry that adding an empty key and value makes does not come back |
| `QueryArgs.ParsePrintParse` | fasthttp/args.go:89-148 | for every byte string, parsing, printing and parsing again gives the same list |
| `QueryText.SegmentsParsed` | fasthttp/args.go:506-544 | segments between `&` are parsed one by one, in order |
| `QueryText.KeyValueParsed` | fasthttp/args.go:506-544 | `k=v`, split at its first `=`, gives the two decoded parts, and nothing if both are empty |
| `QueryText.KeyParsed` | fasthttp/args.go:506-544 | a segment without `=` gives an entry without value, and nothing if it is empty |
| `QueryText.EntriesPrinted` | fasthttp/args.go:133-148 | an entry is printed as its quoted key, with `=` and its quoted value unless it is without; entries are one `&` apart |
| `NormalizePath.CopyDown` | fasthttp/uri.go:600-602 | moving a tail of the buffer down over what is removed |
| `NormalizePath.DropSlashes` | fasthttp/uri.go:578-591 | the loop ends without `//` and with the same folded path |
| `NormalizePath.DropDots` | fasthttp/uri.go:593-603 | the loop ends without `/./`, brings no `//` back and keeps the folded path |
| `NormalizePath.DropParents` | fasthttp/uri.go:605-618 | the loop ends without `/../`, brings neither `//` nor `/./` back and keeps the folded path |
| `NormalizePath.DropLastParent` | fasthttp/uri.go:620-628 | takes a trailing parent reference off, down to the root |
| `NormalizePath.RemovalKeepsAbsent` | fasthttp/uri.go:593-618 | removing text from slash to slash makes no new `//`, `/./` or `/../` |
| `NormalizePath.RemoveParent` | fasthttp/uri.go:605-618 | removing the first `/../` with the segment before it is one step of the fold |
| `NormalizePath.TrimmedIsNormal` | fasthttp/uri.go:620-628 | the trimmed path has the same fold and no pattern left |
| `NormalizePath.NormalizedPath` | fasthttp/uri.go:573-628 | the result is the stack fold of the decoded, rooted path; it starts with `/`, has no `//`, `/./`, `/../` and does not end in `/..`; it is fully normal if and only if the decoded, rooted path does not end in `/.` |
| `PathFold.CleanIsNormal` | fasthttp/uri.go:573-628 | a path without those patterns is its own fold |
| `PathFold.NormalIdempotent` | fasthttp/uri.go:573-628 | folding twice is folding once |
| `PathFold.DropSegment` | fasthttp/uri.go:578-603 | a double slash or a `.` segment inside a path may be dropped without changing the normal form |
| `PathFold.CancelSegment` | fasthttp/uri.go:605-618 | `..` inside a path goes with the segment before it |
| `PathFold.RootParent` | fasthttp/uri.go:605-618 | `..` at the root has no effect |
| `PathFold.CancelLast` | fasthttp/uri.go:620-628 | a final `..` goes with the segment before it and leaves the slash |
| `PathFold.FinalDotStays` | fasthttp/uri.go:593-603 | for every rooted path: its normal form ends in `/.` if and only if the path does |
| `PathFold.FullyNormalIff` | fasthttp/uri.go:164-166 | for every rooted path: its normal form has no dot segment, and no empty one but the last, if and only if the path does not end in `/.` |
| `PathFold.FinalDotIsKept` | fasthttp/uri.go:593-603 | a path that keeps its final dot |
| `Uri.SplitHostPieces` | fasthttp/uri.go:854-882 | without an authority the URI is kept whole; otherwise it is the scheme, host and rest put together, the host free of `/` and `?` |
| `Uri.URI.Parse` | fasthttp/uri.go:283-357 | fails exactly on control bytes or a refused host, and otherwise sets every field as the reference parse does |
| `UriText.AbsoluteParsed` | fasthttp/uri.go:283-357 | for every absolute URI, whatever host was given with it: its scheme (https with TLS), user, password, host, path, query and hash become the fields, each from its place in the text |
| `UriText.RelativeParsed` | fasthttp/uri.go:283-357 | for every URI without a host of its own: user and host from the given host, path, query and hash from the URI, no scheme but that of TLS |
| `UriText.HostlessParsed` | fasthttp/uri.go:283-357 | without any host the scheme is http |
| `UriText.ControlRefused` | fasthttp/uri.go:286-288 | a byte below 32 or 127 anywhere makes parsing fail |
| `UriText.LowerText` | fasthttp/bytesconv_table_gen.go:33-43 | lowering changes the 26 capital letters only |
| `UriText.PreparedText` | fasthttp/uri.go:573-577 | a path is decoded, with a slash put in front unless it has one |
| `UriText.DocumentedPath` | fasthttp/uri.go:164-166 | the example of the documentation is decoded and normalised as it says |
| `Uri.URI.SplitPath` | fasthttp/uri.go:321-356 | hash after the first `#`, query after the first `?` before it, the path normalised |
| `Uri.URI.ParseQueryArgs` | fasthttp/uri.go:892-898 | the argument list is that of the query string, parsed once |
| `Uri.URI.RequestURI` | fasthttp/uri.go:688-705 | the quoted path, then the printed arguments if there are any, else the query |
| `Uri.ContainsCTL` | fasthttp/uri.go:901-909 | is there a control byte |
| `Uri.ParsedIsSound` | fasthttp/uri.go:283-357 | every parsed URI has a normal path and a query without control bytes and `#` |
| `Uri.RequestIsRelative` | fasthttp/uri.go:854-882 | a request URI is never taken for an absolute one, even with `://` in the query |
| `Uri.Reparse` | fasthttp/uri.go:688-705 | for every URI that parses: reparsing its request URI under any accepted host gives the same path and the same query, or, once the arguments were parsed and there are any, the same arguments, as they are printed |
| `Uri.ReadBack` | fasthttp/uri.go:688-705 | the same on two URI objects: print one, parse it into the other |
| `Chunked.ReadHexInt` | fasthttp/bytesconv.go:254-280 | reads at most 15 digits, so the value stays below 2^60; errors for none, too many, and the end of the input |
| `Chunked.WriteHexInt` | fasthttp/bytesconv.go:284-307 | the digits of every non-negative `int` fit the 16-cell buffer and are appended |
| `Chunked.HexRoundTrip` | fasthttp/bytesconv.go:254-307 | for every number: written and read again it comes back if below 16^15 and is refused otherwise |
| `Chunked.ParseChunkSize` | fasthttp/http.go:2319-2348 | the number, any extension, and a line end, or the error |
| `Chunked.ReadCrLf` | fasthttp/http.go:2350-2365 | accepts exactly a line end and moves behind it |
| `Chunked.AppendBodyFixedSize` | fasthttp/http.go:2249-2280 | with arbitrary short reads and a buffer that is replaced when too small: the bytes so far and exactly n more, or everything there was and the unexpected end |
| `Chunked.ReadChunk` | fasthttp/http.go:2306-2315 | one chunk with its line end taken off, or the error with what was read of it |
| `Chunked.ReadBodyChunked` | fasthttp/http.go:2287-2317 | the body and the position of the trailer, or the error, as the reference decoder has it, and in any case the bytes received so far |
| `Chunked.ReceivedIsBody` | fasthttp/http.go:2287-2317 | on accepted input the bytes received are the body |
| `Chunked.ReceivedWithinLimit` | fasthttp/http.go:2303-2305 | for every input, with a positive limit: no more than a line end beyond the limit is ever received |
| `Chunked.WriteChunk` | fasthttp/http.go:2151-2169 | appends one chunk; the last one without a line end |
| `Chunked.WriteBodyChunked` | fasthttp/http.go:2068-2095 | however the reader cuts the body, what is written decodes to the body, with any trailer behind it |
| `Chunked.DecodeEncode` | fasthttp/http.go:2287-2317 | for all pieces, limits and trailers: decoding inverts encoding and stops at the trailer, and with a positive limit fails as too large exactly when the body exceeds it |
| `Chunked.LimitIsExact` | fasthttp/http.go:2303-2305 | on every accepted input a limit changes the outcome exactly when the body exceeds it |
| `ChunkText.AcceptedIff` | fasthttp/http.go:2287-2348 | for every input, body and rest: the decoder accepts with that body and rest if and only if the input is a list of chunks with any extensions and that data, a line of size zero, and the rest |
| `ChunkText.LineRead` | fasthttp/http.go:2319-2348 | a size line of 1 to 15 digits is read whatever its extension |
| `ChunkText.LineSpelled` | fasthttp/http.go:2319-2348 | and nothing else is read as one |
| `ChunkText.ChunksInFront` | fasthttp/http.go:2287-2317 | what comes behind complete chunks is treated as if their data had been read before |
| `ChunkText.DataErrors` | fasthttp/http.go:2306-2315 | data that is cut short is an unexpected end, data without a line end a broken chunk, and what there is of it has been received |
| `ChunkText.LineErrors` | fasthttp/bytesconv.go:254-280 | without a size line: the end of the input, no digit, too many digits, or a broken line, and nothing is received |
| `ChunkText.OverLimit` | fasthttp/http.go:2303-2305 | a chunk beyond the limit is refused by its size line and nothing of it is received |
| `ChunkText.FirstDigitCounts` | fasthttp/bytesconv.go:254-280 | the value of a number is positional |
| `ChunkText.DigitsWritten` | fasthttp/bytesconv.go:284-307 | numbers are written in lower case without leading zeros |
| `ChunkStream.RequestStream.Read` | fasthttp/streaming.go:25-59 | a read hands out the next bytes of what is pending and leaves the rest pending; it ends at the trailer, which is read there and whose failure is passed on, or at the bare end of the input |
| `ChunkStream.RequestStream.Trailer` | fasthttp/streaming.go:36-42 | the trailer is taken off the input; the end of the input in it still ends the body well, any other failure does not |
| `ChunkStream.RequestStream.ReadPart` | fasthttp/streaming.go:45-59 | the next bytes of the current chunk, and its line end behind the last of them |
| `ChunkStream.ReadAll` | fasthttp/streaming.go:25-59 | on input the buffered decoder accepts, reads of any lengths concatenate to its body, reach the trailer where it does and report the failure of the trailer or the end; on other input they end as if complete exactly when it is cut between chunks |
| `ChunkStream.CutIsEOF` | fasthttp/http.go:2287-2317 | the buffered decoder reports a bare end of input exactly when the input is cut between chunks |
| `ChunkStream.CutStreamEndsWell` | fasthttp/streaming.go:32-35 | an input cut after its first chunk, on which the stream ends as if complete |
| `CleanPath.CleanUrlPath` | helpers/http.go:20-123 | for every path: the split, fold and join of it, with a trailing slash after a slash or a final dot; every buffer write in bounds |
| `CleanPath.BufApp` | helpers/http.go:127-149 | one more byte of output, into a buffer made only when the output departs from the input |
| `CleanPath.Backtrack` | helpers/http.go:78-91 | goes back to before the last segment |
| `CleanPath.Element` | helpers/http.go:93-107 | one more segment, behind a slash unless it is the first |
| `CleanPath.Finish` | helpers/http.go:110-122 | the trailing slash, and the input's own prefix when nothing changed |
| `CleanPath.CleanedTwice` | helpers/http.go:20-123 | cleaning twice is cleaning once |
| `CleanText.DropClean` | helpers/http.go:65-77 | a double slash or a `.` segment inside a path may be dropped without changing the result |
| `CleanText.CancelClean` | helpers/http.go:78-91 | `..` inside a path goes with the segment before it |
| `CleanText.RootParentClean` | helpers/http.go:78-91 | `..` at the root has no effect |
| `CleanText.UnrootedClean` | helpers/http.go:37-50 | a path without a slash in front is taken as if it had one |
| `CleanText.FinalDotClean` | helpers/http.go:65-77 | a final `.` leaves the slash before it |
| `CleanText.FinalParentClean` | helpers/http.go:78-91 | a final `..` goes with the segment before it and leaves no slash |
| `CleanText.CleanIsCleaned` | helpers/http.go:20-123 | a path with nothing to rewrite is clean as it is |

## Left out

- Regular expressions: matching is uninterpreted, patterns that do not compile are not modelled, and a node's compiled pattern is computed from its token when it is needed instead of being stored.
- RouteStore.Store.Add: asks for keys in which every `<` is closed; what an unclosed one, filed as plain text, does to later keys is not modelled.
- Routers.Router.Add: asks for the same, and leaves nil data and more than MaxInt32 additions to a store out.
- ReverseRoute.BuildTemplate: asks for the same of a path; the scan of an unclosed token is not modelled.
- ReverseRoute.NewRoute: does not model the template string and the entry in the registry of named routes, which building by index does not use.
- Route groups, the route registry, `URL`, `URLByNames`, allowed methods and content negotiation: easy next to the store.
- Handlers that do not terminate, panic, or share the context with another goroutine.
- Changing MaxConns while requests run, retries, time limits on connections, and fairness or liveness of the pool.
- WantQueue.WantConnQueue.PopFront: the reuse of the two backing arrays is not modelled, only their contents.
- Restarting the pipeline worker, write batching and deadlines on the wire.
- Worker channels without a buffer (GOMAXPROCS of 1), and when the cleaner runs: it may run at any time and with any critical time.
- The cache manager that caches nothing, creation of compressed files, directory pages and byte ranges.
- What a trailer holds: reading it is a parameter, as to the bytes it takes and its failure; streaming with a known content length; the over-limit prefetch of streamed bodies.
- Input errors other than its end, and readers that return no bytes without an error.
- Chunked.ReadBodyChunked: does not model that allocating the buffer for a huge announced chunk can fail.
- Uri.URI.Parse: says nothing about the fields after a failed parse beyond validity; `parseHost` is a parameter.
- Windows path rules, `DisablePathNormalizing`, relative updates of a URI and its full form.
- CleanPath.CleanUrlPath: the 128-byte stack buffer and the heap buffer are one fresh buffer, as only the allocation differs.
- Sockets, TLS, compression, multipart bodies, cookies, sessions and middleware.
