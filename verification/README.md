# Verified model of go-webserver

A Dafny model of the parts of go-webserver that carry state, loops or arithmetic, with proofs of
what they promise over all inputs, all runs and all interleavings. `dafny verify dfyconfig.toml`
checks everything.

## What is modelled

**Rate limiter** (`RateLimiterEntry`, `RateLimiter`, `RateLimiterWindows`, `RateLimiterThreads`,
`RateLimiterDeadlines`, `RateLimiterAlone`).
Per key the middleware stores the hits of the current window, those of the previous one and the end
of the current one, in 16 bytes. `RateLimiter` has the middleware as classes whose fields are
updated in place. `RateLimiterWindows` says what the counters mean over a whole run: they are the
request log, and the weighted estimate bounds what is admitted. `RateLimiterThreads` interleaves any
number of requests over any keys, one atomic step at a time, with 16 striped locks, failing storage
accesses and a clock that ticks at any moment, and shows that the stored counters are a serial
application of all saved hits and refunds and that the run studied before is what the locks produce.
`RateLimiterAlone` ties the two together: a request alone in the step system is served as the class
serves it.

`RateLimiterWindows` assumes of a storage only that it keeps an entry for the time-to-live given to
`save`; it may drop it at the deadline, later or never. The storage of `RateLimiter` and
`RateLimiterThreads` is one of these: an external one drops an entry exactly at its deadline, the
in-memory cache keeps it for good. The middleware goes by whole seconds (line 131) while a deadline
is an exact moment, so the clock of the model ticks any number of times a second, for middleware and
storage alike.

With an external storage the branch `elapsed >= expiration` of `setExpiration` can then be taken in
two ways: when a second begins between the load (line 124) and the reading of the clock, and also by
requests that load, read the clock and save at one and the same moment, within the very second in
which the deadline lies. `RateLimiterDeadlines` has both runs for every window length, says of every
request in every interleaving exactly when it takes the branch, and says exactly when the stored
counters of a key with quick requests are the request log.

**Middleware chain** (`RequestChain`, `RequestContext`). Handlers are finite scripts that may do
anything the chain can observe, including calling `Next` any number of times. `RequestChain` gives
the meaning of a chain as composition of functions, without any index. `RequestContext` has the
context class with its single index, proves that the index machine computes that meaning from every
index on, and that contexts recycled by the pool, which resets neither the index nor the lengths,
answer every request as a new context would, also when requests overlap.

**Flame graph** (`FlameGraphSpec`, `FlameGraph`). The builder grows a trie of heap nodes in place.
The result is a tree whose nodes are exactly the prefixes of the samples' symbolised stacks and hold
exactly their times, in 64-bit arithmetic; times are conserved at every node and over the tree.

**Server lifecycle** (`ServerLifecycle`). Any number of concurrent `Start` and `Stop` calls, the
listener goroutine and `serveLoop`, one atomic step at a time in any order: who wins, who is told
what, and that in every run that is fair to the calls a won `Start` and a `Stop` asked of a running
server come back, the latter with the server stopped.

**Entity tags** (`Decimal`, `ETag`). The decimal printer, the tag, and an exact account of which
lists of entity tags (sections 8.8.3 and 13.1.2 of RFC 9110) are answered with 304 by the byte-wise
comparison and the substring search, in `Handle` as in the tests it branches on.

**Paths** (`Splitting`, `UrlPath`). The normaliser as a stack machine, proved against an independent
description of the names that survive, and the segment count used when serving files.

**Matchers** (`RemoteAddress`, `Subdomain`). Two index loops proved against declarative
specifications.

Where code and comments disagree the code is followed: the comment at `middleware/rate_limit.go:28`
gives 6 as the default limit, the code uses 10.

Inputs rather than parts of the model: clock readings, storage failures, the checksums (crc32), what
`Next` answered to the rate limiter, the router's choice, the address parser, whether a listener can
be created, and when it fails.

## Model

| member | source | states |
|---|---|---|
| RateLimiterEntry.RolledWindow | middleware/rate_limit.go:259-281 | After `setExpiration` the window contains the timestamp, has 1 <= resetTime <= expiration, and is the old one or starts no earlier than the old one ends. |
| RateLimiterEntry.RolledExactly | middleware/rate_limit.go:259-281 | Which window that is and what it carries, in each of the four cases: first hit, same window, the next one, a later one. |
| RateLimiterEntry.CarryOverDecays | middleware/rate_limit.go:139-144 | Within a window the weighted carry-over is at most the previous hits and never grows with time. |
| RateLimiterEntry.RateBounds | middleware/rate_limit.go:144 | The estimate lies between the current hits and the sum of both counters. |
| RateLimiterEntry.RateIsWeighted | middleware/rate_limit.go:144 | The estimate is the current hits plus the previous ones weighted by the share of the window that is left, rounded down. |
| RateLimiterEntry.RateFits | middleware/rate_limit.go:144 | The 64-bit product in the estimate cannot overflow for windows below 2^32 seconds. |
| RateLimiterEntry.DecodeEncode | middleware/rate_limit.go:213-229 | Decoding an encoded entry gives it back. |
| RateLimiterEntry.EncodeDecode | middleware/rate_limit.go:213-229 | Every 16 bytes are the encoding of what they decode to. |
| RateLimiterEntry.EncodeLayout | middleware/rate_limit.go:213-217 | Which byte of an encoded entry holds which digit of which field: little-endian, at offsets 0, 4 and 8. |
| RateLimiter.Item.EncodeInto | middleware/rate_limit.go:213-217 | The buffer holds the encoding, and decoding it gives the item. |
| RateLimiter.Item.DecodeFrom | middleware/rate_limit.go:219-229 | The fields become the decoded entry; any other length resets them. |
| RateLimiter.Item.Load | middleware/rate_limit.go:231-242 | The item becomes what is live in the storage, or stays as it was on an error. |
| RateLimiter.Item.Save | middleware/rate_limit.go:244-257 | Exactly this key is stored, with its deadline; nothing on an error. |
| RateLimiter.Item.SetExpiration | middleware/rate_limit.go:259-281 | The in-place roll-over is the function `Rolled` whose windows are studied below; no uint64 step wraps. |
| RateLimiter.RateLimiter.constructor | middleware/rate_limit.go:78-85 | The limit, and the window cut to whole seconds; the limiter can be used exactly if the configured window is not a positive one below a second. |
| RateLimiter.RateLimiter.CountHit | middleware/rate_limit.go:115-157 | First locked section: the hit is added to what was found and saved with its time-to-live, or nothing is stored; what remains is the limit less previous hits * seconds left / window and the current hits; the lock is free again on every path. |
| RateLimiter.RateLimiter.ReturnHit | middleware/rate_limit.go:180-198 | Second locked section: one hit is given back exactly if one is left; the lock is free again on every path. |
| RateLimiter.RateLimiter.AfterNext | middleware/rate_limit.go:177-208 | The response after `Next` and the entry then stored, refund included. |
| RateLimiter.RateLimiter.Handle | middleware/rate_limit.go:108-208 | A whole request: rejected if and only if that estimate is above the limit, what the client is told, what is left stored, no other key touched, all locks as before. |
| RateLimiter.ServedExactly | middleware/rate_limit.go:108-208 | For every entry found, every failure of the storage and every answer of `Next`: when each response is given, with which numbers, and which entry is left stored. |
| RateLimiter.FailuresAreFree | middleware/rate_limit.go:180-198 | With skipped failures, requests of a key that fail one after the other are never rejected, each is told the whole limit remains, and nothing stays counted. |
| RateLimiterWindows.WindowsDisjoint | middleware/rate_limit.go:259-281 | Two windows of a run are the same or do not overlap. |
| RateLimiterWindows.CurrentIsLogged | middleware/rate_limit.go:130-150 | After every saved hit the counter is the number of logged hits in the current window (modulo 2^32). |
| RateLimiterWindows.PreviousIsLogged | middleware/rate_limit.go:263-280 | Unless the window was opened late, the carry-over is the number of logged hits in the window before. |
| RateLimiterWindows.PreviousIsStale | middleware/rate_limit.go:274-276 | A window opened late carries the hits of an older window although none were logged in the window before. |
| RateLimiterWindows.PreviousExactIff | middleware/rate_limit.go:263-280 | The carry-over is exact if and only if the window was not opened by the `elapsed >= expiration` branch. |
| RateLimiterWindows.CountersAreTheLog | middleware/rate_limit.go:130-150 | Both counters are the request log if and only if the window was not opened by that branch. |
| RateLimiterWindows.LateOpener | middleware/rate_limit.go:263-280 | That is so if and only if some request of the window found the entry a whole window after its end. |
| RateLimiterWindows.AdmittedExactly | middleware/rate_limit.go:139-175 | A request whose window was not opened late is admitted if and only if the hits logged in the window before, times the seconds left, divided by the window length and rounded down, plus the hits logged so far in its own window are within Max. |
| RateLimiterWindows.IdleCacheCarriesOldHits | middleware/rate_limit.go:231-281 | A concrete run on the in-memory cache where the carry-over is not that of the previous window. |
| RateLimiterWindows.AdmittedPerWindow | middleware/rate_limit.go:146-175 | At most Max requests are admitted into any window. |
| RateLimiterWindows.AdmittedPerInterval | middleware/rate_limit.go:146-175 | Any window length of consecutive seconds admits at most twice Max. |
| RateLimiterWindows.AdmittedAcrossBoundary | middleware/rate_limit.go:139-147 | What the weighting is for: requests admitted after a window boundary plus the weighted share of those admitted before it stay within Max. |
| RateLimiterThreads.AlwaysInv | middleware/rate_limit.go:108-208 | Every interleaving keeps the invariant: entries are serial applications, working copies in locked sections are current, locks match the holders. |
| RateLimiterThreads.Serializable | middleware/rate_limit.go:108-208 | No update is lost: the stored entry is the serial application of the saved hits and refunds in lock order, and an entry is only started afresh if it is the first or an external storage was free to forget the one before, whose window was over. |
| RateLimiterThreads.SavesAreOwned | middleware/rate_limit.go:149-193 | Every save belongs to one request, each request saves its hit at most once, and one that is let through has saved it. |
| RateLimiterThreads.FailedGiveBack | middleware/rate_limit.go:180-198 | A request gives a hit back at most once, after saving it, and only if `Next` answered it with 400 or more; one that did fail and has ended gave it back, or found nothing to give back, or met a storage failure. |
| RateLimiterThreads.CounterIsHitsLessRefunds | middleware/rate_limit.go:134-187 | The hit counter is the hits saved since the window opened less the refunds: exactly while those hits are below 2^32, modulo 2^32 always. |
| RateLimiterThreads.LocksHeldExactly | middleware/rate_limit.go:108-208 | A request owns its slot's lock exactly while in a locked section; none while `Next` runs or after it ended. |
| RateLimiterThreads.HolderReleases | middleware/rate_limit.go:108-208 | A held lock is released after at most four steps of its holder, also when a storage access fails. |
| RateLimiterThreads.UnblockedMoves | middleware/rate_limit.go:108-208 | A request that has not ended and does not wait for a held lock changes with its next step, whatever fails. |
| RateLimiterThreads.SomeoneCanMove | middleware/rate_limit.go:108-208 | No deadlock: while a request has not ended, some request that has not ended is not waiting for a held lock. |
| RateLimiterThreads.HistoryIsFaithfulRun | middleware/rate_limit.go:124-150 | With refunds off the history the locks produce is a run as in RateLimiterWindows: sorted, and forgotten only after the time-to-live. |
| RateLimiterThreads.ForwardedAtMostTwice | middleware/rate_limit.go:159-178 | In every interleaving at most twice Max of a key's requests whose hits are stamped in one window length of seconds are handed to `Next`. |
| RateLimiterThreads.ForwardedPerWindow | middleware/rate_limit.go:159-193 | In every interleaving, refunds on or off, of the requests whose hits fall into one window at most Max are handed to `Next`, and one more for each hit given back in that window. |
| RateLimiterThreads.ForwardedAcrossBoundary | middleware/rate_limit.go:139-178 | In every interleaving those stamped after a window boundary plus the weighted share of those before it stay within Max. |
| RateLimiterThreads.StoredIsTheLogIff | middleware/rate_limit.go:130-150 | In every interleaving the stored counters are the request log if and only if the window was not opened late. |
| RateLimiterThreads.ForwardedExactly | middleware/rate_limit.go:139-178 | In every interleaving, refunds on or off, a request whose hit was saved is handed to `Next` if and only if the weighted estimate over the counters it left is within Max. |
| RateLimiterThreads.ForwardedByLog | middleware/rate_limit.go:139-178 | In every interleaving with refunds off, and unless its window was opened late, that is if and only if the request log says so. |
| RateLimiterDeadlines.LateDespiteDeadline | middleware/rate_limit.go:124-150 | For every window length and any fineness of the clock, a run in which the second changes between load and clock reading and a window is opened late with a stale carry-over. |
| RateLimiterDeadlines.LateThoughPrompt | middleware/rate_limit.go:124-150 | On a clock finer than seconds also one in which no request takes any time between load and save. |
| RateLimiterDeadlines.LateExactly | middleware/rate_limit.go:124-150 | In every interleaving a request takes the late branch if and only if it loaded before the entry's deadline and read the clock a whole window after its end. |
| RateLimiterDeadlines.PromptCountersAreTheLog | middleware/rate_limit.go:124-150 | If no second begins while a request of the key is between load and save, the stored counters are the log if and only if no request of the current window loaded in the second of the deadline and before it. |
| RateLimiterAlone.AloneIsServed | middleware/rate_limit.go:108-208 | A request alone in the step system ends without a lock, with the response and the stored entry of `Served`, whatever fails and whenever the clock is read. |
| RateLimiterAlone.AloneIsReachable | middleware/rate_limit.go:108-208 | That run is one of the interleavings. |
| RequestChain.ServerAppends | request.go:226-255 | Nothing later in the chain takes back what an earlier handler wrote. |
| RequestChain.CutOff | request.go:226-255 | A middleware that does not call `Next` cuts off everything after it. |
| RequestChain.ExecOnce | request.go:226-255 | A middleware that calls `Next` once on every path is its first half, the rest of the chain, then its second half, which gets the rest's error. |
| RequestChain.Onion | request.go:226-255 | Any middlewares that call `Next` once are entered once each, in order, and left in reverse, around whatever the rest does. |
| RequestChain.EntryTrace | request.go:226-255 | On the way in the trace grows by the first halves in order. |
| RequestChain.ExitTrace | request.go:226-255 | On the way out it grows by the second halves in reverse. |
| RequestChain.OnionRequest | request.go:226-255 | A whole request with status 200 through any such server middlewares, router, route middlewares and handler, and back out in opposite order, with its trace. |
| RequestChain.RouterAnswers | request.go:233-242 | If the router writes another status than 200, or that was set before, no endpoint runs: the response goes back out through the server middlewares, without an error from the router stage. |
| RequestChain.NothingSelected | request.go:235-241 | Status 200 and no endpoint selected: they get the error "path not handled". |
| RequestChain.NextInHandler | request.go:246-249 | A handler's own calls of `Next` are all refused: it goes on with that error and the response as it was. |
| RequestChain.OnionOfArounds | request.go:226-255 | For middlewares that enter, call `Next` and leave with its error, that is the names in order and back, and the inner error. |
| RequestContext.Context.SetHandlerParams | request_internal.go:38-42 | The endpoint is selected and its length is current. |
| RequestContext.Context.RouterHandler | webserver_internal.go:25-33 | The router's step: an endpoint is selected or the response is written. |
| RequestContext.Context.RouteAndContinue | request.go:233-242 | The router stage computes `Dispatch`, whatever stale length the recycled context holds: the router's own answer with no error, or "path not handled", or the endpoint. |
| RequestContext.Context.Next | request.go:226-255 | From every index, `Next` gives the response and error of the composed rest of the chain, restores the index, which is the number of live calls, and nests at most srvLen + routeLen + 3 deep; past the handler it is an error and changes nothing. |
| RequestContext.Context.Call | request.go:231-246 | Running one handler is running its script with the rest of the chain as `Next`. |
| RequestContext.Pool.NewRequestContext | request_pool.go:29-36 | A recycled or new context is ready at index 0 with no endpoint, and is no longer in the pool. |
| RequestContext.Pool.FreeRequestContext | request_pool.go:38-52 | The context goes back fit for reuse, its lengths not reset. |
| RequestContext.Pool.Handle | webserver_internal.go:11-23 | One request through the pool gets the composed chain's own response if the chain ends without an error, else what the error handler makes of the two, and nests at most srvLen + routeLen + 3 deep. |
| RequestContext.HandleAll | webserver_internal.go:11-23 | Over any sequence of requests recycling contexts, each is answered as by a context of its own, within that depth. |
| RequestContext.ServeOverlapping | request_pool.go:29-52 | The same for requests that overlap in any order of checkouts, runs and returns: contexts checked out stay different from each other and from all in the pool. |
| FlameGraphSpec.TimeConserved | debug_profiles.go:275-310 | Time below a path = its own time + times below its callees + time cut off there. |
| FlameGraphSpec.SelfTimesAddUp | debug_profiles.go:304-308 | With symbolised leaves the own times of all paths add up to the root's total. |
| FlameGraphSpec.OrderIrrelevant | debug_profiles.go:275-310 | The times do not depend on the order of the samples. |
| FlameGraphSpec.RootTotal | debug_profiles.go:275-276 | The root's time is the sum of the chosen value of every sample. |
| FlameGraphSpec.OneMoreSample | debug_profiles.go:275-308 | One more sample adds exactly its chosen value to the paths its stack begins with, to the own time of its whole stack if the leaf is symbolised, and nothing elsewhere. |
| FlameGraphSpec.StackExactly | debug_profiles.go:278-285 | A stack is the function names of the first lines of all symbolised locations, last location first. |
| FlameGraph.Node.FindChild | debug_profiles.go:288-293 | The child of this name, or none if there is none. |
| FlameGraph.Descend | debug_profiles.go:286-302 | Finding or appending a child keeps the tree and changes no time. |
| FlameGraph.Walk | debug_profiles.go:278-308 | The walk along the stack, whatever nodes are there already or have to be appended. |
| FlameGraph.AddSample | debug_profiles.go:275-310 | Entering one sample turns the graph of the samples so far into the graph of one more: every node on its stack gains exactly `values[v]`, new nodes are labelled from it, old ones keep their labels. |
| FlameGraph.CreateFlameGraph | debug_profiles.go:258-314 | The result is the graph of the profile's samples at the first value of type cpu in nanoseconds, or nothing exactly if there is none; the root has the sum of those values modulo 2^64, every node the file and line of the first sample reaching it. |
| FlameGraph.GraphSays | debug_profiles.go:275-310 | A node exists exactly for the prefixes of samples' stacks and holds the sum of their values and of those ending there. |
| FlameGraph.GraphIsTree | debug_profiles.go:278-309 | A child is in one child list only, once, has no sibling of its name, and is neither the root nor any node above it. |
| FlameGraph.PathsAreLinks | debug_profiles.go:278-309 | A node one step further along a path is exactly the child of that name. |
| FlameGraph.NodeBalanced | debug_profiles.go:304-307 | At every node: time = own time + children's times + time cut off there. |
| FlameGraph.TreeBalanced | debug_profiles.go:304-307 | With symbolised leaves the own times in the whole tree add up to the root's time. |
| ServerLifecycle.AlwaysInv | webserver.go:271-317 | Every interleaving of starts, stops and their goroutines keeps the invariant. |
| ServerLifecycle.StepsAreLegal | webserver_serve.go:28-67 | Despite plain stores the state only goes 1-2, 2-1, 2-3, 3-4, 4-5 or stays; STOPPED is final. |
| ServerLifecycle.OneServer | webserver.go:271-305 | At most one `Start` succeeds and at most one `serveLoop` exists. |
| ServerLifecycle.StartWins | webserver.go:271-275 | The next step of a `Start` that was called wins if and only if the server was not started, and else changes nothing. |
| ServerLifecycle.StartReturns | webserver.go:275-305 | In every run fair to it, a `Start` that has won succeeds with the server running and its loop begun if the listener could be created, and else fails with the state put back. |
| ServerLifecycle.OneStopper | webserver.go:308-317 | At most one `Stop` wins; its send never blocks; it returns only in STOPPED. |
| ServerLifecycle.StopWins | webserver.go:308-311 | The next step of a `Stop` that was called moves the server to STOPPING if and only if it is running, and else changes nothing. |
| ServerLifecycle.ListenerNeverBlocks | webserver_serve.go:29-33 | The listener goroutine's send never blocks. |
| ServerLifecycle.HandlerRunsExactly | webserver_serve.go:44-50 | The listen-error handler runs exactly if there is one and the error taken is one. |
| ServerLifecycle.ErrorsComeFromServe | webserver_serve.go:29-44 | What the channel holds and what the loop takes from it is what `Serve` returned, and the handler runs only after `Serve` returned an error. |
| ServerLifecycle.ShutsDown | webserver_serve.go:51-60 | A server that stops although `Serve` never returned has been shut down on the way. |
| ServerLifecycle.StopInErrorHandler | webserver_serve.go:44-50 | `Stop` called while the listen-error handler runs returns at once. |
| ServerLifecycle.StopGetsThere | webserver_serve.go:42-63 | Once a `Stop` has won, every useful step, whichever channel the select takes, takes the server closer to STOPPED and no step takes it away. |
| ServerLifecycle.UsefulStays | webserver_serve.go:42-63 | A useful step stays useful until one is taken or the end has come closer. |
| ServerLifecycle.LoopStepsLower | webserver_serve.go:42-63 | Every step `serveLoop` takes lowers its rank, and it stands still only when done or waiting with both channels empty. |
| ServerLifecycle.StopCanReturn | webserver.go:308-317 | From any such moment the run can be continued until this `Stop` comes back with the server stopped. |
| ServerLifecycle.StopReturns | webserver.go:308-317 | In every run in which that `Stop`, the `Start` that succeeded and its `serveLoop` keep getting their turns, it does come back, with the server stopped. |
| ServerLifecycle.RunningStops | webserver.go:308-317 | In every run fair to the calls, a `Stop` asked of a running server comes back with the server stopped, because some `Stop` won or `Serve` returned by itself. |
| Decimal.ParseNumeral | middleware/helpers.go:7-22 | Parsing the printed numeral gives the number. |
| Decimal.NumeralDigits | middleware/helpers.go:10-19 | The character i places from the right is the digit of n / 10^i. |
| Decimal.NumeralShortest | middleware/helpers.go:7-22 | No numeral of the number is shorter. |
| Decimal.TwentyDigits | middleware/helpers.go:8-19 | A uint64 needs at most 20 digits, so the scratch buffer is never underrun. |
| Decimal.FillFromEnd | middleware/helpers.go:10-19 | The digit loop leaves the numeral at the end of the scratch buffer. |
| Decimal.FastUint2Bytes | middleware/helpers.go:7-22 | Exactly the numeral is written, as far as it fits, and nothing else changes. |
| ETag.ReadBack | middleware/etag.go:61-68 | The tag's content parses back to length and checksum. |
| ETag.SameTag | middleware/etag.go:53-70 | Two bodies get the same tag exactly if length and checksum agree. |
| ETag.MakeTag | middleware/etag.go:53-70 | The buffer is filled to exactly the tag, optional `W/`, quote, length, hyphen, checksum, quote, and never overrun. |
| ETag.Handle | middleware/etag.go:28-104 | When the answer is 304, tagged or left alone: never 304 without an If-None-Match; for a list of entity tags, empty or not, 304 exactly if the list has a match as ETag.MatchedExactly says. |
| ETag.OccursInList | middleware/etag.go:90 | Quoted text found in a list is always a whole tag of the list, and after a slash a weak one. |
| ETag.NotModifiedExactly | middleware/etag.go:72-97 | Exactly which lists of entity tags get 304, in both modes. |
| ETag.MatchedExactly | middleware/etag.go:72-97 | The same read off the items: one with the response's own content, and weak if the response's tag is; but a list that begins with `W/` only if it is that one item. |
| ETag.NotModifiedIsSound | middleware/etag.go:72-97 | A 304 is sent only if some listed tag weakly matches. |
| ETag.StrongModeIsExact | middleware/etag.go:90-97 | In strong mode, for a list not beginning with `W/`, the search agrees with comparing tag by tag. |
| ETag.AgreesExactly | middleware/etag.go:72-97 | In both modes, exactly which lists get the answer that comparing tag by tag gives. |
| ETag.MissedMatches | middleware/etag.go:76-97 | Two lists that have a matching tag and still get the whole response. |
| Splitting.SplitAt | util/uri.go:28 | Splitting at a separator splits both sides. |
| Splitting.SplitJoin | util/uri.go:28-44 | Splitting what was joined gives the parts back. |
| UrlPath.SanitizeUrlPath | util/uri.go:14-55 | The loop computes the stack machine `Sanitized`. |
| UrlPath.LowIsLowest | util/uri.go:29-41 | The low-water mark is the least excess of names over `..` of any prefix. |
| UrlPath.ResolveSurvivors | util/uri.go:29-41 | The stack ends up with exactly the names no later `..` cancels, or the call fails. |
| UrlPath.RefusedExactly | util/uri.go:31-38 | A path is refused exactly if some prefix has more `..` than names. |
| UrlPath.OutputForm | util/uri.go:43-54 | The output is the surviving names after single slashes, with no empty, dot or backslash fragment. |
| UrlPath.OutputFragments | util/uri.go:43-54 | Splitting the output gives exactly those names. |
| UrlPath.SanitizedAgain | util/uri.go:14-55 | Idempotent for each mode; a later mode that decides about the slash overrides an earlier one. |
| UrlPath.UnchangedExactly | util/uri.go:14-55 | Exactly the paths in normal form are left as they are. |
| UrlPath.SegmentRules | util/uri.go:22-41 | Backslashes count as slashes; an empty or `.` segment, or a name and a `..` after it, can be taken out of a path without any difference; a `..` at the front is refused. |
| UrlPath.EndRules | util/uri.go:22-54 | The same at both ends of a path, where a last `.` or `..` is no trailing slash. |
| UrlPath.SanitizedFront | util/uri.go:26-41 | Sanitising the front of a path first makes no difference to the whole. |
| UrlPath.StrippedToInside | webserver.go:381-412 | The strip count is the number of base names; stripping leaves the path inside the directory. |
| RemoteAddress.GetFirstIpAddress | request_internal.go:46-88 | The loops give the first comma-separated field that stands for an address. |
| RemoteAddress.ScanField | request_internal.go:50-74 | The inner loops find blanks, word and the next comma. |
| RemoteAddress.AddressExactly | request_internal.go:52-82 | A field stands for the address its one word parses to, spaces around it ignored, and for none if it is not a single word. |
| RemoteAddress.FirstOfIsFirst | request_internal.go:46-88 | Some field before all others that stand for an address, or none at all. |
| Subdomain.DoesSubdomainMatch | util/domain.go:11-52 | True exactly if schemes agree, the length is allowed, and the labels are equal or a wildcard stands for at least one. |
| Subdomain.MatchesExactly | util/domain.go:12-28 | For hosts given as labels: equal schemes, a host of at most 253 bytes, and matching labels. |
| Subdomain.LabelsMatchExactly | util/domain.go:33-51 | Labels match if they are the same without `*`, or if those right of the last `*` are the last labels of a longer domain. |
| Subdomain.SchemeNeeded | util/domain.go:12-16 | Without "://" on both sides nothing matches. |
| Subdomain.SchemeEndIsFirst | util/domain.go:12-16 | The scheme ends at the first "://" and is found if there is one. |

## Left out

- RateLimiterWindows.AdmittedPerWindow: assumes fewer than 2^32 requests per window and refunds off; beyond that the counter wraps, and a refund may land in a later window, so the code does not promise the bound.
- RateLimiterThreads.ForwardedAtMostTwice: the same two assumptions; requests are counted by the second their hit is stamped, since the code puts no bound on the time from there to `Next`.
- RateLimiterThreads.ForwardedPerWindow: fewer than 2^32 hits in the window; requests are counted by the window their hit falls into.
- RateLimiterThreads.ForwardedAcrossBoundary: as ForwardedAtMostTwice.
- RateLimiterDeadlines.PromptCountersAreTheLog: refunds off, since a refund saves with a shorter time-to-live; the clock of the storage is that of the middleware.
- RateLimiter.RateLimiter.Handle: the clock does not run backwards and windows are 1 to 2^32 - 1 whole seconds; a shorter one truncates to 0 and the code divides by 0 at the first request.
- RateLimiter.Item.SetExpiration: assumes the timestamp leaves room for one window in 64 bits, which real clocks do.
- Rate limiter: eviction by the in-memory cache, a storage that changes data although its `Set` failed, the float conversion of `Expiration`, custom `LimitReached` and key functions, and the header values as text.
- RateLimiterThreads and ServerLifecycle are step systems over values: mutexes, channels, atomics and goroutines are the steps, not heap objects.
- RequestContext.Context.Next: handlers that return; after a panic recovered in middleware/panic.go the index is not put back.
- RequestContext.ServeOverlapping: `Next` runs to its end between two other events; calls of `Next` on two contexts at once are not interleaved, since each changes its own context only.
- The router, fasthttp, file serving and the segment stripper are foreign code; only the contracts used are modelled. FSBasePath rewriting is not.
- FlameGraph: profiles that break pprof's rules (missing values, lines without function), at which the code panics.
- The `*` form of If-None-Match and the header that middleware/etag.go:43 looks at: the gate is an input.
- middleware/cors.go (compares an origin with a list), auth.go (picks a key from header or query), the header builders, conditional.go and noop.go (wrap one handler), metrics and the code generator: they copy options into headers or forward calls and keep no state of their own.
- Strings are sequences of characters standing for bytes; nothing depends on their encoding.
