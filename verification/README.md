# Verified model of the web server's concurrent and text-processing core

A Dafny model of the parts of the HTTP server where correctness is least obvious, with proofs.

- **Rate limiters** (`Machine`, `TokenBucket`, `TokenBucketConcurrent`, `TokenBucketWorstCase`,
  `FixedWindow`, `FixedWindowConcurrent`, `FixedWindowChase`, `Keyed`, `RateLimiters`, `PerKey`,
  `TokenBucketKeys`, `FixedWindowKeys`). Both limiters keep two 32-bit fields in
  one 64-bit atomic word and update it in a compare-exchange loop. One call is first described as a step
  on the word, with every 32-bit and 64-bit conversion of the source written out. The classes in
  `RateLimiters` run the loops over a map from keys to atomic words, while an arbitrary finite forecast
  says what other threads leave in the word and which weak exchanges fail for no reason. The two
  `...Concurrent` modules are step systems on one word: any number of calls, one atomic action at a time,
  with clocks that may be stale or run backwards. The two `...Keys` modules are step systems on the whole
  map, where finding or creating a key's word is an action of its own; each key's part of a run is proved
  to be a run on one word, and the single-word results are carried over.
- **Logger** (`LogSpec`, `LoggerModel`). `LogSpec` describes pushes, worker steps, timeouts and the final
  drain as operations on the plain sequence of all pushed entries. `LoggerModel.Logger` is the ring, the
  batch and the sinks updated in place, and is proved to be that sequence at every step.
- **HTTP messages** (`Text`, `HttpParsers`, `HttpMessage`, `StatusLines`, `HttpResponse`,
  `RelayedStatus`). The response printer, the search-based parsers, the responses of exceptions, and the relaying of a script's reply
  through printer and parsers.
- **URL-encoded forms** (`UrlForm`). The validator, the decoder and the splitter, proved to agree on one
  grammar: the unreserved characters and percent escapes of sections 2.1 and 2.3 of RFC 3986, and a plus
  sign for a space.
- **Writing and streaming** (`Transfer`, `StreamerModel`). The write loop with retries over a socket that
  answers with an arbitrary script of outcomes, and the string and file streams on top of it.
- **Pipeline and configuration** (`Pipeline`, `KeyFunctions`, `ServerConfig`). Middleware that may raise
  on the way in or out, the error handler, the order in which components are loaded, and the token
  bucket's rate read from the configuration.

`Division` and `Sums` hold arithmetic used by several modules. `dafny verify dfyconfig.toml` checks all.

## Where the code does not do what it is meant to

Each of these is kept in the model as the code has it, and has its exact condition or a concrete instance.

- The token bucket adds `refill_rate * elapsed` modulo 2^32 before it widens the sum. A bucket that is
  idle for long enough can therefore look empty (`TokenBucket.WrapStarves`); the count is right exactly
  when no harmful wrap is met (`TokenBucket.CountRightIff`, `TokenBucket.LazyTracksEagerIff`). The wrap
  never admits too much (`TokenBucketConcurrent.Conservation`).
- Over a span of seconds a bucket admits its capacity plus the rate, and one more for each call in flight
  that read its clock before the span (`TokenBucketConcurrent.AtMostCapacityPlusRate`); the excess is real
  (`TokenBucketConcurrent.StaleCallAdmitsMore`).
- A token bucket with a refill rate of zero announces a Retry-After at which the client is rejected again
  (`TokenBucket.RetryAfterExact`). The configuration yields that rate for every `n/unit` with `n` below
  the unit's seconds. When the stamp or the clock is at 2^32 - 1 the announced Retry-After is 0
  (`TokenBucket.RetryAfterZeroIff`).
- The fixed window's loop goes round while the exchange *succeeds*. Alone on its key a call still counts
  once (`RateLimiters.FixedWindowLimiter.Count`), but a call whose first exchange fails is admitted
  uncounted (`FixedWindowConcurrent.ConcurrentCountIff`, `FixedWindowConcurrent.OverlapAdmitsBoth`).
- The fixed window keeps one window only, so a call with a stale clock resets the word and the count of
  the newer window is forgotten (`FixedWindow.StaleClockForgets`, `FixedWindowConcurrent.WindowBalance`).
  A window of a sequential run is exact if and only if it has no more arrivals than the limit or no
  arrival of another window stands between its own (`FixedWindow.WindowExactIff`).
- The fixed window's loop ends whenever all clocks read one window
  (`FixedWindowConcurrent.OneWindowRunsFinite`). Across two windows two calls can make each other's
  exchange succeed for ever, and neither is answered (`FixedWindowChase.TwoWindowsNeedNotEnd`): if and
  only if the word they start from is what a first request of one of their two windows leaves
  (`FixedWindowChase.TwoCallsNeedNotEndIff`).
- A fixed window with `max_requests` of zero tells its first client that 2^32 - 1 requests remain
  (`FixedWindowConcurrent.ZeroLimitUnderflows`).
- The body of a parsed message ends at its first line break, so bodies with an LF do not come back whole
  (`HttpMessage.CutWholeIff`, `HttpMessage.RoundTripIff`).
- A script's status line needs two spaces for its code to be relayed in every case. The reply
  `HTTP/1.1 200` with no headers is taken for a 502 and relayed as a 200
  (`RelayedStatus.BareStatusLineChanges`; `RelayedStatus.RelayedCodeIff` has the condition for every reply).
- The write loop returns OK without counting a write that succeeds right after the third retryable error
  (`Transfer.OkCountsAllIff`, `Transfer.OkCanMiscount`), and need not end: it does if and only if the whole
  buffer is taken, or a permanent failure comes, or something comes after three retryable errors
  (`Transfer.WriteEndsIff`). A disconnected client that takes nothing keeps it going
  (`Transfer.DisconnectSpins`).
- The repository's README says that `refill_rate="30/2s"` fails to parse; the code reads any unit it does
  not know as seconds, so this is 30 tokens a second (`ServerConfig.ConfiguredRate` covers every unit).
- The repository's README presents the authenticator as rewarding a successful login script. The code runs
  the endpoint's handler in the error handler, after the whole pipeline has come back, so the
  authenticator's second half runs before the script does (`Pipeline.RunsEndOnce`: every component has
  left before the handler starts). The Set-Cookie header it adds is then among the earlier headers, and
  comes back from every relayed reply without one of its own, whatever that reply's code
  (`HttpResponse.EarlierHeaderRelayed`).
- The chunk callback takes code 400 for a failure to parse, so a well-formed script reply with that code,
  and of those with known codes only that one, is answered with a 502
  (`HttpResponse.WellFormedRefusedIff`).

## Model

| member | source | states |
|---|---|---|
| Machine.PackUnpack | src/Middleware.h:68-71 | The two packed 32-bit halves and the 64-bit word determine each other, so comparing words by halves is comparing the atomic numbers |
| TokenBucket.CallConserves | src/Middleware.cpp:259-282 | One call admits at most one request and leaves at most the tokens present plus the rate for each second its stamp moves; the stamp never moves back, the capacity is kept, a rejection leaves the word alone |
| TokenBucket.RetryAfterExact | src/Middleware.cpp:270-277 | A rejected client that waits alone is rejected at every second before Retry-After, and is admitted at that second if and only if neither the rate nor the capacity is zero, even when the token sum wraps; for stamps and seconds below 2^32 - 1 |
| TokenBucket.RetryAfterZeroIff | src/Middleware.cpp:270-273 | A rejected client is told Retry-After 0 if and only if the stamp or the clock is at 2^32 - 1 |
| TokenBucket.DelayExact | src/Middleware.cpp:285-293 | The delay told to an admitted client is exact: the clock has passed the bucket's stamp from the announced second on and not before |
| TokenBucket.DelayZeroIff | src/Middleware.cpp:285 | That delay is 0 if and only if the stamp or the clock is at 2^32 - 1 |
| TokenBucket.FreshBurstExact | src/Middleware.cpp:237-242 | Of the requests of a new client in the second its bucket is created, exactly the first `capacity` are admitted |
| TokenBucket.RejectedOnZero | src/Middleware.cpp:260-278 | A call is rejected if and only if the capacity is zero or the 32-bit sum comes out as zero |
| TokenBucket.CountRightIff | src/Middleware.cpp:260-266 | The refilled count equals min(capacity, tokens + rate * elapsed) if and only if the 32-bit sum does not wrap or its remainder still fills the bucket |
| TokenBucket.LazyTracksEagerIff | src/Middleware.cpp:258-282 | Over every schedule of seconds and requests, the packed word shows the count of the bucket that is refilled once every second, at every request, if and only if no request meets a harmful wrap |
| TokenBucket.LazyAdmitsAsEager | src/Middleware.cpp:258-282 | Without a harmful wrap, the lazily refilled bucket and the once-a-second bucket admit the same requests over any schedule |
| TokenBucket.WrapStarves | src/Middleware.cpp:263 | A concrete harmful wrap: the simple bucket is full and the packed word turns the client away |
| TokenBucketConcurrent.Conservation | src/Middleware.cpp:253-282 | In every interleaving, between any two points: admissions plus tokens left are at most the tokens present plus the rate for each second the stamp moved; the stamp is monotone and the capacity is kept, despite wraps, spurious failures and stale clocks |
| TokenBucketConcurrent.StampBounded | src/Middleware.cpp:254-281 | The stamp never exceeds the latest of the first stamp and the clock readings in use |
| TokenBucketConcurrent.AtMostCapacityPlusRate | src/Middleware.cpp:253-282 | Over any span of seconds, from any state of the bucket however old its stamp, in every interleaving: at most the capacity plus the rate for each second of the span is admitted, and one more for each call in flight that read its clock before the span |
| TokenBucketConcurrent.FreshAtMostCapacityPlusRate | src/Middleware.cpp:239-282 | From its creation a bucket admits at most its capacity, read as unsigned, plus the rate for each second up to the latest clock reading |
| TokenBucketConcurrent.StaleCallAdmitsMore | src/Middleware.cpp:253-282 | A concrete run with one call in flight from before the span that attains that bound, one above capacity plus rate |
| TokenBucketConcurrent.EventLinearises | src/Middleware.cpp:258-282 | One atomic action keeps the log a one-at-a-time history of whole calls that ends in the current word, holding each decided call once |
| TokenBucketConcurrent.Linearisable | src/Middleware.cpp:258-282 | Every concurrent run equals its logged calls run whole and one at a time: same answers, same final word; the log holds only calls of the run that have returned or are bound to, each once with its answer, and every returned call |
| TokenBucketConcurrent.RealTimeOrder | src/Middleware.cpp:258-282 | A call that returned before another one started comes before it in the history of every continuation |
| TokenBucketConcurrent.EventCharged | src/Middleware.cpp:282 | Each failed strong exchange is paid for by a success of another call since the word was last read |
| TokenBucketConcurrent.AttemptsBounded | src/Middleware.cpp:258-282 | With strong exchanges, n calls on one bucket make at most n(n+1)/2 exchange attempts altogether |
| TokenBucketWorstCase.AttemptsAttained | src/Middleware.cpp:258-282 | For every n up to the largest capacity some strong run of n calls on a fresh bucket makes exactly n(n+1)/2 attempts, so the bound is attained |
| TokenBucketConcurrent.RunsFinite | src/Middleware.cpp:258-282 | With strong exchanges no interleaving of n calls is longer than 3n + n(n+1)/2 actions |
| TokenBucketConcurrent.NeverStuck | src/Middleware.cpp:258-282 | Until it has returned, every call can act without a spurious failure, so a strong run that cannot go on has answered every call |
| FixedWindow.InItsWindow | src/Middleware.cpp:188-200 | A second has window id k exactly when it lies in the k-th span of window_seconds |
| FixedWindow.RetryAfterIff | src/Middleware.cpp:198-200 | Retry-After is the distance to the end of the window, and at least 1, if and only if that end fits 32 bits; otherwise it is 0 |
| FixedWindow.RetryAfterExact | src/Middleware.cpp:195-204 | Retry-After lies in 1..window; with no other arrivals the key is rejected at every earlier second and admitted at the announced one |
| FixedWindow.AdmittedTold | src/Middleware.cpp:211-217 | An admitted client's reset is the end of its request's window: the clock stays in that window until then and leaves it then; beyond 32 bits it wraps. The remainder told and the stored count make up the limit |
| FixedWindow.StaleClockForgets | src/Middleware.cpp:195-208 | However used up a window is, one call with a clock of another window in between makes the next call of the window its first again |
| FixedWindow.TrailCounted | src/Middleware.cpp:190-211 | In every sequential run, with any clocks, the word counts the last arrivals of a window that stand together, up to max_requests |
| FixedWindow.WindowExactIff | src/Middleware.cpp:182-211 | In every sequential run, with any clocks, a window admits exactly min(arrivals, max_requests) if and only if it has no more arrivals than max_requests or no arrival of another window stands between its own; it never admits fewer |
| FixedWindow.CountedBefore | src/Middleware.cpp:182-211 | In sequential runs with a monotone clock the stored count is min(arrivals, max_requests) of the window the next call falls in |
| FixedWindow.WindowExact | src/Middleware.cpp:182-211 | In sequential runs with a monotone clock, every window admits exactly min(arrivals, max_requests) requests of the key |
| FixedWindow.AlignedSpan | src/Middleware.cpp:182-211 | From the start of a window, L seconds admit at most max_requests * ceil(L/W) |
| FixedWindow.SpanBound | src/Middleware.cpp:182-211 | Any span of L seconds, wherever it starts, admits at most max_requests * (ceil(L/W) + 1) |
| FixedWindowConcurrent.CountWithinLimit | src/Middleware.cpp:190-216 | In every interleaving the stored count stays within max_requests and every admitted client is told a remaining count below it: the unsigned subtraction does not underflow |
| FixedWindowConcurrent.RunAnswered | src/Middleware.cpp:190-217 | In every interleaving each admitted call is told what a whole call on some word is told, and each rejection has a word that refuses it |
| FixedWindowConcurrent.ZeroLimitUnderflows | src/Middleware.cpp:195-216 | With max_requests zero the first client of a new window is admitted and told 2^32 - 1 |
| FixedWindowConcurrent.ConcurrentCountIff | src/Middleware.cpp:190-211 | When all clocks read one window, from whatever word the calls start (a fresh key or an older window included), its count rises by the admitted calls less those whose first exchange failed, so it is exact if and only if no call's first exchange in the schedule fails |
| FixedWindowConcurrent.FirstExchangeDecides | src/Middleware.cpp:209 | A call is admitted uncounted exactly when its first exchange in the schedule fails |
| FixedWindowConcurrent.OneWindowRunsFinite | src/Middleware.cpp:191-209 | When all clocks read one window, no interleaving of n calls has more than 4n actions, even with weak exchanges |
| FixedWindowChase.TwoWindowsNeedNotEnd | src/Middleware.cpp:191-209 | Two calls with clocks of two windows, from the word a first request of one of them leaves, can go on for any number of rounds in which both exchanges succeed, and neither is answered |
| FixedWindowChase.TwoCallsEnd | src/Middleware.cpp:191-209 | From any other word, or with clocks of one window, two calls end within nine actions in every interleaving, even with weak exchanges |
| FixedWindowChase.TwoCallsNeedNotEndIff | src/Middleware.cpp:191-209 | Two calls have runs of every length if and only if their clocks read different windows and the word they start from is what a first request of one of these leaves |
| FixedWindowConcurrent.WindowBalance | src/Middleware.cpp:190-211 | In every run, with any clocks: a window's count rises by one for each successful exchange of a call in that window and falls only by what calls of other windows make it forget |
| FixedWindowConcurrent.AdmittedBound | src/Middleware.cpp:190-211 | In every run, with any clocks: at most max_requests calls are admitted in a window, one more for each of them whose first exchange fails, and one more for each count that calls of other windows make the word forget |
| FixedWindowConcurrent.OverlapAdmitsBoth | src/Middleware.cpp:209 | Two overlapping calls under a limit of one are both admitted and counted once |
| Keyed.KeysIndependent | src/Middleware.cpp:165-180 | In a sequential run over many keys, whole calls one after another, each key sees exactly the run of its own requests alone, word for word and answer for answer |
| RateLimiters.AtomicWord.CompareExchange | src/Middleware.cpp:282 | A weak exchange succeeds only on the expected word, may fail for no reason, and on failure hands over the current word |
| RateLimiters.KeyedWords.Find | src/Middleware.cpp:225-247 | A key's word is found or created with its initial value; every key keeps a word of its own and no other word changes |
| RateLimiters.TokenBucketLimiter.Take | src/Middleware.cpp:253-285 | Whatever other threads do, the loop answers and leaves the word as one whole call on a word that really was in the bucket |
| RateLimiters.TokenBucketLimiter.Process | src/Middleware.cpp:249-285 | One request changes only its key's word, by a whole call; undisturbed it is one step of the keyed run |
| RateLimiters.FixedWindowLimiter.Count | src/Middleware.cpp:186-217 | The loop as written: the first word read decides; undisturbed the count rises at most once; in calm weather an admitted call makes one successful and one failed exchange and counts once |
| RateLimiters.FixedWindowLimiter.Process | src/Middleware.cpp:182-217 | One request changes only its key's word; in calm weather it is one step of the keyed run |
| PerKey.OneKeyIsArrivals | src/Middleware.cpp:182-211 | A run of one key's requests is its arrivals in order: same word, same number admitted in every span |
| PerKey.EachKeyExact | src/Middleware.cpp:165-211 | In every sequential run over any number of keys, with any clocks, each key is admitted exactly min(arrivals, max_requests) times in a window if and only if it has no more arrivals than that or they stand together among its own, as they do with a monotone clock; whatever the other keys do |
| TokenBucketKeys.ElsewhereKeeps | src/Middleware.cpp:225-247 | An action on one key leaves every other key's word and calls alone; looking a key up creates its word if it is new and changes nothing else |
| TokenBucketKeys.OneKeyRun | src/Middleware.cpp:225-282 | In every interleaving of calls on any number of keys, the map operations being atomic actions, the run seen from one key is a run on that key's own word, with the same word and the same calls at the end |
| TokenBucketKeys.EachKeyAtMostCapacityPlusRate | src/Middleware.cpp:225-282 | In every interleaving over any number of keys, each key is admitted at most the capacity plus the rate for each second of a span, and one more for each of its own calls in flight with an older clock |
| TokenBucketKeys.EachKeyLinearisable | src/Middleware.cpp:225-282 | From an empty server, in every interleaving, each key has a one-at-a-time history of whole calls from the word it was created with to the word it ends with; it holds only these calls, those of the key that have returned or are bound to, each once with its answer, and every returned call of the key |
| TokenBucketKeys.EachKeyRealTimeOrder | src/Middleware.cpp:225-282 | In every continuation of a run each key has such a history in which the calls that had returned come before those that had not read their clocks |
| FixedWindowKeys.OneKeyRun | src/Middleware.cpp:165-211 | In every interleaving of calls on any number of keys, the map operations being atomic actions, the run seen from one key is a run on that key's own word, with the same word and the same calls at the end |
| FixedWindowKeys.EachKeyCountWithinLimit | src/Middleware.cpp:165-216 | In every interleaving over any number of keys, every key's stored count stays within max_requests and every admitted client is told a remaining count below it |
| FixedWindowKeys.EachKeyCountIff | src/Middleware.cpp:165-211 | In every interleaving over any number of keys, when one key's clocks read one window its count is at most its admitted calls, and equal to them if and only if no first exchange of its own calls fails |
| LogSpec.PoppedSound | src/logger.cpp:197-212 | A pop drops exactly the positions between the old tail and where an overrun pop starts |
| LogSpec.ApplySound | src/logger.cpp:191-265 | Every push, worker step and stop keeps the order of deliveries and never takes back what was pushed, taken or written |
| LogSpec.StepWrites | src/logger.cpp:247-265 | With a timeout a worker step writes everything taken so far; it takes one entry when something is outstanding and none otherwise; without a timeout it writes nothing until the batch of 10 is full, and then all of it |
| LogSpec.TextTellsEntry | src/logger.cpp:152-160 | The text of an entry ends its line and tells its time, level, context and message with trailer |
| LogSpec.EveryEntryOnce | src/logger.cpp:191-265 | In every schedule, written entries then batch then outstanding are the non-dropped entries, each once, in push order; the batch never fills up |
| LogSpec.DropsOnlyOnOverrun | src/logger.cpp:201-205 | An entry is lost only when at least 1024 are outstanding at a pop, and never one of the newest 1023 |
| LogSpec.NothingLostIff | src/logger.cpp:197-265 | A schedule loses nothing if and only if every worker step and stop finds fewer than 1024 entries outstanding |
| LogSpec.StopDrains | src/logger.cpp:214-232 | After a stop the sinks have what they had, then the batch, then all outstanding entries, or the newest 1023 after an overrun; nothing is left |
| LoggerModel.TextKept | src/logger.cpp:191-245 | Later pushes and deliveries do not change the text already delivered |
| LoggerModel.Logger.constructor | src/logger.h:78-97 | A new logger holds nothing |
| LoggerModel.Logger.SinkHoldsWritten | src/logger.cpp:234-245 | Between steps each sink holds exactly the entries written since it was added, each built once, in order |
| LoggerModel.Logger.AddSink | src/logger.cpp:182-189 | A sink is added, with nothing written to it yet, unless there are 1024 already; the others are kept |
| LoggerModel.Logger.Push | src/logger.cpp:191-195 | The ring with its modular index is the sequence with one more entry at its end |
| LoggerModel.Logger.Pop | src/logger.cpp:197-212 | Null exactly when nothing is outstanding; otherwise the oldest entry that is not overrun, and the tail moves past it |
| LoggerModel.Logger.Build | src/logger.cpp:152-160 | The text of an entry at the next clock reading, and the entry with its context rewritten, as building does |
| LoggerModel.Logger.WriteAll | src/logger.cpp:239-243 | Every sink gets the text appended |
| LoggerModel.Logger.BuildBatch | src/logger.cpp:235-238 | The batch is built, each entry once and in order, from the entries as they were pushed |
| LoggerModel.Logger.Flush | src/logger.cpp:234-245 | The batch moves into every sink and nothing else changes |
| LoggerModel.Logger.AddToBatch | src/logger.cpp:259-260 | The entry just popped is the last of the batch, unbuilt |
| LoggerModel.Logger.WriteEntry | src/logger.cpp:227-230 | In the final drain the entry just popped is built once and appended to every sink |
| LoggerModel.Logger.ProcessBatch | src/logger.cpp:247-265 | A worker step on ring, batch and sinks is the worker step on the sequence; after a step with a timeout every sink holds every entry that had been taken since it was added |
| LoggerModel.Logger.StopAndFlush | src/logger.cpp:214-232 | The final drain of ring, batch and sinks is the final drain of the sequence |
| HttpParsers.ExtractHeaders | src/http.cpp:276-324 | The header loop computes the header map, or status 400, of its specification, for every buffer |
| HttpParsers.RequestPieces | src/http.cpp:146-181 | For every request line "name SP path [?query] SP rest" the target, path, query and method come back |
| HttpParsers.MethodFound | src/http.cpp:260-274 | A request that starts with a name and a space has that name's method, if a CRLF follows |
| HttpParsers.LineOf | src/http.cpp:137-144 | The first line is what stands before the first CRLF, and nothing when there is none |
| HttpParsers.TargetIff | src/http.cpp:146-181 | Target, path and query exist if and only if the request has two spaces; otherwise each is refused with 400 |
| HttpParsers.MethodIff | src/http.cpp:260-274 | A method exists if and only if there is a space before the first CRLF; otherwise it is refused with 400 |
| HttpParsers.MethodsByName | src/http.cpp:53-65 | GET, HEAD, POST and OPTIONS by their capital and small names, and by no other |
| HttpParsers.SpacelessCode | src/http.cpp:339-342 | A text without a space has code 400 |
| HttpMessage.LinesParsed | src/http.cpp:298-322 | The header loop reads back printed header lines one by one, into the map overlaid in order |
| HttpMessage.BlankAtEnd | src/http.cpp:282-285 | The first blank line of a printed message is the one that ends its headers |
| HttpMessage.PrintedParses | src/http.h:127-135 | A printed message with clean headers parses back to its status line, header map and body up to the first line break |
| HttpMessage.HeadersClean | src/http.cpp:276-324 | Whatever is parsed, no header that comes out has a CRLF, and no key the splitter |
| HttpMessage.CutWholeIff | src/http.cpp:192-197 | A body survives extraction whole if and only if it has no LF |
| HttpMessage.CutBefore | src/http.cpp:192-197 | A body ends before its first CRLF, and without one before its first LF |
| HttpMessage.BodyIff | src/http.cpp:186-189 | A message has a body if and only if it has a blank line, by CRLFs or by LFs; otherwise it is refused with 400 |
| HttpMessage.BodyBehind | src/http.cpp:186-197 | The body stands behind the first blank line by CRLFs, or without any behind the first one by LFs |
| HttpMessage.BadHeaderRefused | src/http.cpp:312-315 | One header line without the splitter, behind any number of good ones, and the message is refused with 400 |
| HttpMessage.OnTheWire | src/http.h:127-135 | The bytes of a printed message |
| HttpMessage.RoundTripIff | src/http.h:127-135 | Printing then parsing is the identity, for any order of the headers, if and only if status line, keys and values have no CRLF, no key has the splitter and the body has no LF |
| HttpMessage.StatusCodeParses | src/http.cpp:337-354 | A status line "version SP code SP reason" gives its code back, whatever follows |
| HttpMessage.StatusMessageParsesIff | src/http.cpp:109-135 | A response made for a code parses back to that code if and only if the code has a status line of its own |
| StatusLines.KnownCodes | src/http.cpp:109-135 | The 22 codes with a status line of their own; every other code is answered with the line of 500 |
| StatusLines.SuccessLines | src/http.cpp:111-114 | The status lines of 200 to 204, spelled out |
| StatusLines.RedirectionLines | src/http.cpp:115-118 | The status lines of 301 to 304, spelled out |
| StatusLines.EarlyClientErrorLines | src/http.cpp:119-122 | The status lines of 400 to 404, spelled out |
| StatusLines.ClientErrorLines | src/http.cpp:123-126 | The status lines of 405 to 499, spelled out |
| StatusLines.ServerErrorLines | src/http.cpp:127-129 | The status lines of 500 to 502, spelled out |
| StatusLines.LateServerErrorLines | src/http.cpp:130-132 | The status lines of 503 to 507, spelled out |
| HttpResponse.Response.AddHeaders | src/http.h:113-117 | The given headers win over those already there, in any iteration order |
| HttpResponse.Response.Build | src/http.h:127-135 | The date is stamped and the text is the printed message of status line, headers and body, in the map's iteration order |
| HttpResponse.ErrorResponse | src/http.h:145-155 | The response an exception carries: status line of its code, the given headers overlaid by Connection, Content-Length and Date, no body |
| HttpResponse.ErrorParses | src/http.h:145-155 | Such a response parses back to its status line, exactly its headers and an empty body, and to its code if and only if that is a known one |
| HttpResponse.Relay | src/PostHandler.cpp:11-34 | One invocation of the chunk callback: which replies are refused and with which status, and the message made of the others |
| HttpResponse.WellFormedRefusedIff | src/PostHandler.cpp:17-20 | Of all well-formed replies with a known code the callback refuses exactly those with code 400 |
| HttpResponse.RelayedParses | src/PostHandler.cpp:15-29 | The relayed message parses back to the script's status line, to its code when that line has two spaces, to the earlier headers overlaid by the script's and then by Connection and Date, and to its body exactly when that has no LF |
| HttpResponse.OwnHeaders | src/PostHandler.cpp:24-26 | In the header map that a relayed message parses back to, the connection closes and the date is set; in an exception's the connection closes and there is no content; all other headers are the script's or else the earlier ones |
| HttpResponse.EarlierHeaderRelayed | src/PostHandler.cpp:24-26 | A header added before the script ran comes back from every relayed reply that does not have it itself, whatever its code, and otherwise the script's value does |
| RelayedStatus.RelayedCodeIff | src/PostHandler.cpp:16-26 | The relayed code for every accepted reply: with two spaces in the status line the reply's own; with one and something behind it, the number there, which is the reply's code if and only if the reply has another space or that number is 502; otherwise what the first two printed headers spell, and when that is the reply's code |
| RelayedStatus.CodeOfHeaders | src/http.cpp:337-354 | For a status line without a space: the code read from printed headers, by where the first key and its value have their spaces |
| RelayedStatus.CodeOfSingleSpace | src/http.cpp:337-354 | With one space in the status line the code is read up to the next space, in a later line, and is the number before the line break unless only white space stands there |
| RelayedStatus.BareStatusLineChanges | src/http.cpp:344-347 | The reply HTTP/1.1 200 with no headers is accepted with code 502, and its relayed message parses to 200 for every order of its headers |
| UrlForm.UrlDecode | src/http.cpp:2-21 | The decoding loop computes the recursive decoding, malformed escapes included |
| UrlForm.DecodeKeepsIff | src/http.cpp:5-18 | Decoding never lengthens a text, and leaves it alone if and only if it holds no plus sign and no escape |
| UrlForm.ScanUnits | src/http.cpp:400-413 | The scan of a key or value, whose bound check looks at the whole text, accepts exactly the runs of units: an escape cannot cross the boundary |
| UrlForm.IsValidUrlForm | src/http.cpp:393-435 | The validator accepts exactly the grammar: pairs joined by ampersands, with an optional last one, keys not empty |
| UrlForm.ValidIffInGrammar | src/http.cpp:393-435 | The verdict by positions and the grammar by lists of pairs are the same |
| UrlForm.JoinedValid | src/http.cpp:393-435 | Every list of grammatical pairs, joined, is accepted, with or without a last ampersand |
| UrlForm.ValidForms | src/http.cpp:393-435 | An accepted text is the join of the pairs read off it |
| UrlForm.ParseUrlForm | src/http.cpp:221-235 | The splitting loop computes its recursive specification, segments without an equals sign skipped |
| UrlForm.ScannersAgree | src/http.cpp:221-235 | On every text the validator accepts, the splitter stores exactly the grammar's pairs, decoded |
| UrlForm.CollectIsLastWins | src/http.cpp:221-235 | Each key has the value of its last pair, and no key is there without a pair |
| UrlForm.DecodeEncode | src/http.cpp:2-21 | Decoding undoes percent-encoding, and encoded text is a run of units |
| UrlForm.DecodeSpelled | src/http.cpp:7-13 | An escape decodes to the character its two digits spell, in either case of each digit |
| UrlForm.SpellsIff | src/http.cpp:2-21 | Decoding is exactly the inverse of spelling: a text spells what it decodes to, each character as itself, a plus sign or an escape in any case, if and only if it is a run of units |
| UrlForm.AcceptedCharacter | src/http.cpp:400-413 | The one-character keys that are accepted: digits, letters, - _ . ~ and the plus sign |
| UrlForm.AcceptedEscape | src/http.cpp:402-407 | The escapes that are accepted: two hexadecimal digits in either case |
| UrlForm.FirstSegment | src/http.cpp:226-233 | Segments are stored one after another, and one without an equals sign is skipped, in every text |
| UrlForm.SegmentPair | src/http.cpp:227-231 | A segment's key ends at its first equals sign; the value is all the rest, equals signs included |
| UrlForm.PairsOfJoined | src/http.cpp:393-435 | Reading the pairs off a join of grammatical pairs gives the same list |
| UrlForm.FormRoundTrip | src/http.cpp:221-235 | Every non-empty list of pairs with non-empty keys, encoded and joined, is accepted and splits into the last-wins map of the list |
| UrlForm.SpelledFormRoundTrip | src/http.cpp:221-235 | The same for every encoder, whatever spelling it chooses for each character |
| Transfer.BackoffBounded | src/http.cpp:530-551 | A backoff at attempt 1, 2 or 3 is at most that many seconds, and positive for every retryable error |
| Transfer.BackoffByCode | src/http.cpp:530-551 | The delays in full: 50, 100, 200, 400, 800, 1600 and then 2000 ms, a second per attempt for a full buffer, and none for success, a disconnect or a permanent failure, code by code |
| Transfer.WriteBounds | src/http.cpp:504-528 | For any socket outcomes: at most the buffer reaches the wire, at least what is counted does, at most three backoffs, at most 6000 ms of sleep |
| Transfer.OkCountsAllIff | src/http.cpp:504-528 | OK is returned without all bytes counted if and only if, in the script, the outcome right after the third retryable error is a success, with no permanent failure before it and bytes still unsent; in every other OK the whole buffer was sent and counted |
| Transfer.OkCanMiscount | src/http.cpp:511-514 | A concrete run that returns OK with everything sent and nothing counted |
| Transfer.LateSuccess | src/http.cpp:511-514 | A success that comes later than right after the third retryable error does not miscount: the loop has already returned the error between |
| Transfer.WriteEndsIff | src/http.cpp:504-528 | The loop ends if and only if the outcomes take the whole buffer between them, or one is a permanent failure, or one comes after three retryable errors |
| Transfer.WriteEnds | src/http.cpp:504-528 | The loop ends within size + 3 writes when every outcome that is neither retryable nor permanent moves at least one byte |
| Transfer.WriteDelivers | src/http.cpp:504-528 | With fewer than three retryable errors, no permanent failure, every other outcome moving a byte and enough outcomes, the write returns OK with the whole buffer sent and counted, and leaves enough outcomes for the bytes still to come |
| Transfer.FourBusy | src/http.cpp:511-518 | Four answers of one retryable code, by name: three backoffs, of exactly 6000 ms for a full buffer and 630 to 770 ms otherwise, and then 504 for a time-out, 507 for a full buffer, 503 for the other five |
| Transfer.PermanentEnds | src/http.cpp:511-514 | A bad descriptor or an address in use ends the write at once with 500 |
| Transfer.FourthDecides | src/http.h:235-250 | After three busy answers the next outcome decides the status, code by code |
| Transfer.OthersSpin | src/http.cpp:508-522 | Every other code that takes nothing is tried again at once, for ever, without a backoff |
| Transfer.DisconnectSpins | src/http.cpp:508-522 | A disconnected client that takes nothing keeps the loop going for every length of script |
| Transfer.Socket.Write | src/Socket.h:34 | One write: an outcome of the script, and a prefix of the data on the wire |
| Transfer.CoWriteAll | src/http.cpp:504-528 | The loop's status, the bytes on the wire (a prefix of the buffer, no gap, no repeat), the outcomes used and the time slept are those of the recursive trace |
| StreamerModel.FileStreamer.Stream | src/Streamer.cpp:34-60 | The streaming loop ends, writes and counts as its recursive specification, for any short reads, read errors and socket outcomes |
| StreamerModel.StreamString | src/Streamer.cpp:3-11 | A string stream completes exactly when the write loop returns OK, with the whole string counted if and only if the script does not miscount; then the whole string was sent. With fewer than three retryable errors it does not miscount |
| StreamerModel.WholeStreamDelivers | src/Streamer.cpp:34-60 | If no chunk's write is miscounted and the file has not shrunk: the wire always holds a prefix of the file, the stream is not cut off, and when it completes the wire has exactly the file and every byte is counted |
| StreamerModel.CompleteDelivers | src/Streamer.cpp:34-60 | If the file is as long as it was measured, every stream that completes has put exactly the file on the wire and counted every byte, for any reads and any socket outcomes |
| StreamerModel.StreamCompletes | src/Streamer.cpp:34-60 | In the regime of Transfer.WriteDelivers, with no failed read and enough of them, the stream of a file that has not shrunk does complete, with exactly the file on the wire and every byte counted |
| StreamerModel.StreamStops | src/Streamer.cpp:41-56 | A failed read ends a stream with 500, an empty file cuts it off with nothing sent, a permanent failure of the write ends it with 500, and four busy answers end it with the status of their code |
| StreamerModel.ChunkSizes | src/Streamer.cpp:42-43 | A read asks for at most 262144 bytes and for no more than are still to be sent |
| StreamerModel.FewRetriesWhole | src/Streamer.cpp:34-60 | A script with fewer than three retryable outcomes miscounts no chunk's write, for every file |
| StreamerModel.OkStatusOnly | src/http.h:235-250 | The only success status the write loop returns is OK |
| KeyFunctions.DependsOnRequestIff | src/config.cpp:182-224 | Two requests from one address can get different keys if and only if the key is not the address: exactly the address key works before parsing |
| KeyFunctions.KeyOrFallback | src/config.cpp:182-224 | What each kind of key is, and that a missing one falls back to the address or is refused with 400 |
| KeyFunctions.ForwardedClient | src/config.cpp:136-150 | The client of a forwarding chain is its first member without the blanks around it, whatever follows |
| KeyFunctions.KeysByName | src/config.cpp:162-225 | The kinds of key by name, in any case, and when they fall back |
| KeyFunctions.FlagIsAddress | src/config.cpp:153-230 | The flag is set exactly for the address key, which is also the default without a kind or a needed name |
| Pipeline.RunPipeline | src/Middleware.cpp:7-17 | The recursion over components, each given the rest as its next step, produces the events and outcome of its specification |
| Pipeline.RunErrorHandler | src/Middleware.cpp:23-48 | The handler runs after the rest of the pipeline; an exception of either is answered by its error page |
| Pipeline.RunInner | src/Middleware.cpp:131-152 | A component may raise before or after the rest of the pipeline; either way nothing further inside it happens |
| Pipeline.DecisiveIs | src/Middleware.cpp:7-17 | Of many faults, the first raised on the way in decides, or else the innermost raised on the way out |
| Pipeline.InnerRun | src/Middleware.cpp:7-17 | The inner components raise exactly the decisive fault, or go in and out properly nested |
| Pipeline.InnerEvents | src/Middleware.cpp:7-17 | For every pattern of faults: a component is entered if and only if none raised on the way in up to and including itself, and left if and only if moreover neither it nor any inside it raised |
| Pipeline.RunsEndOnce | src/Middleware.cpp:23-94 | Every run ends with exactly one of: the endpoint handler completed after every inner component went in and out, or one error page for the decisive fault, with an HTTP error's own status and 500 for any other exception; with neither if and only if nothing raised and the endpoint has no handler. The handler is started exactly when no component raised. The log entry is written unless the error page raises |
| ServerConfig.LoadPipeline | src/config.cpp:294-310 | Every configuration loads logger, error handler, parser, at most one global limiter, route limiter, authenticator; the global limiter sits after the parser exactly when its key depends on the request |
| ServerConfig.LoadedUnlessDisabled | src/config.cpp:252-292 | A global limiter is loaded unless the rate limit is disabled; without a section, a rate limit or a known algorithm it is the default one by address |
| ServerConfig.LoadRefillRate | src/config.cpp:107-134 | The digit scan computes the rate of its specification, defaults and fallbacks included |
| ServerConfig.ConfiguredRate | src/config.cpp:107-134 | "n/unit" is read as floor(n / seconds): never more than asked for, less than one token a second short of it, and exactly that if and only if the seconds divide n |
| ServerConfig.RatesByName | src/config.cpp:40-53 | The units by name with their seconds; every other text counts as seconds |
| ServerConfig.RateFallbacks | src/config.cpp:107-134 | Two tokens a second without a text or a leading digit, none for a number that does not fit, the number itself without a slash |
| ServerConfig.ConfiguredBucketBound | src/config.cpp:232-240 | A bucket of capacity c configured "n/unit" admits at most c + k * n over any k units, and one more for each call in flight with an older clock, from any state, in every interleaving |

## Left out

- Sockets, TLS, coroutines, executors, timers, pipes, process spawning and file descriptors: only the outcomes of writes and reads appear, as arbitrary scripts.
- JWT signing and checking, JSON and XML libraries: the authenticator and the parser are components that may raise; the configuration's attributes are values.
- Clocks and random jitter: arbitrary values, in the ranges the code gives them. Seconds of the steady clock fit 32 bits; the fixed window's own 64-bit `secs` is not followed further.
- Weak memory order and the unlocked first map lookup: each atomic operation and each map operation is one step.
- The separate slot reservation and slot store of a push: pushes and worker steps are atomic, so a pop never meets a slot that is reserved and not yet filled. Head and tail do not reach 2^64.
- LoggerModel.Logger.Build: the source's level name and the file-and-line suffix are given as text in the entry; session entries and sinks that are files, with rotation, are not modelled.
- LoggerModel.Logger.StopAndFlush: the worker thread's join is not modelled, nor its own last flush, which leaves nothing for the flush here to do.
- FixedWindow.RetryAfterExact: only while the end of the window fits 32 bits; FixedWindow.RetryAfterIff says what happens beyond.
- FixedWindow.WindowExactIff: `max_requests` of zero and windows that are not positive (the source divides by them) are excluded; so for the exact counts and span bounds beside it.
- FixedWindowConcurrent.ConcurrentCountIff: for overlapping calls whose clocks read the same window; for calls that both overlap and straddle windows there are the balance and the bound of FixedWindowConcurrent.WindowBalance and FixedWindowConcurrent.AdmittedBound.
- TokenBucket.RetryAfterExact: not for a stamp or a second of 2^32 - 1, where TokenBucket.RetryAfterZeroIff holds.
- TokenBucketConcurrent.AtMostCapacityPlusRate: for capacities that are not negative; a negative one caps nothing in the code.
- FixedWindowChase.TwoCallsNeedNotEndIff: for two calls on a key; with more, one that is answered can leave the word from which two others chase each other.
- TokenBucket.LazyTracksEagerIff: for capacities that are not negative and a clock that does not run backwards.
- RateLimiters.TokenBucketLimiter.Take: a forecast is finite, so a loop disturbed or failing for ever is not modelled; X-RateLimit-Reset, which is on the system clock, is left out.
- HttpResponse.Relay: one invocation of the callback on one chunk; the write that follows it is Transfer.CoWriteAll, and replies in several chunks are not modelled.
- UrlForm.IsValidUrlForm: characters are bytes and the character classes are those of the "C" locale.
- Transfer.CoWriteAll: `Pending` stands for a write that the script does not answer; the message of a failed write is left out.
- StreamerModel.FileStreamer.Stream: opening the file, and files that change while they are read, are not modelled; a file that shrank since it was measured is.
- Pipeline.RunErrorHandler: every status has an error page with a handler, as the router sees to it; headers of the response are not carried through.
- Pipeline.RunInner: what the parser, the limiters and the authenticator do is only whether they raise, and when.
- `get_seconds_from_time_str`, the script streamer, the router, the OPTIONS and HEAD handlers, content types and argument selection, role lookup and cookie parsing: they add only easy members.
