# TestLookup client core: a verified model

TestLookup collects test results. Its Python reporter streams them to the server in batches, describes the run they
belong to (commit range, run context, captured HTTP exchanges), and must do so without losing, repeating or leaking
anything. This project models that code, and three decision procedures of the tooling around it, in Dafny, and proves
what each promises. `dafny verify dfyconfig.toml` checks everything.

| file | models |
|---|---|
| Options, Text, Utf8 | optional values; Python string operations; UTF-8 and the byte-exact cut |
| RetryPolicy | what one reply to a batch decides, and the schedule of attempts and sleeps of a whole batch |
| LiveSession (module `Session`) | the session object: queue, counters, eager flush, retry loop, drain |
| LiveProtocol | the same session as a concurrent system with its network, its shutdown and a deduplicating server |
| LiveStream (module `Stream`) | the API-key stream: heartbeat over time, and one metadata dictionary shared by overlapping posts |
| PytestPlugin | which pytest reports become records |
| Settle, JsonRedaction, BodyRedaction, UrlRedaction | redaction to a fixpoint of texts, JSON, stored bodies and URLs |
| JsonMeaning, BodyMeaning, UrlSecrets | what a walked value, a stored body and a redacted URL say, part by part |
| PasswordRule, PasswordRounds, PasswordSettle, UrlRounds | one of the text patterns, concretely: how many passes a text needs, and which bodies and URLs six rounds settle |
| UrlBlanks | white space at the ends of stored URLs |
| UserinfoMask | the mask of passwords in environment values |
| GitLog, CommitRange | reading `git log`, and the tiered choice of a commit range over a git that may refuse or fail |
| ContextLayers, RunContext | the run context, its layered sections and its byte budget |
| Quantile | quantiles of a cumulative histogram |
| FleetBudget, FleetMachine | the PostgreSQL connection budget, and the fleet it bounds |
| Ratchet | the mypy ratchet: counting error lines, the baseline's text, the comparison, the history of its counts |

The network, git, the clock, the JSON reader and writer, the pattern tables and percent-coding are parameters; what is
assumed of them is written out where they are used (`Forward`, `Faithful`, `Lawful`, `LawfulUrl`, `KeepsBlanks`). The
concrete 40-character run scanner is proved to meet what is assumed of a text pass (`RunPassLawful`, `RunPassLawfulUrl`,
`RunPassKeepsBlanks`), and `Faithful` to be met by a codec (`StringCodecFaithful`). That the text rules are idempotent
is not assumed; of the token pass over URL names and paths it is, and `RunPassIdempotent` proves it of the scanner.

## What the code does not do

Each of these is a lemma with a concrete input, next to the condition under which the promise holds.

- A batch the flusher is posting when the session shuts down can be stored and yet be counted neither sent nor failed
  (`CancelledBatchCanBeStored`). That a batch ends so happens exactly when the flusher was posting at the cancellation
  (`AbandonedIffBusy`), and to at most one batch (`OneAbandoned`).
- Redaction is documented as idempotent, but the text rules are not: `password: abcd""` becomes
  `password: [REDACTED]"`, and that becomes `password: [REDACTED]`; of `password: abcd"efgh` the second pass takes
  `efgh`. The password pattern leaves its result alone exactly when every value is followed by white space, a comma or
  the end (`PassAgainIff`); so much is known of a JSON string, a short body and a query parameter
  (`PasswordWalksAgainIff`, `PasswordBodyIsFixpointIff`, `PasswordPartAgainIff`).
- Six rounds do not always settle a text: of seven quotes behind `password: [REDACTED]` they leave one
  (`SixRoundsLeaveOne`, `SevenQuotesInUrl`). They do exactly when a scan of what the first round kept counts at most
  five further passes (`SettledIffOwed`, `PasswordBodiesKeepIff`), and of a URL when no query value counts more
  (`PasswordUrlSettlesIff`).
- `redact_url` strips before it drops the fragment, so white space before a `#` is kept by the first call and stripped
  by the second: `/a #x` becomes `/a` with a space behind it, and that becomes `/a` (`SpaceBeforeFragment`). That there
  is no such space is the other half of the condition under which a stored URL stays (`PasswordUrlSettlesIff`,
  `ShortUrlStaysIff`).
- Two overlapping posts refused for their run context: the second finds the context already dropped and its batch is
  counted as failed, although "results are never lost to metadata" (`LostIffAnotherCarrier`).
- A stored body is not always a fixpoint of the second redaction: redaction can turn text into JSON
  (`RepairedJsonExample`), and an incomplete body kept whole can end in a truncation marker of somebody else's
  (`StaleMarkerMisstatesSize`). `StoredBodyIsFixpointIff` gives the exact condition.
- The oldest commit asked for is lost when it has neither a subject nor a file, and with it the `truncated` flag
  (`ListingLosesOldest`, `ListingExact`).
- The module text of commit_range.py calls user-supplied bases authoritative, but an option-shaped or otherwise unsafe
  one is treated as absent (`ExplicitBase`: exactly when it is unsafe), and an inferred tier may then decide the range
  (`UnsafeBaseFallsThrough`). The model follows the code.
- A request can start after the 300-second retry cap, because the elapsed time is read before the POST
  (`AttemptCanStartAfterCap`, bounded by `AttemptStartBound`; `AttemptStartsWithinIff` says when it does not).
- The run context is documented to drop images and runtime extras to fit; dropping the environment is always enough
  (`OnlyEnvIsDropped`).
- A test named like another test's teardown record takes its key, and the failed teardown goes unrecorded
  (`ClashLosesTeardown`). Every test gets its records exactly when no other test asked for one of its keys first
  (`EveryTestRecordedOnce`).
- A negative migration share is accepted and buys connections the server does not have (`NegativeMigrationAccepted`);
  `SafeIffRequired` says what would be exact.
- Once the mypy baseline is empty, the next update may write anything (`EmptyBaselineForgets`, `UpdateRaisesIff`).

## Model

| member | source | states |
|---|---|---|
| RetryPolicy.RetryExactly | client/testlookup_reporter.py:132-189 | a batch is tried again exactly on a transport error, a 429 or a 503, before the last attempt and within the cap, after exactly the wait that Retry-After or the backoff names |
| RetryPolicy.SentExactly | client/testlookup_reporter.py:1098-1147 | a batch is sent exactly when a 2xx with a JSON object comes, with the count it names or else all; any other reply that is not tried again fails it |
| RetryPolicy.BackoffDoubles | client/testlookup_reporter.py:140-178 | without a usable header the waits are half a second, then twice as long every time |
| RetryPolicy.RetryWithinBudget | client/testlookup_reporter.py:180-189 | no retry after the last attempt, no negative delay, none that reaches past the cap |
| RetryPolicy.ScheduleDecides | client/testlookup_reporter.py:1080-1147 | every batch makes 1 to MAX_RETRIES attempts, the last one decides, the loop never runs off its end |
| RetryPolicy.LastReplyDecides | client/testlookup_reporter.py:1080-1147 | what a whole batch comes to is decided by the reply to its last attempt alone |
| RetryPolicy.ScheduleStep | client/testlookup_reporter.py:1078-1120 | one turn of the retry loop: the reply decides, or the batch ends as its next attempts do |
| RetryPolicy.SleepBudget | client/testlookup_reporter.py:1078-1147 | for any replies and Retry-After values the sleeps of a batch total at most 300 s |
| RetryPolicy.AttemptStartBound | client/testlookup_reporter.py:1080-1097 | no attempt starts later than the cap plus the previous attempt's request time |
| RetryPolicy.AttemptStartsWithinIff | client/testlookup_reporter.py:1080-1097 | an attempt starts exactly when the network has spent its lags, requests and the waits its replies name, and so within the cap exactly when their sum fits |
| RetryPolicy.AttemptCanStartAfterCap | client/testlookup_reporter.py:1080-1087 | that bound is needed: an attempt can start after the cap |
| RetryPolicy.BackoffTotal | client/testlookup_reporter.py:1122-1142 | with no usable Retry-After the sleeps of a batch total at most 7.5 s |
| Session.LiveSession.constructor | client/testlookup_reporter.py:838-882 | a new session: empty queue, zero counters |
| Session.LiveSession.PopBatch | client/testlookup_reporter.py:1035-1040 | pops the first events of the queue, in order, exactly as many as the limit or the queue allows, and leaves the rest |
| Session.LiveSession.PostBatch | client/testlookup_reporter.py:1059-1147 | every attempt posts the one payload frozen before the loop; if the last reply is a 2xx with a JSON object `sent` grows by its count and `failed` stays, otherwise `failed` grows by all events and `sent` stays |
| Session.LiveSession.Record | client/testlookup_reporter.py:938-942 | enqueues, and at the batch threshold flushes exactly the first batchSize events, so that many are gone |
| Session.LiveSession.FlushOnce | client/testlookup_reporter.py:1030-1045 | one batch off the head of the queue, of batchSize events or all there are, settled once; nothing when the queue is empty |
| Session.LiveSession.FlushAll | client/testlookup_reporter.py:1047-1057 | empties the queue in chunks of at most 1000, each posted whole under its own id and settled; the counters grow by all of them |
| Session.ChunksCoverQueue | client/testlookup_reporter.py:1047-1057 | draining in chunks loses and reorders nothing; no chunk is empty or above the cap |
| Session.ChunksAreFull | client/testlookup_reporter.py:1047-1057 | every chunk of the drain but the last has 1000 events, so it makes as few batches as the cap allows |
| Session.CountersCoverBatches | client/testlookup_reporter.py:1116-1147 | if accepted batches are answered with their length, sent plus failed is the number of events posted |
| LiveProtocol.StepKeepsInv | client/testlookup_reporter.py:938-1167 | every step of the concurrent session keeps the protocol invariant |
| LiveProtocol.RunKeepsInv | client/testlookup_reporter.py:938-1167 | so does every run |
| LiveProtocol.ConservationFifo | client/testlookup_reporter.py:938-1057 | in every interleaving the enqueued events are the popped batches in pop order followed by the queue; no batch is empty or above 1000; ids are distinct |
| LiveProtocol.SettledOnce | client/testlookup_reporter.py:1080-1147 | a settled batch keeps its payload, its place and its outcome for ever |
| LiveProtocol.OneAbandoned | client/testlookup_reporter.py:1144-1167 | at most one batch is neither sent nor failed for good, one of the flusher's and only after the cancellation |
| LiveProtocol.AbandonedIffBusy | client/testlookup_reporter.py:1144-1167 | some batch ends so exactly when the flusher was posting at the moment it was cancelled |
| LiveProtocol.TalliesCoverBatches | client/testlookup_reporter.py:1116-1147 | the events of sent, failed, open and abandoned batches are all events popped |
| LiveProtocol.CountersBalance | client/testlookup_reporter.py:1116-1167 | `failed` is the events of failed batches, `sent` what the server reported of sent ones; with queued, in-flight and abandoned events they make up everything enqueued exactly when the reports add up to the sent events, as honest counts do |
| LiveProtocol.SentMeansReceipt | client/testlookup_reporter.py:1117-1120 | a batch reaches the sent branch only when the server holds it whole; `sent` grows by the count the server named, by the batch's length if it named none or what it holds |
| LiveProtocol.ExactlyOnce | client/README.md:189-191 | whatever is lost, delayed, repeated or reordered: each stored entry is the recorded event of its place, no event is stored twice, every sent batch is stored whole |
| LiveProtocol.DistinctOrigins | client/README.md:189-191 | two entries of the server never come from the same recorded event |
| LiveProtocol.SentIsStored | client/testlookup_reporter.py:1069-1120 | entry i of a sent batch is its event i |
| LiveProtocol.RecordsNeverBacklog | client/testlookup_reporter.py:938-942 | while only record enqueues, the queue stays below the batch threshold in every state |
| LiveProtocol.QueueStaysEmpty | client/testlookup_reporter.py:1149-1167 | after the drain, with producers stopped, the queue stays empty |
| LiveProtocol.ShutdownSettlesEverything | client/testlookup_reporter.py:1149-1167 | after shutdown nothing is queued or in flight; every batch is sent or failed exactly when the flusher was idle at the cancellation, else all but one are; with honest counts sent plus failed is everything enqueued exactly then |
| LiveProtocol.CancelledBatchCanBeStored | client/testlookup_reporter.py:1144-1167 | a run in which the cancelled batch is stored yet counted neither way |
| LiveProtocol.BatchRuns | client/testlookup_reporter.py:1059-1147 | the session's retry loop for one batch, on any network, is a run of the protocol: same requests, same verdict, same counters |
| LiveProtocol.FlushRuns | client/testlookup_reporter.py:1030-1147 | so is a whole flush: the same events leave the queue and go on the wire, and the counters move alike |
| Stream.LiveStream.Enqueue | client/testlookup_reporter.py:1455-1458 | a real event is a step of the timeline and keeps the stream alive: the activity clock moves and the event is enqueued |
| Stream.LiveStream.MaybeEmitHeartbeat | client/testlookup_reporter.py:1511-1531 | a heartbeat is enqueued exactly after 30 s of silence, and does not move the activity clock |
| Stream.LiveStream.WakeUp | client/testlookup_reporter.py:1496-1531 | one turn of the heartbeat loop is a step of the timeline and keeps the stream alive, however turns and real events interleave |
| Stream.AliveUntilWake | client/testlookup_reporter.py:1496-1531 | the passing of time up to the end of the sleep keeps it alive too |
| Stream.HeartbeatLiveness | client/testlookup_reporter.py:1496-1531 | in every timed run consecutive enqueues are less than 60 s apart, and no heartbeat follows real activity by less than 30 s |
| Stream.NothingLostWhileShared | client/testlookup_reporter.py:1571-1592 | while the context is still in the dictionary no batch has been lost to it |
| Stream.NothingLostWithoutCarriers | client/testlookup_reporter.py:1571-1592 | once dropped, with no request in flight that carries it, none will be |
| Stream.ContextStaysDropped | client/testlookup_reporter.py:1585-1592 | a dropped context never comes back |
| Stream.LostIffAnotherCarrier | client/testlookup_reporter.py:1579-1627 | a refusal can lose a batch exactly if another post in flight carries the context then |
| Stream.RefusedCanBeStored | client/testlookup_reporter.py:1571-1592 | no batch need be lost: the first refusal posts again without the context, and that post, like any started afterwards, can be accepted |
| PytestPlugin.Plugin.LogReport | client/testlookup_reporter.py:1810-1918 | one report changes what is remembered and recorded as the step function says |
| PytestPlugin.OneRecordPerKey | client/testlookup_reporter.py:1878-1881 | no stream of reports yields two records of one key; the keys kept are those of the records |
| PytestPlugin.RepeatedReportsAddNothing | client/testlookup_reporter.py:1878-1881 | reports delivered again, in any order, add no record |
| PytestPlugin.SetupRememberedUntilTeardown | client/testlookup_reporter.py:1842-1869 | a setup is remembered from its report to its test's teardown, and no longer |
| PytestPlugin.TestsDoNotInterfere | client/testlookup_reporter.py:1810-1918 | without a clash of keys what is recorded for a test depends on its own reports only, however they interleave |
| PytestPlugin.TestAlone | client/testlookup_reporter.py:1810-1918 | the records of a well-formed test: one primary, with status and timing of its deciding phase, and a BROKEN one exactly if teardown failed |
| PytestPlugin.EveryTestRecordedOnce | client/testlookup_reporter.py:1810-1918 | in every interleaved stream a well-formed test gets exactly its records if and only if no other test asked for one of its keys first; its setup entry is gone in any case |
| PytestPlugin.ClashLosesTeardown | client/testlookup_reporter.py:1810-1918 | for a test of any name with setup, call and a failed teardown: a like-named one before it, with all three phases too, leaves that teardown unrecorded |
| Utf8.DecodeEncode | client/http_capture.py:235-243 | decoding undoes encoding |
| Utf8.DecodeCut | client/http_capture.py:239-243 | decoding a cut encoding gives a prefix within three bytes of the cut, and the next character would not fit |
| Utf8.CutBytesLongestPrefix | client/http_capture.py:239-243 | the cut is the longest prefix of whole characters that fits (section 3 of RFC 3629), and keeps at least limit - 3 bytes |
| Utf8.CutBytesTwice | client/http_capture.py:239-243 | cutting twice is cutting once |
| Settle.SettleText | client/http_capture.py:246-252 | the loop computes the iteration up to its first repeat, at most six rounds |
| Settle.SettledInOneRound | client/http_capture.py:246-252 | for a cleaning step and a cleanness closed under prefixes the first round is already the fixpoint |
| Settle.RunPassCleans | client/http_capture.py:188-191 | the 40-character run scanner leaves no run, whatever its replacement is put next to |
| Settle.RunPassKeepsClean | client/http_capture.py:188-191 | and leaves a text without runs alone |
| Settle.RunPassIdempotent | client/http_capture.py:188-191 | it is idempotent and changes a text exactly when it holds a run |
| Settle.RunReplaced | client/http_capture.py:188-191 | each maximal run of 40 or more becomes the marker, and the text around it is scanned as if alone: nothing else is lost |
| Settle.ShortRunStays | client/http_capture.py:188-191 | a run of at most 39 stays |
| Settle.TokenCharsAre | client/http_capture.py:85-90 | what a run is made of, by ASCII code |
| Settle.RunPassMeetsHypotheses | client/http_capture.py:188-191 | the hypotheses of the one-round result hold of it with the byte cut |
| Settle.SettledRuns | client/http_capture.py:246-252 | so settling runs under a byte limit takes one round, fits, holds no run and stays put |
| PasswordSettle.PassAgainIff | client/http_capture.py:151 | a second pass of the password pattern changes nothing exactly when every value in the text is followed by white space, a comma or the end |
| PasswordRule.ValueTaken | client/http_capture.py:151 | a value of four characters or more behind the name, in any case, and a sign becomes the marker, with the quotes around it |
| PasswordRule.ValueTooShort | client/http_capture.py:151 | a shorter one stays |
| PasswordSettle.QuotedIsOpen | client/http_capture.py:151 | two quotes behind a value, or one quote and more text, break that, whatever the value |
| PasswordSettle.RoundsNeeded | client/http_capture.py:151 | the number of rounds any text needs, for any cut that keeps the longest beginning within a limit: one, and as many as one scan of what the first round kept counts |
| PasswordSettle.SettledIffOwed | client/http_capture.py:246-252 | six rounds settle a text, and settling again changes nothing, exactly when that scan counts at most five |
| PasswordSettle.UncutOwed | client/http_capture.py:246-252 | where the cut leaves the first pass alone, the scan of the text itself counts the same |
| PasswordSettle.HeaderValueSettlesIff | client/http_capture.py:287-288 | so for a header value with its cut to 2048 characters |
| PasswordSettle.QuotedOwes | client/http_capture.py:151 | n quotes behind a value cost n - 1 passes after the first |
| PasswordSettle.SixRoundsLeaveOne | client/http_capture.py:246-252 | of seven quotes behind a marker six rounds leave one, no round reaches a fixpoint, and settling again changes the text |
| JsonRedaction.WalkAgainIff | client/http_capture.py:402-419 | a second walk changes nothing exactly when every name and string the first left passes the text rules unchanged; depth, secrets, colliding names and U+0000 never need a second walk |
| JsonRedaction.WalkIdempotent | client/http_capture.py:402-419 | in particular a value whose every text settles in one pass is walked once and for all |
| JsonRedaction.PasswordWalksAgainIff | client/http_capture.py:402-419 | where the rules act on a string as the password pattern does, a second walk leaves it alone exactly when every value in it is followed by white space, a comma or the end |
| JsonMeaning.WalkRedacts | client/http_capture.py:402-419 | what a walk makes of a value, place by place: numbers, booleans and null stay, strings go through the text rules, lists item by item, an object gives each new name, in the order they come up, the value of its last member, secrets and containers below ten others are the marker |
| JsonRedaction.WalkStaysIff | client/http_capture.py:402-419 | a walk changes a value if and only if there is something in it to redact |
| JsonRedaction.WalkDepth | client/http_capture.py:402-404 | a walk never leaves containers nested deeper than 10 |
| JsonMeaning.WalkedChain | client/http_capture.py:402-404 | of a walked value no more than ten containers stand one in another |
| JsonMeaning.ChainReaches | client/http_capture.py:402-404 | as many containers as a value is said to nest do stand one in another in it |
| JsonMeaning.ChainFits | client/http_capture.py:402-404 | and no more |
| JsonRedaction.WalkHidesSecrets | client/http_capture.py:405-414 | values that differ only under secret keys give the same walked value |
| JsonRedaction.WalkReplacesSecrets | client/http_capture.py:405-414 | after a walk every value under a secret key is null, a boolean or the marker |
| JsonRedaction.SchemaOf | client/http_capture.py:434-446 | the schema loop computes the named keys up to the cap and the count of the rest |
| JsonRedaction.SchemaCountsKeys | client/http_capture.py:434-446 | named plus unnamed keys are all keys; at most 201 entries; every entry well formed |
| JsonRedaction.SchemaNamesMembers | client/http_capture.py:422-446 | named entries are keys of the body with the type of their value; all nameable keys are named up to the cap |
| JsonRedaction.JsonType | client/http_capture.py:422-431 | the type of a value has the name JSON gives it |
| JsonRedaction.SanitisedSchemaKeeps | client/http_capture.py:463-472 | sanitising is the identity on every computed schema, and idempotent on any |
| JsonRedaction.SanitisedAre | client/http_capture.py:463-472 | of a schema that comes in exactly the acceptable ones of its first 201 fields are kept |
| JsonRedaction.RunPassLawful | client/http_capture.py:188-191 | the run scanner meets all that is assumed of the text rules, and settles every text in one pass |
| JsonRedaction.PasswordLawful | client/http_capture.py:151 | so does the password pattern, though it does not settle in one pass |
| BodyRedaction.StoredBodyIsFixpointIff | client/http_capture.py:475-535 | a stored body is unchanged by a second pass - text, counts, schema, state, flag and size - if and only if the condition of its branch holds, for every reader and writer that read back what was accepted and walked |
| BodyRedaction.StringCodecFaithful | client/http_capture.py:395-450 | there is such a reader and writer |
| BodyMeaning.NoBody | client/http_capture.py:487-511 | no body is stored as none: empty, of no size |
| BodyMeaning.BlankBody | client/http_capture.py:487-511 | a blank one is kept as it is |
| BodyMeaning.FreshBodyStored | client/http_capture.py:505-535 | any other is cut at 65536 bytes, redacted as text or walked as JSON, and stored whole within 16384 bytes or else settled and marked with what is left out; count, schema, state, flag and size, case by case |
| BodyMeaning.StoredBodyAgain | client/http_capture.py:487-511 | a copy that comes back keeps the number of its marker, its state, and a schema only beside a parsed state |
| BodyMeaning.StoredCopyIff | client/http_capture.py:475-484 | and only a truncated text with a marker of 1 to 15 digits at its end and at most 16384 bytes before it is taken for one |
| BodyRedaction.CutAccounting | client/http_capture.py:530-535 | of a cut body kept plus omitted bytes is the larger of received and full, and at most body_bytes |
| BodyRedaction.MarkersCounted | client/http_capture.py:255-256 | the redactions reported are the places a marker starts at |
| BodyRedaction.InnocentBodyKept | client/http_capture.py:511-531 | a body with nothing to redact is stored as it came, with its state, size and schema |
| BodyRedaction.MarkerFound | client/http_capture.py:475-484 | a marker of at most 15 digits is found again with its number, a longer one is not |
| BodyRedaction.StoreSettledFits | client/http_capture.py:453-454 | what is stored fits 16384 bytes whatever the text rules do |
| BodyRedaction.RepairedJsonChangesState | client/http_capture.py:521-527 | redaction can turn text that is not JSON into JSON, and the state then changes |
| BodyRedaction.RepairedJsonExample | client/http_capture.py:521-527 | for instance with a leading zero under a secret name |
| BodyRedaction.PasswordBodyIsFixpointIff | client/http_capture.py:512-531 | where the rules act as the password pattern does, a body that is not JSON is a fixpoint exactly when its values are so followed and redaction did not make it JSON, or, if it must be cut, when what the first round kept owes at most five |
| BodyRedaction.OpenBodyChanges | client/http_capture.py:512-531 | so a short body whose values are not so followed is stored after one pass and changes on the second |
| BodyRedaction.StaleMarkerMisstatesSize | client/http_capture.py:475-511 | a foreign marker at the end of an incomplete body makes the second pass record the wrong size |
| BodyRedaction.PasswordBodiesKeepIff | client/http_capture.py:246-252 | the condition on cut and on stored bodies: six rounds with the byte cut suffice exactly when what the first one kept owes at most five |
| BodyRedaction.RunBodiesKeep | client/http_capture.py:246-252 | with the run scanner as text rules that is every body: the first round is enough |
| UrlRedaction.SplitOfJoin | client/http_capture.py:326-333 | joining well-formed parts and splitting again gives the parts (appendix B of RFC 3986) |
| UrlRedaction.SchemeIff | client/http_capture.py:178-179 | the scheme is what is spelled as one (section 3.1 of RFC 3986) and stands before the first colon |
| UrlRedaction.JoinOfSplit | client/http_capture.py:326-344 | splitting and joining any text gives it without its fragment |
| UrlRedaction.NetlocHidesCredentials | client/http_capture.py:293-299 | the text after the first colon of userinfo, or a userinfo without one, cannot be told from the result |
| UrlRedaction.NetlocIdempotent | client/http_capture.py:293-299 | redacting an authority twice is redacting it once, with any number of @ and : |
| UrlRedaction.QueryPartAgainIff | client/http_capture.py:306-317 | a second pass over a query parameter changes nothing exactly when the first one settled its value |
| UrlRedaction.QueryAgainIff | client/http_capture.py:302-318 | a second pass over a query changes nothing exactly when every parameter settled |
| UrlRedaction.RedactUrlAgainIff | client/http_capture.py:336-344 | redacting a redacted URL changes nothing exactly when every parameter of its query settled: scheme, authority and path never need a second pass |
| UrlRedaction.InnocentUrlKept | client/http_capture.py:336-344 | a URL with nothing to redact loses its fragment and nothing else |
| UrlRedaction.UrlHidesPassword | client/http_capture.py:336-344 | URLs, with a scheme or as network-path references, that differ only in the password are redacted to the same text |
| UrlRedaction.RedactUrlHidesPassword | client/http_capture.py:347-352 | and are stored as the same text, of at most 2048 characters, however long they are |
| UrlSecrets.UrlIsRedacted | client/http_capture.py:302-344 | a redacted URL part by part: the scheme, the authority without credentials, the token pass over every path segment and query name, a marker for every value under a denied name, and the text rules over every other decoded value |
| UrlSecrets.UrlHidesSecrets | client/http_capture.py:302-344 | URLs that differ only in the values under denied names are redacted to the same text |
| UrlSecrets.StoredUrlHidesSecrets | client/http_capture.py:347-352 | and are stored as the same text, however long they are |
| UrlSecrets.UrlMarksSecrets | client/http_capture.py:309-311 | in a redacted URL every value under a denied name is the marker |
| UrlSecrets.StoredUrlMarksSecrets | client/http_capture.py:347-352 | so it is in a stored one; at the cap the last may be cut short |
| UrlRedaction.ShortUrlSettles | client/http_capture.py:347-352 | of a stripped text: a URL whose redaction is below the cap is settled by the loop after one redaction exactly if its query parameters are, and the loop then leaves it as it is; what a second call strips is not part of this |
| UrlRounds.PasswordPartAgainIff | client/http_capture.py:306-317 | where the rules act as the password pattern does, a query parameter stays exactly when every value in its decoded text is followed by white space, a comma or the end, or no rule gets to see it |
| UrlRounds.UrlRoundsNeeded | client/http_capture.py:336-344 | after n + 1 redactions a URL stays exactly when no query value owes more than n passes |
| UrlBlanks.OnceEnd | client/http_capture.py:336-344 | a redacted URL ends in white space exactly when the text before the fragment does, unless that is in a query value under a denied name or changed by the text rules |
| UrlBlanks.StoredAgainIff | client/http_capture.py:347-352 | a URL of any length stays under a second call exactly when the loop leaves it alone and it has nothing to strip: white space once stripped does not come back |
| UrlRounds.PasswordUrlSettlesIff | client/http_capture.py:347-352 | a stored URL that fits the cap stays under a second call exactly when no query value owes more than five passes and what stood before the fragment did not end in white space that redaction keeps |
| UrlRounds.ShortUrlStaysIff | client/http_capture.py:347-352 | whatever the text rules, one whose query settles in one pass stays under a second call exactly when what stood before the fragment did not end so |
| UrlRounds.SpaceBeforeFragment | client/http_capture.py:347-352 | `/a #x` is stored with a space at the end, and storing that again strips it |
| UrlRounds.SevenQuotesInUrl | client/http_capture.py:347-352 | one with seven quotes in a query value is not settled by the loop |
| UrlRedaction.RunPassLawfulUrl | client/http_capture.py:321-323 | the run scanner meets what is assumed of the token pass |
| UrlBlanks.RunPassKeepsBlanks | client/http_capture.py:188-191 | the run scanner meets what is assumed of the token pass about white space and U+0000 |
| GitLog.ParseLog | client/commit_range.py:549-564 | the parsing loop reads every record of the output, in order |
| GitLog.LogRoundTrip | client/commit_range.py:269-272 | printing any log and parsing it gives the commits, clipped, in order, except a last one with no subject and no file |
| GitLog.ClippedFields | client/commit_range.py:539-546 | a commit is sent with its own fields, each stripped and cut to its cap; a blank author or date is none, and of the files the first 500 that are not blank |
| GitLog.ReadListing | client/commit_range.py:576-606 | keeps the newest `limit` commits, oldest first, and says whether there were more |
| GitLog.ReverseAt | client/commit_range.py:602-606 | reversing puts the newest commit last |
| GitLog.ListingExact | client/commit_range.py:576-606 | this is right if and only if the oldest commit asked for has a subject or a file |
| GitLog.ListingKeepsAll | client/commit_range.py:602-606 | the listing when it has |
| GitLog.ListingLosesOldest | client/commit_range.py:269-272 | the listing when it has not: one commit short, or reported as complete |
| CommitRange.RunGit | client/commit_range.py:209-282 | one more call, recorded with what it counts as |
| CommitRange.Classified | client/commit_range.py:209-282 | an answer is exit code 0, with its output stripped; a refusal is exit code 1 or an option-shaped path; any other code, a signal, a timeout or a failure to start is unavailable |
| CommitRange.AppendMissingIsUnion | client/commit_range.py:180-183 | adding what is missing is a union without repetition |
| CommitRange.ShortRefOf | client/commit_range.py:167-178 | the short form of a branch or remote branch is its name; other full references lose `refs/` alone |
| CommitRange.CandidatesOf | client/commit_range.py:167-183 | the literal reference first, then the form under origin/, under refs/remotes/origin/ and the short one, each once |
| CommitRange.ResolveRef | client/commit_range.py:329-348 | the first form git resolves; refused only if every form was refused; unavailable if any probe was |
| CommitRange.DefaultBranch | client/commit_range.py:351-362 | the remote's own word if it gave one, else the first of four names that resolves, else none: exactly what git said decides |
| CommitRange.UsualOrder | client/commit_range.py:351-362 | origin/main, origin/master, main and master are asked for in this order until one resolves |
| CommitRange.FallbackBase | client/commit_range.py:365-379 | the merge base with the default branch if git gave one other than the head, else the head's parent; never a base git did not name |
| CommitRange.LogCommits | client/commit_range.py:576-606 | one log call; its listing, or nothing with the status it ended in |
| CommitRange.HeadOnlyRange | client/commit_range.py:702-725 | degraded mode: in a shallow clone the log of the head decides, elsewhere the reason stands and nothing is sent |
| CommitRange.RangeFrom | client/commit_range.py:762-794 | a base that is not the head has its range logged, and that log alone decides; the outcome is honest |
| CommitRange.FineIsListed | client/commit_range.py:762-794 | a range that is fine holds 1 to 100 commits of a log of base..head that was asked for 101 |
| CommitRange.FromUserBase | client/commit_range.py:731-748 | unavailable gives git_failed, refused gives degraded mode, resolved is the base; no inferred source |
| CommitRange.FromInference | client/commit_range.py:749-763 | the CI base decides if it resolved and is not the head, otherwise the fallback does |
| CommitRange.DiagnoseCommitRange | client/commit_range.py:653-796 | for every git behaviour: what git answered determines the outcome tier by tier; the first base of the right shape is the one whose resolution decides, and no inferred range is sent then; user_base_unresolvable only if every form was refused; an outage gives git_failed and no range; degraded means shallow, null base, one commit; ok means base differs from head and 1 to 100 commits |
| CommitRange.SafeRefIff | client/commit_range.py:139-156 | a base is taken exactly if it has, once stripped, 1 to 255 of the listed characters, does not start with `-` and is not all zeros |
| CommitRange.UserBaseIsFirst | client/commit_range.py:519-533 | the user's base is the first candidate of that shape |
| CommitRange.ExplicitBase | client/commit_range.py:519-533 | an explicit base of that shape is the user's base, and any other counts as none |
| CommitRange.UnsafeBaseFallsThrough | client/commit_range.py:749-763 | for every unsafe explicit base git can answer so that the CI provider's reference decides the range |
| CommitRange.OptionShapedIsUnsafe | client/commit_range.py:139-156 | every value that starts with `-` once stripped is unsafe |
| ContextLayers.MergeRuntime | client/run_context.py:273-283 | computes the first valid pair of each key, up to 16 |
| ContextLayers.MergeImages | client/run_context.py:286-298 | the first layer that names a valid image, up to 8 of its own |
| ContextLayers.CollectedExact | client/run_context.py:273-298 | a merged section is exactly the leading valid pairs in order until it is full |
| ContextLayers.CollectedIsDict | client/run_context.py:273-298 | no key twice, only valid pairs, at most 16 or 8, and every valid key unless it is full |
| ContextLayers.EarlierPairWins | client/run_context.py:273-283 | a value of an earlier layer is never replaced by a later one's |
| ContextLayers.PairsUnpadded | client/run_context.py:159-180 | pairs are stripped, so the patterns' `$` cannot let a line feed through |
| ContextLayers.MatchesIff | client/run_context.py:175-180 | a pattern closed by `$` accepts a text, and the text with one line feed behind it, and nothing else |
| ContextLayers.RuntimeShapes | client/run_context.py:76-77 | what a runtime key and a version may be, by ASCII code |
| ContextLayers.ImageShapes | client/run_context.py:85-86 | what an image name, its tag and its digest may be |
| ContextLayers.ItemParsed | client/run_context.py:159-172 | `key=value` is one stripped pair unless a side is blank |
| ContextLayers.EntryParsed | client/run_context.py:159-172 | an entry of a mapping is one stripped pair unless it is null |
| ContextLayers.EntriesConcat | client/run_context.py:159-172 | entries are read one after the other |
| ContextLayers.ItemsConcat | client/run_context.py:159-172 | so are items |
| ContextLayers.LineParsed | client/run_context.py:159-172 | and a text is the items between its commas |
| RunContext.SizeIsLength | client/run_context.py:314-315 | the JSON is all ASCII, so its byte size is its length |
| RunContext.SizeCounts | client/run_context.py:314-315 | the size is counted exactly: every section that is there with its name, entries and JSON punctuation, each character as ASCII JSON writes it |
| RunContext.UnescapeEscape | client/run_context.py:314-315 | the escaped text of a string reads back as the string |
| RunContext.FitsWithoutEnv | client/run_context.py:364-406 | every context of valid sections is at most 6568 bytes without its environment |
| RunContext.Context.Fit | client/run_context.py:318-329 | on any context: env, then images, then the fewest extras of the runtime, last entered first |
| RunContext.OnlyEnvIsDropped | client/run_context.py:318-329 | on every context the merges build only env is ever dropped, and the result is at most 8192 bytes |
| RunContext.FittingKeeps | client/run_context.py:318-329 | fingerprints and the runtime entries to keep survive fitting on any context |
| RunContext.CollectRunContext | client/run_context.py:364-406 | what is sent is everything collected if it fits, else everything but env; it always fits; and every variable in it is on the allow list, redacted, without control characters or a password left to mask |
| UserinfoMask.MaskedPrefixStays | client/run_context.py:99-153 | a masked text has nothing left to mask, and neither has any prefix a cut leaves of it |
| UserinfoMask.MaskReplaces | client/run_context.py:99-153 | the password becomes the marker and nothing else changes |
| UserinfoMask.MaskHidesPassword | client/run_context.py:99-153 | in any text, whatever stands before and behind, a password after `://user:` cannot be told from another after masking |
| UserinfoMask.MaskAdds | client/run_context.py:99-153 | masking adds nothing but the marker |
| RunContext.RedactEnvValue | client/run_context.py:142-156 | an environment value is the marker or not token-shaped, and at most 200 characters |
| RunContext.EnvValueKept | client/run_context.py:142-156 | a value with no control character, no password and no token shape is sent as it is, up to 200 characters |
| RunContext.DropOne | client/run_context.py:142-156 | exactly U+0000 to U+001F and U+007F are dropped |
| RunContext.DropControlsConcat | client/run_context.py:142-156 | each by itself |
| RunContext.EnvValueClean | client/run_context.py:142-156 | what is sent of an environment value has no control character and no userinfo password left to mask, however the cut fell |
| RunContext.EnvValueHidesPassword | client/run_context.py:142-156 | nor can it in the value as it is sent, unless a text is token-shaped as a whole |
| RunContext.RedactEnvTwice | client/run_context.py:142-156 | redacting it again changes nothing, provided only that the marker is not token-shaped |
| Quantile.SortedIsOrdered | backend/scripts/load_test_concurrent.py:1044-1044 | sorting orders the buckets and loses none |
| Quantile.HistogramQuantile | backend/scripts/load_test_concurrent.py:1037-1059 | the loop returns the estimate of the first bucket that reaches the rank, or says there is none |
| Quantile.QuantileInBucket | backend/scripts/load_test_concurrent.py:1049-1059 | on a histogram, for 0 <= q <= 1, the answer lies in the bucket holding the rank (the highest finite bound for +Inf), exactly rank observations lie below it, and the return after the loop is not taken |
| Quantile.QuantileMonotone | backend/scripts/load_test_concurrent.py:1037-1059 | the quantile grows with q |
| Quantile.EstimateInverts | backend/scripts/load_test_concurrent.py:1053-1057 | interpolation inverts the linear count |
| FleetBudget.AutoscalerMaxima | scripts/validate_db_connection_budget.py:92-96 | a target has a maximum exactly if some autoscaler names it, and it is that of the last one that does |
| FleetBudget.HpaIsLast | scripts/validate_db_connection_budget.py:92-96 | the same of the specification the other results use |
| FleetBudget.BudgetOf | scripts/validate_db_connection_budget.py:99-138 | a deployment is accepted exactly if its settings are present, consistent and positive, else its first fault is named; replicas, processes and connections are those of the manifest, and the surge is none, the count given, or the share given rounded up |
| FleetBudget.ConfigIsFirst | scripts/validate_db_connection_budget.py:75-85 | the limits are those of the first config map of the name |
| FleetBudget.CalculateBudget | scripts/validate_db_connection_budget.py:75-141 | the budgets of all API and worker deployments, or the first fault in document order |
| FleetBudget.Validate | scripts/validate_db_connection_budget.py:144-164 | accepts only if the required connections fit the declared number and, with all reserves, the server's maximum; every other refusal is a fault of the calculation, and these two name the number required |
| FleetMachine.PodsAtMost | scripts/validate_db_connection_budget.py:43-61 | replicas plus surge never exceed their value at the maximum, for every kind of maxSurge |
| FleetMachine.MayStartIff | scripts/validate_db_connection_budget.py:43-61 | the rollout rule of the machine - a pod more while the extra ones are below the share - is the surge rounded up |
| FleetMachine.StepKeepsInv | scripts/validate_db_connection_budget.py:26-32 | every step of scaling, rolling out, connecting and migrating keeps each workload within its room |
| FleetMachine.InvBounds | scripts/validate_db_connection_budget.py:26-32 | so the open connections stay within the peak |
| FleetMachine.Climb | scripts/validate_db_connection_budget.py:26-32 | and the peak is reached by a run |
| FleetMachine.SafeIffPeak | scripts/validate_db_connection_budget.py:144-164 | a fleet stays within a limit in all runs if and only if its peak does |
| FleetMachine.AcceptedIsSafe | scripts/validate_db_connection_budget.py:144-164 | accepted budgets without negative numbers are safe |
| FleetMachine.ValidatedIsSafe | scripts/validate_db_connection_budget.py:144-164 | from the documents: what is accepted is safe to scale and roll out |
| FleetMachine.SafeIffRequired | scripts/validate_db_connection_budget.py:146-163 | the exact condition: the required number with a negative migration share counted as zero |
| FleetMachine.NegativeMigrationAccepted | scripts/validate_db_connection_budget.py:86-90 | a manifest that passes every check and is not safe |
| Ratchet.ParseMypyOutput | scripts/mypy_ratchet.py:75-100 | counts come back exactly when mypy did not crash, printed a summary, and its number is that of the readable error lines; then they are exact per file; otherwise the first of these that failed is named |
| Ratchet.LastSummaryIs | scripts/mypy_ratchet.py:88-92 | the number that counts is that of the last summary line, and there is none exactly when no line is one |
| Ratchet.CleanMeansClean | scripts/mypy_ratchet.py:88-99 | a run read as clean had no error line |
| Ratchet.LoadBaseline | scripts/mypy_ratchet.py:103-113 | the loading loop reads every entry, a later line for a file replacing an earlier one |
| Ratchet.LinesBetween | scripts/mypy_ratchet.py:107 | lines are what stands between line breaks, which are the ten characters that break a line in Python |
| Ratchet.LineRead | scripts/mypy_ratchet.py:108-112 | a line of a count and a path, whatever white space stands around and between them, is that entry |
| Ratchet.LineIgnored | scripts/mypy_ratchet.py:108-110 | a blank line and a comment are nothing |
| Ratchet.LineRefusedIff | scripts/mypy_ratchet.py:108-112 | any other line is an error exactly when it has no second field or its first is not digits |
| Ratchet.RenderThenLoad | scripts/mypy_ratchet.py:103-135 | loading what was written gives the counts above zero, in whatever order the files are written |
| Ratchet.Compare | scripts/mypy_ratchet.py:116-126 | regressions and improvements are exactly the files whose count rose or fell |
| Ratchet.Check | scripts/mypy_ratchet.py:196-218 | passes exactly if no count rose; with --check-stale exactly if all agree |
| Ratchet.BaselineFile.Update | scripts/mypy_ratchet.py:138-150 | the file is left alone and the raised files named, or it reads back as the new counts |
| Ratchet.UpdateRaisesIff | scripts/mypy_ratchet.py:142-149 | an update without --allow-increase raises a count exactly when the baseline was empty |
| Ratchet.RatchetHolds | scripts/mypy_ratchet.py:138-150 | until the baseline is empty its counts only go down, over any history of updates |
| Ratchet.EmptyBaselineForgets | scripts/mypy_ratchet.py:147-149 | after that they may go up |
| Ratchet.PassingCommitsImprove | scripts/mypy_ratchet.py:196-218 | where CI checks for slack, no file has more errors at a later passing commit |

## Left out

- HTTP, asyncio and pytest themselves: only their step semantics (queue order, cancellation at an await, report phases).
- Freshness of batch ids is assumed (`Fresh`), not derived from how UUIDs are drawn; a server that answers 2xx without
  holding the batch is not considered. It may report any count.
- LiveStream: its own flush and drain (the session's code again), the closing run_complete post and the session id it
  learns are not modelled; a refused post in `Stream` ends as stored or lost without its retries.
- HTTP exchanges of a session (`record_http_exchanges`), `HttpCapture` patching and buffering, the choice of
  headers, endpoints and `redact_exchange`: they would add only easy members.
- The pattern tables for provider tokens, e-mail, phone, card and IP shapes: parameters under stated hypotheses. Of the
  text patterns only the run of 40, the password assignment and the userinfo mask are written out.
- PasswordSettle.PassAgainIff: letters are compared as ASCII letters, and it is about this pattern alone: that the whole
  table acts as it does is a hypothesis on the texts at hand where the table is meant (`ActsAlike`). For any other rules
  `ReachedBodiesKeep` still has the rounds themselves as its condition.
- UrlRounds.PasswordUrlSettlesIff: a URL whose first redaction exceeds 2048 characters may be cut within a
  percent-escape, and what that decodes to is up to the decoder; of such URLs only `StoredUrlSettlesIff` and
  `StoredAgainIff` speak, with the rounds and the stored text themselves as their conditions.
- JSON numbers are kept as literals; duplicate object keys and the depth limit of the JSON reader are the reader's.
- Lone surrogates: a Dafny char is a Unicode scalar value, so `_clean` only removes U+0000 here.
- Digits are ASCII digits where the code uses a regular expression's digit class or `str.isdigit`.
- BodyRedaction.StoredBodyIsFixpointIff: bodies of 10^15 bytes and more, as received, redacted or redacted twice, are
  not covered, because a marker cannot count them.
- Real git, subprocesses and timeouts: an oracle that may end each call in any way; `detect_ci_base_ref`, the
  collection switch and the unexpected_error outcome of an exception are not modelled.
- GitLog.LogRoundTrip: fields without separators are assumed, as git's own quoting ensures for paths and names.
- Hashing lockfiles, detecting the interpreter and resolving the root: given values; a hash is 64 hexadecimal digits.
- RunContext.RedactEnvTwice: the token shapes are a parameter of which only the marker's own shape matters.
- Floating point: seconds, quantiles and percentages are real or exact integer numbers, and NaN is only modelled in
  Retry-After.
- `_delta`, `_percentile`, the cold-window keys and `TokenPool` of the load test.
- Sorting budgets by name, parsing YAML settings into integers, `--concurrency` on the command line, and the Compose
  validation: the same arithmetic without surges.
- Ratchet.LoadBaseline: counts are read as plain decimal digits; a sign or underscores, which `int()` also reads, are
  a malformed line here, because what the script writes never has them.
- Ratchet: the order in which files are written is any order listing each once, and mypy's line patterns with the
  normalising of paths are a parameter; the printed messages are not modelled.
- Configuration files, credentials, CI metadata, the MCP server, the frontend and the backend routes.
