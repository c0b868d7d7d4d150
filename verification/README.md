# A verified model of the miner's protocols, codecs and formatting code

This project models parts of XMRig and of the `fmt` library and codecs that it carries, and proves what
they promise for all inputs and all runs. Each module follows one component.

- **Result pipeline** (`ResultPipeline`, `JobResultsQueue`, `Rehash`, `Confirmation`, `Jobs`). Threads push results
  and nonce bundles under a mutex and poke a coalescing handle; the loop thread swaps the queues, delivers, and
  hands bundles to a worker that hashes every nonce again. The protocol is a state machine over its atomic steps;
  the handler is an object whose methods are proved to be runs of that machine. `Async::send` sets one flag that is
  cleared before the callback. The hash functions and the readiness of the RandomX dataset are parameters.
- **Miner and network layer** (`MinerState`, `MinerEffects`, `Miner`, `NetworkState`, `Network`). User jobs,
  donation jobs, dataset callbacks, commands and timer ticks in any order, as transitions of a value and as an
  object that performs them. `NetworkState` puts the miner, the backends and the pipeline together.
- **Base32** (`Base32`, `Words`). The encoder with its unmasked 32-bit accumulator in two's complement, against the
  bit string of the whole input; alphabet of section 6 of RFC 4648, no padding characters (section 3.2).
- **Durations** (`DurationCast`, `ChronoFields`, `ChronoFormat`, `ChronoFormatter`, `DurationFormatter`,
  `ChronoShown`). Integer types are written out with sign and width, `static_cast` wraps, division truncates. The
  parser is proved against tilings of the text by directive spellings, the writer against a list of tokens, and both
  together from the text behind the colon to the output.
- **Format strings** (`FormatParser`, `FormatSpecs`, `SpecSpelling`, `FormatSpelling`, `ParseContext`,
  `FormatParts`, `PartReferences`, `FormatPasses`, `FormatCompiler`, `CompiledFormat`, `Decimals`). The two forms of
  the parser, the reader of format specs, both against what is spelled, the numbering of arguments, the counting and
  the emitting pass over a string and the array between them, and the compiled tree against direct interpretation.
  In the tree, how specs of an argument type are read and arguments are written are parameters.
- **Argument stores** (`FormatArgs`, `ArgStore`, `DynamicArgStore`, `Options`). Packed and unpacked descriptors, the
  hidden slot in front of the arguments, and the arrays of names, which the model keeps as real arrays.
- **Hex headers** (`HexHeader`). The printer of byte arrays as C initialisers, and a reader for them.

Where a class changes state in place, its methods are proved against functions on values, and the properties
are lemmas about those functions.

Points where the code differs from what its text suggests, and where the model follows the code:

- `compile.h:544-547` takes any character behind a closing brace, and `compile.h:512-519` any character behind the
  specs of a field. `CompiledMeansParsed` gives the exact condition, `LoneBraceSwallows` and `TypeSwallows` inputs.
- `format.h:2791` takes any character but a closing brace as the type, an opening brace too, and `compile.h:99-112`
  counts that brace. Behind such a field the counting pass skips text, and emitting into the array of the counted
  size (`compile.h:296-313`) runs past its end. `BraceTypeInside` is the exact condition, `DifferentStopsDisagree`
  an input.
- With a handler whose `on_error` returns, as that of the counting pass does, the long form of the parser goes on
  behind a lone closing brace (`format.h:2876-2891`) and the short form does not. `FormsAgreeExactly` gives the
  exact condition, `LongFormGoesOn` inputs.
- `stop` lifts the pause flag; `PauseSafeAfterStop`, `PauseSafeAfterStoppingTick` and `PauseSafeAfterSetJob` give
  the exact conditions under which unpaused still means that mining is wanted, `FirstStopUnpauses` and
  `UnreadyJobUnpauses` inputs.
- `setEnabled` looks at pause-on-battery at the moment of the command (`Miner.cpp:523-527`), so one command with the
  option off can end in mining on battery power. `MinesOnBatteryExactly` is the exact condition, `OptionIsNeeded` an
  input.
- The lowest count of a signed duration has no absolute value in its own type, so `%S` reports an error for it; all
  other fields are written.
- The comment at the head of `base32.h` speaks of functions and of truncation in general; the file has the encoder
  only, and an output buffer that is too small is no error.

`dafny verify dfyconfig.toml` checks the project.

## Model

| member | source | states |
|---|---|---|
| ResultPipeline.EveryRunKeepsInv | opt/calajaminer/xmrig/src/net/JobResults.cpp:214-291 | in every state that any interleaving of producers, loop thread and workers reaches: delivered, then being delivered, then queued results are the pushed ones in lock order; likewise bundles; each baton has delivered and holds exactly what re-hashing its finished bundles yields; and a non-empty queue has a wake-up pending, a send to come or a swap to come |
| ResultPipeline.QuietMeansDelivered | opt/calajaminer/xmrig/src/net/JobResults.cpp:214-278 | a reachable state in which only a new submission could happen has delivered every pushed result in order and re-hashed and delivered every pushed bundle: no coalesced wake-up strands anything |
| ResultPipeline.RunsDrain | opt/calajaminer/xmrig/src/net/JobResults.cpp:235-278 | without new submissions every schedule is finite: the number of further steps is bounded by a measure of the state |
| ResultPipeline.NonceConservation | opt/calajaminer/xmrig/src/net/JobResults.cpp:224-278 | in every reachable state the submitted nonces are as many as the delivered results of batons, the results waiting in batons, the error counters of all batons, and the nonces queued, swapped out or not yet re-hashed together: modulo 2^32, the width of the counters, and exactly below 2^32 submitted nonces |
| ResultPipeline.StepKeepsResults | opt/calajaminer/xmrig/src/net/JobResults.cpp:214-252 | each atomic step keeps the order of results: no step loses, duplicates or reorders one |
| ResultPipeline.StepKeepsBundles | opt/calajaminer/xmrig/src/net/JobResults.cpp:224-266 | each atomic step keeps the order of bundles across queue, swap and batons |
| ResultPipeline.StepKeepsWakeUp | opt/calajaminer/xmrig/src/net/JobResults.cpp:214-248 | each atomic step keeps the wake-up property although sends are coalesced into one flag that is cleared before the callback takes the mutex |
| ResultPipeline.StepKeepsBaton | opt/calajaminer/xmrig/src/net/JobResults.cpp:258-277 | each atomic step keeps every baton consistent with its finished bundles and with what was delivered from it |
| ResultPipeline.StepTakesWeight | opt/calajaminer/xmrig/src/net/JobResults.cpp:235-278 | every step but a new submission makes the measure of the state smaller |
| JobResultsQueue.JobResultsHandler.constructor | opt/calajaminer/xmrig/src/net/JobResults.cpp:203-208 | an empty handler is in the initial state of the protocol |
| JobResultsQueue.JobResultsHandler.SubmitResult | opt/calajaminer/xmrig/src/net/JobResults.cpp:214-220 | pushing a result appends it, raises the wake-up, changes nothing else, and is a run of protocol steps |
| JobResultsQueue.JobResultsHandler.SubmitBundle | opt/calajaminer/xmrig/src/net/JobResults.cpp:224-230 | pushing a bundle appends it, raises the wake-up, changes nothing else, and is a run of protocol steps |
| JobResultsQueue.JobResultsHandler.SwapQueues | opt/calajaminer/xmrig/src/net/JobResults.cpp:235-248 | one wake-up empties both queues under the mutex and leaves their contents to the loop thread |
| JobResultsQueue.JobResultsHandler.OnAsync | opt/calajaminer/xmrig/src/net/JobResults.cpp:240-266 | the callback delivers all queued results in order and turns the queued bundles, if any, into one baton |
| JobResultsQueue.JobResultsHandler.HashNext | opt/calajaminer/xmrig/src/net/JobResults.cpp:261-267 | the worker runs the re-hash loop over the next bundle with the results and errors of its baton, and ends with the results and errors that the protocol step prescribes |
| JobResultsQueue.JobResultsHandler.OnWorkDone | opt/calajaminer/xmrig/src/net/JobResults.cpp:268-276 | the after-work callback delivers the results of its baton in order and retires it |
| Rehash.JobBundle.SetNonce | opt/calajaminer/xmrig/src/net/JobResults.cpp:133-134 | writing a nonce into the blob in place changes those four bytes and nothing else |
| Rehash.JobBaton.CheckHash | opt/calajaminer/xmrig/src/net/JobResults.cpp:103-112 | a hash below the target appends one result for the nonce, any other hash counts one error |
| Rehash.JobBaton.CheckKawPow | opt/calajaminer/xmrig/src/net/JobResults.cpp:149-177 | comparing the byte-reversed output at offset 24 is comparing the big-endian value of the first eight output bytes with the target; the result carries the 64-bit nonce of the blob |
| Rehash.JobBaton.CheckNonce | opt/calajaminer/xmrig/src/net/JobResults.cpp:133-139 | one nonce is written, hashed by its family and filed as one result or one error |
| Rehash.JobBaton.GetResults | opt/calajaminer/xmrig/src/net/JobResults.cpp:115-194 | a bundle yields, in order, the results of exactly the nonces that its re-hash confirms, and one error for every nonce that it does not; without a dataset, and for Argon2, all are errors |
| Rehash.JobBaton.Work | opt/calajaminer/xmrig/src/net/JobResults.cpp:261-267 | the bundles of a baton one after the other, each with the dataset it meets |
| Rehash.BundleConservation | opt/calajaminer/xmrig/src/net/JobResults.cpp:115-194 | the confirmed and the counted unconfirmed nonces of a bundle are together all of its nonces |
| Rehash.ConfirmedExactly | opt/calajaminer/xmrig/src/net/JobResults.cpp:133-139 | a nonce is reported as often as it was submitted if its re-hash is below the target, and never otherwise |
| Rehash.AcceptedCarriesNonce | opt/calajaminer/xmrig/src/net/JobResults.cpp:149-171 | the i-th result carries the i-th confirmed nonce in its low 32 bits, also where KawPow reads 64 bits back from the blob, and the index of its job |
| Rehash.WorkConservation | opt/calajaminer/xmrig/src/net/JobResults.cpp:258-267 | over any list of bundles the results and the unconfirmed nonces account for every nonce |
| Confirmation.HoldingIsUnique | opt/calajaminer/xmrig/src/net/JobResults.cpp:133-136 | exactly one blob has the nonce as its little-endian value at the nonce offset and the bytes of the job everywhere else, and it is the one that is hashed |
| Confirmation.InputHoldsNonce | opt/calajaminer/xmrig/src/net/JobResults.cpp:134-136 | the hashed input has the size of the job, the nonce at its place and the bytes of the job everywhere else |
| Confirmation.OtherNonceOtherInput | opt/calajaminer/xmrig/src/net/JobResults.cpp:134-136 | different nonces give different inputs |
| Confirmation.ConfirmedByBlob | opt/calajaminer/xmrig/src/net/JobResults.cpp:115-194 | a nonce is confirmed if and only if the hash of the blob that holds it is below the target: the little-endian value of the last eight bytes for RandomX with a dataset and for CryptoNight, the big-endian value of the first eight bytes for KawPow, and never for Argon2 |
| Confirmation.ResultByBlob | opt/calajaminer/xmrig/src/net/JobResults.cpp:103-177 | the result of a confirmed nonce carries the fields of its job, that hash, and for KawPow the 64-bit nonce, the header and the mix hash |
| Confirmation.FullNonceHalves | opt/calajaminer/xmrig/src/net/JobResults.cpp:151-152 | the 64-bit nonce is the reported one below the high half that is in the blob |
| Confirmation.AcceptedProvesWork | opt/calajaminer/xmrig/src/net/JobResults.cpp:103-177 | the own hash of every reported result is below the target of its job |
| Confirmation.EndCarriesJob | opt/calajaminer/xmrig/src/net/JobResult.h:79-88 | the result that reports the end of a job has its routing fields and difficulty 0 |
| Jobs.NonceOffset | opt/calajaminer/xmrig/src/base/net/stratum/Job.cpp:155-173 | for every algorithm the nonce and the four bytes behind it lie inside the blob |
| Confirmation.OffsetOfNonce | opt/calajaminer/xmrig/src/base/net/stratum/Job.cpp:155-173 | the nonce is at 32 for KawPow, 76 for GhostRider, 147 for rx/yada and 39 for everything else |
| NetworkState.ResultsReturnToTheirOrigin | opt/calajaminer/xmrig/src/net/Network.cpp:166-184 | in every run, a delivered result was made for some job that the backends had been handed, and for every such job it is routed to the strategy that the job came from, whatever job the miner has by then |
| NetworkState.EveryRunKeepsNetInv | opt/calajaminer/xmrig/src/net/Network.cpp:166-184 | in every run each job handed to the backends has the index of its strategy and everything in the pipeline was made for a handed job |
| NetworkState.EveryRunKeepsBackends | opt/calajaminer/xmrig/src/core/Miner.cpp:118-142 | in every run the job that the backends work on is the one that was handed over last |
| NetworkState.AcceptedMadeFor | opt/calajaminer/xmrig/src/net/JobResult.h:48-56 | a re-hashed result carries the routing fields and the difficulty of the job of its bundle |
| NetworkState.DeliveredWasMade | opt/calajaminer/xmrig/src/net/JobResults.cpp:250-273 | both ways of delivery, direct and through a baton, only deliver results made for handed jobs |
| NetworkState.MinerRuns | opt/calajaminer/xmrig/src/net/Network.cpp:265-299 | the miner inside a run of the network layer does exactly the run of the events that get past the network layer |
| NetworkState.DonationShieldsTheMiner | opt/calajaminer/xmrig/src/net/Network.cpp:166-173 | while the donate strategy is active only donation jobs reach the miner |
| NetworkState.DonationKeepsUserRange | opt/calajaminer/xmrig/src/net/Network.cpp:166-173 | over a whole donation, with user jobs still arriving and being ignored, no reset hits the user nonce counter, until a job arrives after the user job has come back |
| Network.Network.OnJob | opt/calajaminer/xmrig/src/net/Network.cpp:166-173 | an arriving job moves the miner by one event or, if it is a user job during donation, not at all |
| Network.Network.OnJobResult | opt/calajaminer/xmrig/src/net/Network.cpp:176-184 | a result goes to exactly one strategy, chosen by its index and the presence of a donate strategy |
| MinerState.DonationContinuesUserRange | opt/calajaminer/xmrig/src/core/Miner.cpp:118-142 | from a user job through any number of donation jobs, callbacks, commands and reservations back to a job with that id, all resets hit the donation counter and the user counter grows only by what was reserved |
| MinerState.ReturnResetsExactly | opt/calajaminer/xmrig/src/core/Miner.cpp:576-600 | returning from donation raises the reset flag if and only if the job has a new id and a new blob |
| MinerEffects.ReadyJobResetsExactly | opt/calajaminer/xmrig/src/core/Miner.cpp:576-617 | a ready job resets the counter of its own index, and no other, if and only if its blob differs from that of the last job in its size or in a byte and it is not the user job coming back from donation with the remembered id; otherwise both counters and the history stay |
| MinerEffects.UnreadyJobIsMarked | opt/calajaminer/xmrig/src/core/Miner.cpp:576-605 | a job that is not ready resets nothing; it is marked for a reset if and only if it stays at the index of the last job, or its blob differs and it does not come back |
| MinerEffects.WaitingJobResets | opt/calajaminer/xmrig/src/core/Miner.cpp:749-756 | whatever happens until its dataset is ready, the callback then resets the counter of that job if and only if it was marked on arrival |
| MinerEffects.ReservationMoves | opt/calajaminer/xmrig/src/crypto/common/Nonce.cpp:36-66 | a reservation moves the counter of its own index modulo 2^64, and pauses mining if it meets the end of the range |
| MinerState.StepCounters | opt/calajaminer/xmrig/src/core/Miner.cpp:118-142 | an event resets at most the counter named by the flag or the new job and otherwise moves the user counter only by reservations |
| MinerState.DonatingKeepsRange | opt/calajaminer/xmrig/src/core/Miner.cpp:553-619 | while only donation jobs arrive the user counter is never reset and the remembered user job id stays |
| MinerState.NoJobKeepsRange | opt/calajaminer/xmrig/src/core/Miner.cpp:749-756 | late dataset-ready callbacks do not reset the user counter once the flag is down |
| MinerState.AutoPauseCountsReasons | opt/calajaminer/xmrig/src/core/Miner.cpp:682-699 | in every reachable state the pause count is the number of raised reasons |
| MinerState.TickDecides | opt/calajaminer/xmrig/src/core/Miner.cpp:682-703 | in every run a tick takes over the polled reasons, and one at which a reason changes leaves mining enabled if and only if no reason is raised; any other leaves it as it was |
| MinerEffects.CommandDecides | opt/calajaminer/xmrig/src/core/Miner.cpp:517-550 | a command takes effect unless it asks for what is or would resume on battery power with the option on; then the pause flag of an active miner is the opposite of the new state and that of an inactive one stays |
| MinerEffects.PauseStopsMining | opt/calajaminer/xmrig/src/core/Miner.cpp:507-514 | the pause of the network layer leaves mining inactive and paused, all workers outdated and the counters as they were |
| MinerEffects.TickPauses | opt/calajaminer/xmrig/src/core/Miner.cpp:682-703 | in every run a tick that switches mining off pauses an active miner and one that switches it on lets it go on; with a stop it is unpaused and the backends have no job |
| MinerEffects.SwitchedOnGoesOn | opt/calajaminer/xmrig/src/core/Miner.cpp:517-550 | in every run, whatever switches an active miner on leaves it unpaused |
| MinerEffects.SwitchedOffPauses | opt/calajaminer/xmrig/src/core/Miner.cpp:517-550 | in every run, whatever switches an active miner off leaves it paused, unless it stops as well |
| MinerEffects.TickCounts | opt/calajaminer/xmrig/src/core/Miner.cpp:680-680 | every tick is counted |
| MinerEffects.JobChangeHandsOver | opt/calajaminer/xmrig/src/core/Miner.cpp:118-142 | a ready dataset hands the job of the miner to the backends, pauses a miner that is off and lets an active one that is on go on |
| MinerEffects.JobHandsOver | opt/calajaminer/xmrig/src/core/Miner.cpp:553-619 | a ready job is handed to the backends with its index; one that is not leaves them what they had, or nothing after a stop |
| MinerEffects.JobStopsExactly | opt/calajaminer/xmrig/src/core/Miner.cpp:559-572 | a job stops mining if and only if it has another RandomX algorithm than the last one, and the pause flag behind it is exactly as stated |
| MinerEffects.SameAlgorithmGoesOn | opt/calajaminer/xmrig/src/core/Miner.cpp:559-572 | a job with the algorithm of the job before it does not stop mining |
| MinerEffects.HandedOverGoesOn | opt/calajaminer/xmrig/src/core/Miner.cpp:118-142 | in every run, behind a handed-over job a miner that is active and on stays unpaused, until a job that is not ready or a worker at the end of its range |
| MinerState.MinesOnBatteryExactly | opt/calajaminer/xmrig/src/core/Miner.cpp:517-550 | in every run, battery power implies not enabled at the start and behind each event if and only if no command of the run turns mining on, on battery power, while pause-on-battery is off |
| MinerState.NeverMinesOnBattery | opt/calajaminer/xmrig/src/core/Miner.cpp:517-550 | with pause-on-battery on at every command that turns mining on, battery power implies not enabled, whatever else happens and whatever the option is at ticks |
| MinerState.ResumeOnBattery | opt/calajaminer/xmrig/src/core/Miner.cpp:523-527 | a resume command on battery power takes effect if and only if pause-on-battery is off at that moment |
| MinerState.OptionIsNeeded | opt/calajaminer/xmrig/src/core/Miner.cpp:517-550 | a run of one tick with the option on and one resume command with it off that ends mining on battery power |
| MinerState.ReadyJobEstablishesPauseSafe | opt/calajaminer/xmrig/src/core/Miner.cpp:553-619 | a job that reaches handleJobChange makes unpaused imply active and enabled whatever came before, and the pause flag exactly the opposite of enabled |
| MinerState.PauseSafeKept | opt/calajaminer/xmrig/src/core/Miner.cpp:507-550 | every run without a call of stop keeps unpaused implying active and enabled |
| MinerState.PauseSafeAfterSetJob | opt/calajaminer/xmrig/src/core/Miner.cpp:553-619 | a job leaves that property in place if and only if it was ready at once, mining is enabled, or mining was not stopped and was or became paused |
| MinerState.UnreadyJobUnpauses | opt/calajaminer/xmrig/src/core/Miner.cpp:553-619 | a run of two events from the start that breaks the property: mining is turned off, and the first RandomX job arrives before its dataset is ready |
| MinerState.PauseSafeAfterStop | opt/calajaminer/xmrig/src/core/Miner.cpp:622-629 | stop lifts the pause flag: the property survives if and only if mining is active and enabled |
| MinerState.PauseSafeAfterStoppingTick | opt/calajaminer/xmrig/src/core/Miner.cpp:648-704 | in every run the property survives a tick at which a backend asks for a stop if and only if mining is active and, if a reason changes at that tick, none is raised, and otherwise mining was enabled |
| MinerState.FirstStopUnpauses | opt/calajaminer/xmrig/src/core/Miner.cpp:622-629 | a stop right after the start is a run that ends unpaused although nothing is to be mined |
| MinerState.JobChangeOutdates | opt/calajaminer/xmrig/src/crypto/common/Nonce.h:40-46 | over every run without a stop a job change leaves every sequence number taken before it outdated, for each backend, unless 2^63 events lie in between |
| Miner.Nonce.Reset | opt/calajaminer/xmrig/src/crypto/common/Nonce.h:43-46 | resetting one counter leaves the other counter, the pause flag and the sequences alone |
| Miner.Nonce.Stop | opt/calajaminer/xmrig/src/crypto/common/Nonce.cpp:68-75 | stopping lifts the pause flag, sets all sequences to zero and keeps the counters |
| Miner.Miner.JobChanged | opt/calajaminer/xmrig/src/core/Miner.cpp:118-142 | the method performs the transition that the invariants are proved about |
| Miner.Miner.PauseMining | opt/calajaminer/xmrig/src/core/Miner.cpp:507-514 | the method performs the pause transition |
| Miner.Miner.Enable | opt/calajaminer/xmrig/src/core/Miner.cpp:517-550 | the method performs the transition of a user command with its two early exits |
| Miner.Miner.ApplyAlgorithm | opt/calajaminer/xmrig/src/core/Miner.cpp:559-572 | a new RandomX algorithm stops mining, a dataset that is not ready pauses it |
| Miner.Miner.KeepJob | opt/calajaminer/xmrig/src/core/Miner.cpp:576-613 | the part under the mutex stores the job with its index and computes the reset flag in the order of the code |
| Miner.Miner.AssignJob | opt/calajaminer/xmrig/src/core/Miner.cpp:553-619 | the method performs the job transition, ready or not |
| Miner.Miner.OnDatasetReady | opt/calajaminer/xmrig/src/core/Miner.cpp:749-756 | the callback performs a job change only if the dataset is ready for the current job |
| Miner.Miner.AutoPauseBattery | opt/calajaminer/xmrig/src/core/Miner.cpp:682-695 | the battery edge as a transition |
| Miner.Miner.AutoPauseActive | opt/calajaminer/xmrig/src/core/Miner.cpp:682-699 | the user-activity edge as a transition |
| Miner.Miner.OnTimer | opt/calajaminer/xmrig/src/core/Miner.cpp:648-704 | a tick performs both edges in order and then a stop that a backend asked for |
| Base32.Encode | opt/calajaminer/xmrig/src/3rdparty/base32/base32.h:35-65 | for lengths 0 to 2^28 the count is min(max(bufSize, 0), ceil(8 length / 5)), the output is that prefix of the RFC 4648 encoding, a zero byte follows if there is room, and nothing else is written; other lengths give -1 and no write |
| Base32.EncodeBits | opt/calajaminer/xmrig/src/3rdparty/base32/base32.h:41-59 | the loop with its unmasked 32-bit accumulator terminates and emits exactly the symbols of the unbounded bit string |
| Base32.Refill | opt/calajaminer/xmrig/src/3rdparty/base32/base32.h:45-55 | shifting a byte or padding into the wrapped accumulator keeps emitted groups plus pending bits equal to the bit string of the input, and the measure 8 (length - next) + bitsLeft goes down |
| Base32.NextGroup | opt/calajaminer/xmrig/src/3rdparty/base32/base32.h:44-57 | one turn of the loop takes out the next five bits of the input and makes the measure smaller |
| Base32.EmitPending | opt/calajaminer/xmrig/src/3rdparty/base32/base32.h:56-57 | the masked arithmetic shift takes out the next group of five pending bits |
| Base32.PullBits | opt/calajaminer/xmrig/src/3rdparty/base32/base32.h:47-49 | wrap-around of the accumulator does not disturb the bits still pending |
| Base32.Letter | opt/calajaminer/xmrig/src/3rdparty/base32/base32.h:58-58 | the table of the encoder is the alphabet by rank |
| Base32.TextBitsOfGroups | opt/calajaminer/xmrig/src/3rdparty/base32/base32.h:35-65 | reading the symbols gives the bit string of the input back, completed with zeros to a multiple of five |
| Base32.DecodeInvertsEncode | opt/calajaminer/xmrig/src/3rdparty/base32/base32.h:35-65 | decoding the encoding gives the input back |
| Base32.EncodingInjective | opt/calajaminer/xmrig/src/3rdparty/base32/base32.h:35-65 | different inputs, of any lengths, have different encodings |
| DurationCast.LosslessConversion | opt/calajaminer/xmrig/src/3rdparty/fmt/chrono.h:35-102 | for all widths and signs the error is raised if and only if the value does not fit, and otherwise the value is unchanged |
| DurationCast.Multiply | opt/calajaminer/xmrig/src/3rdparty/fmt/chrono.h:171-185 | the two quotient guards refuse exactly the products that leave the type, so the product never overflows |
| DurationCast.SafeDurationCast | opt/calajaminer/xmrig/src/3rdparty/fmt/chrono.h:151-197 | no error if and only if the count, its product with num and the truncated quotient by den fit their types; then the result is that quotient rounded toward zero |
| DurationCast.TruncationUnique | opt/calajaminer/xmrig/src/3rdparty/fmt/chrono.h:187-187 | rounding toward zero determines the quotient |
| DurationCast.FinerAndBack | opt/calajaminer/xmrig/src/3rdparty/fmt/chrono.h:151-197 | casting to a finer unit and back gives the count back |
| DurationCast.CastMonotone | opt/calajaminer/xmrig/src/3rdparty/fmt/chrono.h:151-197 | a cast never reverses the order of two durations |
| DurationCast.SameUnitCastable | opt/calajaminer/xmrig/src/3rdparty/fmt/chrono.h:151-197 | without a change of unit the cast succeeds exactly for the values of the target type |
| ChronoFormat.ParsedExactly | opt/calajaminer/xmrig/src/3rdparty/fmt/chrono.h:472-627 | the parser raises given events and stops at a given place if and only if their spellings tile the text up to there, text slices are maximal, and, when checking, none is a date |
| ChronoFormat.ParsedTiles | opt/calajaminer/xmrig/src/3rdparty/fmt/chrono.h:472-627 | the spellings of the raised events cover the consumed text without gap or overlap |
| ChronoFormat.TiledParses | opt/calajaminer/xmrig/src/3rdparty/fmt/chrono.h:472-627 | wherever legal events tile a text the parser raises exactly them |
| ChronoFormat.TilingUnique | opt/calajaminer/xmrig/src/3rdparty/fmt/chrono.h:472-627 | a text has at most one tiling |
| ChronoFormat.DirectiveReads | opt/calajaminer/xmrig/src/3rdparty/fmt/chrono.h:487-622 | spellings form a prefix-free code |
| ChronoFormat.SecondPassRepeats | opt/calajaminer/xmrig/src/3rdparty/fmt/chrono.h:1062-1110 | after an accepted checking pass the second pass over what was consumed reports no error, consumes all of it and raises the same events |
| ChronoFormat.ParseChronoFormat | opt/calajaminer/xmrig/src/3rdparty/fmt/chrono.h:473-627 | the pointer-moving loop computes the reference parse, including the events raised before an error |
| ChronoFormat.ReadDirective | opt/calajaminer/xmrig/src/3rdparty/fmt/chrono.h:484-622 | the two switch statements read the directive at the percent sign |
| ChronoFields.SecondsAndMillis | opt/calajaminer/xmrig/src/3rdparty/fmt/chrono.h:723-744 | seconds times 1000 plus milliseconds is the whole number of milliseconds modulo 60000 |
| ChronoFields.SignedWholeMillis | opt/calajaminer/xmrig/src/3rdparty/fmt/chrono.h:723-744 | for every sign, whole seconds and milliseconds behind them are the whole milliseconds, rounded toward zero |
| ChronoFields.CounterRange | opt/calajaminer/xmrig/src/3rdparty/fmt/chrono.h:789-799 | the unsigned type of the counter has the values of the representation and at least those of 32 bits |
| ChronoFields.HourMinuteSecond | opt/calajaminer/xmrig/src/3rdparty/fmt/chrono.h:848-856 | hour, minute and second are the whole number of seconds modulo a day |
| ChronoFields.Hour12Agrees | opt/calajaminer/xmrig/src/3rdparty/fmt/chrono.h:850-853 | the hour of the twelve-hour clock is 1 to 12 and congruent to the hour |
| ChronoFields.GcdDivides | opt/calajaminer/xmrig/src/3rdparty/fmt/chrono.h:151-197 | the reduction of a ratio divides both of its terms |
| ChronoFields.CancelFactor | opt/calajaminer/xmrig/src/3rdparty/fmt/chrono.h:151-197 | cancelling a common factor does not change a quotient |
| ChronoFormatter.GetMilliseconds | opt/calajaminer/xmrig/src/3rdparty/fmt/chrono.h:723-744 | for every count, negative ones included, the milliseconds are those of the duration behind its whole seconds, rounded toward zero, and an error is raised if and only if one of four listed values leaves its type |
| ChronoFormatter.DropSeconds | opt/calajaminer/xmrig/src/3rdparty/fmt/chrono.h:735-738 | subtracting the whole seconds in the common type does not overflow and leaves the remainder with the sign of the ticks |
| ChronoFormatter.AbsoluteValue | opt/calajaminer/xmrig/src/3rdparty/fmt/chrono.h:807-817 | negation in the unsigned type gives the absolute value for every count, the lowest included |
| ChronoFormatter.ChronoFormatter.constructor | opt/calajaminer/xmrig/src/3rdparty/fmt/chrono.h:807-829 | construction succeeds if and only if the seconds fit; then it holds the absolute count, its whole seconds and the sign to be written |
| ChronoFormatter.ChronoFormatter.HourField | opt/calajaminer/xmrig/src/3rdparty/fmt/chrono.h:848-848 | the cast to the representation does not change the hour |
| ChronoFormatter.ChronoFormatter.Hour12Field | opt/calajaminer/xmrig/src/3rdparty/fmt/chrono.h:850-853 | the cast does not change the hour of the twelve-hour clock |
| ChronoFormatter.ChronoFormatter.MinuteField | opt/calajaminer/xmrig/src/3rdparty/fmt/chrono.h:855-855 | the cast does not change the minute |
| ChronoFormatter.ChronoFormatter.SecondField | opt/calajaminer/xmrig/src/3rdparty/fmt/chrono.h:856-856 | the cast does not change the second |
| ChronoFormatter.ChronoFormatter.Write | opt/calajaminer/xmrig/src/3rdparty/fmt/chrono.h:866-881 | a number appends one unsigned token, with the pending sign in front of it if no field was written before |
| ChronoFormatter.ChronoFormatter.OnSecond | opt/calajaminer/xmrig/src/3rdparty/fmt/chrono.h:944-967 | %S fails if and only if the absolute count does not fit back or the milliseconds do not; otherwise it appends seconds and non-zero milliseconds |
| ChronoFormatter.ChronoFormatter.OnIsoTime | opt/calajaminer/xmrig/src/3rdparty/fmt/chrono.h:974-991 | %T appends hour, minute and second with their colons |
| ChronoFormatter.ChronoFormatter.OnField | opt/calajaminer/xmrig/src/3rdparty/fmt/chrono.h:917-1005 | each directive appends its tokens; localized ones do not write the sign |
| ChronoFormatter.ChronoFormatter.Format | opt/calajaminer/xmrig/src/3rdparty/fmt/chrono.h:898-1005 | for any events the output is their tokens with the sign, if any, in front of the first signed one; it fails exactly on a failing %S |
| ChronoFormatter.AtMostOneSign | opt/calajaminer/xmrig/src/3rdparty/fmt/chrono.h:866-871 | over any directive sequence there is at most one sign, exactly for a negative count with a field that goes through write_sign |
| ChronoFormatter.SecondShowsMilliseconds | opt/calajaminer/xmrig/src/3rdparty/fmt/chrono.h:944-967 | what %S shows is the absolute duration in milliseconds, rounded down, modulo 60000 |
| ChronoFormatter.IsoTimeShowsSeconds | opt/calajaminer/xmrig/src/3rdparty/fmt/chrono.h:974-991 | what %T shows is the absolute duration in seconds, rounded down, modulo 86400 |
| ChronoShown.TimeOfDay | opt/calajaminer/xmrig/src/3rdparty/fmt/chrono.h:917-967 | the tokens of %H, %M and %S show h, m and s below 24, 60 and 60 with h * 3600 + m * 60 + s the seconds of the duration modulo a day |
| ChronoShown.TimesAreComposed | opt/calajaminer/xmrig/src/3rdparty/fmt/chrono.h:974-991 | %R is %H and %M, and %T is %H, %M and the seconds of %S, with colons |
| ChronoShown.TwelveHours | opt/calajaminer/xmrig/src/3rdparty/fmt/chrono.h:926-933 | %I shows 1 to 12, congruent to what %H shows |
| ChronoShown.ValueAndUnit | opt/calajaminer/xmrig/src/3rdparty/fmt/chrono.h:998-1005 | %Q shows the count without its sign, %q the unit |
| ChronoShown.LocalizedFields | opt/calajaminer/xmrig/src/3rdparty/fmt/chrono.h:917-996 | the localized forms are given the fields that the plain ones show |
| ChronoShown.TextIsWritten | opt/calajaminer/xmrig/src/3rdparty/fmt/chrono.h:487-500 | text is written as it stands and escapes as newline, tab and percent sign |
| ChronoShown.WrittenInOrder | opt/calajaminer/xmrig/src/3rdparty/fmt/chrono.h:898-1005 | what is written of two lists of directives is what is written of each of them, in order |
| ChronoShown.DirectivesOfDurations | opt/calajaminer/xmrig/src/3rdparty/fmt/chrono.h:629-655 | the directives that the checking pass accepts are exactly the listed ones |
| ChronoShown.SignInFront | opt/calajaminer/xmrig/src/3rdparty/fmt/chrono.h:866-871 | the sign stands directly in front of the first field that writes one, and without it the output is that of the directives |
| ChronoShown.PlainForm | opt/calajaminer/xmrig/src/3rdparty/fmt/chrono.h:1100-1103 | without directives the signed value is written and then the unit |
| ChronoFormatter.OnlyLowestHasNoAbsolute | opt/calajaminer/xmrig/src/3rdparty/fmt/chrono.h:949-954 | the conversion back for %S fails for the lowest count of a signed type and for no other |
| ChronoFormatter.SecondReadsBack | opt/calajaminer/xmrig/src/3rdparty/fmt/chrono.h:873-881 | the digits of %S have widths two and three and read back as the fields |
| DurationFormatter.DurationFormatter.Parse | opt/calajaminer/xmrig/src/3rdparty/fmt/chrono.h:1013-1088 | alignment and width are read, a width that refers to an argument is resolved in the context, and the text behind them is recorded up to the closing brace; parsing fails exactly on a bad alignment or width, on a reference that mixes automatic and manual numbering, on a precision, or on a text that the checker refuses |
| DurationFormatter.DurationFormatter.OnDynamicWidth | opt/calajaminer/xmrig/src/3rdparty/fmt/chrono.h:1013-1041 | the three forms of a reference resolve to the next number, the given number or the name, and move the context on |
| DurationFormatter.ClashExactly | opt/calajaminer/xmrig/src/3rdparty/fmt/chrono.h:1013-1024 | a reference is refused if and only if it is automatic behind a manual one, or a number behind an automatic one |
| ChronoShown.ResolvedWidth | opt/calajaminer/xmrig/src/3rdparty/fmt/chrono.h:1013-1024 | a reference resolves to the next number, to the given one or to the name, and moves the numbering on accordingly |
| ChronoShown.WidthReadsBack | opt/calajaminer/xmrig/src/3rdparty/fmt/chrono.h:1062-1068 | every legal alignment and width is read to its end in front of the directives, with the reference that is spelled |
| DurationFormatter.DurationFormatter.Format | opt/calajaminer/xmrig/src/3rdparty/fmt/chrono.h:1092-1113 | the second pass over the recorded text cannot fail, and the output is that of the duration for the checked directives, or its value and unit; formatting fails if and only if the width refers to an argument that gives none, the seconds do not fit, or a field throws |
| DurationFormatter.FormatDuration | opt/calajaminer/xmrig/src/3rdparty/fmt/chrono.h:1083-1113 | from the text behind the colon and a duration to the output, in any context: it fails if and only if the text is refused, the width refers to an argument that gives none, the seconds do not fit, or a field throws |
| DurationFormatter.ShownExactly | opt/calajaminer/xmrig/src/3rdparty/fmt/chrono.h:1062-1113 | given directives are the ones that are written if and only if the width resolves, none is a date, and they tile the text behind the width up to the closing brace |
| DurationFormatter.ShownSign | opt/calajaminer/xmrig/src/3rdparty/fmt/chrono.h:807-871 | the whole output has one sign if the count is negative and there is a field to put it at, and no sign otherwise |
| Decimals.PaddedReadsBack | opt/calajaminer/xmrig/src/3rdparty/fmt/chrono.h:873-881 | zero-padded digits read back as the number |
| Decimals.PaddedLength | opt/calajaminer/xmrig/src/3rdparty/fmt/chrono.h:873-881 | numbers below 100 and 1000 take exactly the widths two and three |
| ParseContext.Context.NextArgId | opt/calajaminer/xmrig/src/3rdparty/fmt/core.h:585-591 | an automatic use is refused exactly in manual mode and otherwise gets the next number |
| ParseContext.Context.CheckArgId | opt/calajaminer/xmrig/src/3rdparty/fmt/core.h:597-602 | a manual use is refused exactly after an automatic one and otherwise switches to manual mode |
| ParseContext.NumberingIsUniform | opt/calajaminer/xmrig/src/3rdparty/fmt/core.h:585-604 | a run has no error if and only if its uses are all automatic, and then numbered 0, 1, 2, ..., or all manual, and then as given |
| ParseContext.NumberedOn | opt/calajaminer/xmrig/src/3rdparty/fmt/core.h:585-604 | behind an automatic use a run has no error if and only if all further uses are automatic, and they are numbered on from there |
| ParseContext.RunNumbers | opt/calajaminer/xmrig/src/3rdparty/fmt/core.h:585-604 | from any mode, automatic uses are numbered on from it and manual ones are taken as given |
| FormatParser.ParseShort | opt/calajaminer/xmrig/src/3rdparty/fmt/format.h:2858-2874 | the loop for short strings raises the events of the reference parser, with any handler |
| FormatParser.ParseLong | opt/calajaminer/xmrig/src/3rdparty/fmt/format.h:2876-2900 | the memchr form for long strings raises the events of the reference parser; behind a lone closing brace it goes on at the next opening brace if errors return |
| FormatParser.ParseFormatString | opt/calajaminer/xmrig/src/3rdparty/fmt/format.h:2854-2901 | the length of a string selects the form, and that form raises the events of the reference parser |
| FormatParser.FormsAgreeExactly | opt/calajaminer/xmrig/src/3rdparty/fmt/format.h:2854-2901 | for every string and handler both forms come to the same, events and success, if and only if no lone closing brace that the handler passes over is followed, at the next opening brace, by a brace or an argument id |
| FormatParser.FormsAgree | opt/calajaminer/xmrig/src/3rdparty/fmt/format.h:2854-2901 | both forms accept the same strings and raise the same events of them; with a handler that throws they always agree, and with one that returns from errors the events of the short form are the first ones of the long form |
| FormatParser.LongFormGoesOn | opt/calajaminer/xmrig/src/3rdparty/fmt/format.h:2876-2891 | with a handler that returns from errors the forms differ: a field behind a lone closing brace is an event of the long form only |
| FormatParser.WriteText | opt/calajaminer/xmrig/src/3rdparty/fmt/format.h:2876-2891 | text without opening braces is raised with its closing braces halved, or refused at a lone one |
| FormatParser.ParseNonnegativeInt | opt/calajaminer/xmrig/src/3rdparty/fmt/format.h:2234-2253 | the overflow guard is exact: a number is refused if and only if it is above INT_MAX, no step leaves 32 bits, and all digits are read if and only if all but the last are at most INT_MAX / 10 |
| FormatParser.ParseArgId | opt/calajaminer/xmrig/src/3rdparty/fmt/format.h:2586-2616 | an argument id is read as nothing, a number or a name, also where errors return |
| FormatParser.ParseReplacementField | opt/calajaminer/xmrig/src/3rdparty/fmt/format.h:2827-2851 | a field raises its id and then one field event, or an escaped brace |
| FormatParser.ScanPaired | opt/calajaminer/xmrig/src/3rdparty/fmt/format.h:2827-2901 | for every string and handler, each id is followed at once by exactly one field event, and only an error may cut a field short |
| FormatParser.EscapedSpellsText | opt/calajaminer/xmrig/src/3rdparty/fmt/format.h:2854-2901 | formatting a text with its braces doubled gives the text back |
| FormatSpelling.SpelledMeans | opt/calajaminer/xmrig/src/3rdparty/fmt/format.h:2827-2901 | every list of characters and fields, spelled with doubled braces, parses to itself, in both forms and with every handler that leaves the specs of its fields at their closing brace |
| FormatSpelling.ParsedIsSpelled | opt/calajaminer/xmrig/src/3rdparty/fmt/format.h:2827-2901 | where errors throw, every string that parses is spelled by what it means, so nothing else is accepted |
| FormatSpelling.SpecsAreLegal | opt/calajaminer/xmrig/src/3rdparty/fmt/format.h:2827-2851 | fields with legal specs are among them for the handler that reads specs |
| FormatSpecs.ParseFormatSpecs | opt/calajaminer/xmrig/src/3rdparty/fmt/format.h:2747-2793 | fill and alignment, sign, #, 0, width, precision and type are read to one end, with the arguments that width and precision use, in order |
| FormatSpecs.ParseAlign | opt/calajaminer/xmrig/src/3rdparty/fmt/format.h:2662-2704 | a fill is one code point in front of an alignment, at most four bytes and no opening brace |
| FormatSpecs.ParseWidth | opt/calajaminer/xmrig/src/3rdparty/fmt/format.h:2705-2720 | a width is a number up to INT_MAX or an argument in braces |
| FormatSpecs.StopsDiffer | opt/calajaminer/xmrig/src/3rdparty/fmt/format.h:2747-2793 | at a closed field, counting braces stops where reading the specs stops if and only if the type character is not an opening brace, and never before |
| FormatSpecs.SpecsWalk | opt/calajaminer/xmrig/src/3rdparty/fmt/format.h:2747-2793 | whatever the specs are, they leave one brace open if their type is an opening brace, and none otherwise |
| SpecSpelling.SpecsReadBack | opt/calajaminer/xmrig/src/3rdparty/fmt/format.h:2747-2793 | all legal specs, spelled in front of a closing brace, are read to their end whatever follows, with the arguments of their width and then of their precision |
| SpecSpelling.BadFillIsRefused | opt/calajaminer/xmrig/src/3rdparty/fmt/format.h:2689-2694 | a fill that is an opening brace or longer than four bytes is refused |
| SpecSpelling.BadPrecisionIsRefused | opt/calajaminer/xmrig/src/3rdparty/fmt/format.h:2738-2740 | a point without a number or a reference is refused |
| SpecSpelling.BadWidthIsRefused | opt/calajaminer/xmrig/src/3rdparty/fmt/format.h:2234-2253 | a width above INT_MAX is refused |
| SpecSpelling.IdReadsBack | opt/calajaminer/xmrig/src/3rdparty/fmt/format.h:2586-2616 | every argument id, spelled in front of a colon or a closing brace, reads back as itself |
| FormatParts.CountEqualsEmitted | opt/calajaminer/xmrig/src/3rdparty/fmt/compile.h:84-123 | on every complete event stream the counted parts are as many as the emitted ones |
| FormatParts.EmittedIsCounted | opt/calajaminer/xmrig/src/3rdparty/fmt/compile.h:142-182 | at every point of a stream emitted parts plus an open field are the counted ones, and an error never emits more |
| PartReferences.CompiledExactly | opt/calajaminer/xmrig/src/3rdparty/fmt/compile.h:147-182 | a stream compiles without error if and only if its specs are closed and its numbered arguments, dynamic widths and precisions included, are all automatic or all manual |
| PartReferences.EmitsExactly | opt/calajaminer/xmrig/src/3rdparty/fmt/compile.h:188-194 | a string compiles without error if and only if it parses and its numbered arguments are all automatic or all manual |
| PartReferences.PartsRefer | opt/calajaminer/xmrig/src/3rdparty/fmt/compile.h:142-182 | every part of a compiled stream at its place: text parts are the non-empty texts in order; a field refers to the number of uses in front of it, to its own number or to its name; its specs refer to the numbers from there on, or to those given |
| PartReferences.StringPartsRefer | opt/calajaminer/xmrig/src/3rdparty/fmt/compile.h:296-315 | the same for the parts of every string that compiles |
| FormatPasses.StringCountEqualsEmitted | opt/calajaminer/xmrig/src/3rdparty/fmt/compile.h:296-335 | for every string that compiles without error the count is at most the number of parts, and it is that number if and only if no field with an opening brace as its type has anything behind it |
| FormatPasses.AddedIsCounted | opt/calajaminer/xmrig/src/3rdparty/fmt/compile.h:117-123 | in every other string, with errors or not, no more parts are emitted than counted |
| FormatPasses.SkippedIsBelow | opt/calajaminer/xmrig/src/3rdparty/fmt/compile.h:99-112 | behind such a field at least one part of every further text is missed |
| FormatPasses.StepTwice | opt/calajaminer/xmrig/src/3rdparty/fmt/compile.h:99-182 | both passes take the same steps, except that the counting one skips on behind such a field to a later closing brace |
| FormatPasses.DifferentStopsDisagree | opt/calajaminer/xmrig/src/3rdparty/fmt/compile.h:99-112 | a string that compiles to two parts and is counted as one |
| FormatCompiler.PartCounter.OnFormatSpecs | opt/calajaminer/xmrig/src/3rdparty/fmt/compile.h:99-112 | the loop over braces stops at the first closing brace at depth zero |
| FormatCompiler.CountStringParts | opt/calajaminer/xmrig/src/3rdparty/fmt/compile.h:117-123 | the counting pass over a string, with its own handler |
| FormatCompiler.FormatStringCompiler.OnArgId | opt/calajaminer/xmrig/src/3rdparty/fmt/compile.h:147-161 | the id of a field is resolved in the mode of the context |
| FormatCompiler.FormatStringCompiler.OnEvent | opt/calajaminer/xmrig/src/3rdparty/fmt/compile.h:142-182 | each event moves the compiler object to the next state of the specification, throws exactly where that has an error, and overruns the array exactly if a part is emitted into a full one |
| FormatCompiler.CompileToParts | opt/calajaminer/xmrig/src/3rdparty/fmt/compile.h:296-335 | both passes over a string: the array is overrun only if a field with an opening brace as its type has something behind it; it is filled with exactly the emitted parts, or one empty text, if and only if the string compiles without error and has no such field |
| FormatCompiler.HandledExactly | opt/calajaminer/xmrig/src/3rdparty/fmt/compile.h:296-335 | a string that compiles without error overruns the array if and only if it has such a field inside |
| CompiledFormat.CompiledMeansInterpreted | opt/calajaminer/xmrig/src/3rdparty/fmt/compile.h:479-578 | a compiled string formats to its left-to-right interpretation if and only if every character that the compiler skips unchecked is a closing brace |
| CompiledFormat.CompileAgrees | opt/calajaminer/xmrig/src/3rdparty/fmt/compile.h:490-558 | with closing braces doubled, compiling and interpreting come to the same in all three cases: the same text, a field of another kind, or an error; so no partial tree comes out of an unknown field |
| CompiledFormat.UndoubledIsError | opt/calajaminer/xmrig/src/3rdparty/fmt/compile.h:544-547 | without that a string may still compile, but its interpretation is an error |
| CompiledFormat.LoneBraceSwallows | opt/calajaminer/xmrig/src/3rdparty/fmt/compile.h:544-547 | a lone closing brace compiles and swallows the character behind it |
| CompiledFormat.TypeSwallows | opt/calajaminer/xmrig/src/3rdparty/fmt/compile.h:512-519 | specs of a built-in type that end at another character than a closing brace compile and swallow it |
| CompiledFormat.InterpretPiece | opt/calajaminer/xmrig/src/3rdparty/fmt/compile.h:523-557 | one compiled piece is one stretch of the interpretation |
| CompiledFormat.FieldsAreNumbered | opt/calajaminer/xmrig/src/3rdparty/fmt/compile.h:531-541 | fields of a compiled string are numbered strictly upwards and every number has an argument |
| CompiledFormat.NumbersAreConsecutive | opt/calajaminer/xmrig/src/3rdparty/fmt/compile.h:512-541 | in every compiled string the fields and the arguments that their specs refer to are together numbered 0, 1, 2, ... from left to right |
| CompiledFormat.RunIsInterpretation | opt/calajaminer/xmrig/src/3rdparty/fmt/format.h:2854-2954 | the parser of format strings with the formatting handler computes the interpretation wherever that does not come to a field with an explicit id |
| CompiledFormat.CompiledMeansParsed | opt/calajaminer/xmrig/src/3rdparty/fmt/compile.h:479-578 | so a compiled string formats to what the runtime formats for it if and only if its closing braces are doubled |
| CompiledFormat.ParseText | opt/calajaminer/xmrig/src/3rdparty/fmt/compile.h:479-485 | the text run ends at the first brace |
| FormatArgs.LookupByIndex | opt/calajaminer/xmrig/src/3rdparty/fmt/core.h:1913-1924 | lookup by a non-negative index gives the argument with its type, and nothing past the end, in the packed and the unpacked form |
| FormatArgs.TagsSurvive | opt/calajaminer/xmrig/src/3rdparty/fmt/core.h:1870-1874 | bits above the tags never disturb a tag, and places past the end read as none |
| FormatArgs.DescriptorBits | opt/calajaminer/xmrig/src/3rdparty/fmt/core.h:1865-1868 | both flag bits can be read back and do not touch the rest |
| FormatArgs.SizeSurvives | opt/calajaminer/xmrig/src/3rdparty/fmt/core.h:1941-1945 | max_size is the number of arguments, or 15 when packed, although bit 62 may be set |
| FormatArgs.InfosFindFirst | opt/calajaminer/xmrig/src/3rdparty/fmt/core.h:1931-1939 | scanning the named entries finds the first argument with the name |
| FormatArgs.ArgsView.GetId | opt/calajaminer/xmrig/src/3rdparty/fmt/core.h:1931-1939 | the id of a name is the position of the first argument with it, or -1 |
| FormatArgs.ArgsView.GetByName | opt/calajaminer/xmrig/src/3rdparty/fmt/core.h:1926-1929 | lookup by name gives the first argument with the name, or none |
| ArgStore.CountNamedIsInfos | opt/calajaminer/xmrig/src/3rdparty/fmt/core.h:959-967 | the array of names has room for exactly the named arguments |
| ArgStore.InitNamedArgs | opt/calajaminer/xmrig/src/3rdparty/fmt/core.h:935-950 | the recursion over the arguments fills exactly the counted entries, with name and position |
| ArgStore.FormatArgStore.constructor | opt/calajaminer/xmrig/src/3rdparty/fmt/core.h:1572-1608 | the store shows the argument list in packed or unpacked form with the hidden slot in front when there are names |
| ArgStore.Lookup | opt/calajaminer/xmrig/src/3rdparty/fmt/core.h:1572-1608 | for every argument list lookups by index and by name find what a scan of the list finds |
| DynamicArgStore.DynamicFormatArgStore.Push | opt/calajaminer/xmrig/src/3rdparty/fmt/core.h:1720-1722 | an unnamed push appends one argument, wherever the storage starts |
| DynamicArgStore.DynamicFormatArgStore.PushNamed | opt/calajaminer/xmrig/src/3rdparty/fmt/core.h:1725-1739 | a named push appends one argument although the first one shifts the storage and every one moves the names |
| DynamicArgStore.DynamicFormatArgStore.ViewShows | opt/calajaminer/xmrig/src/3rdparty/fmt/core.h:1709-1718 | descriptor and base pointer show the pushed arguments |
| DynamicArgStore.DynamicFormatArgStore.Get | opt/calajaminer/xmrig/src/3rdparty/fmt/core.h:1913-1924 | index i below the number pushed gives the i-th pushed argument |
| DynamicArgStore.DynamicFormatArgStore.GetByName | opt/calajaminer/xmrig/src/3rdparty/fmt/core.h:1926-1939 | a name gives the first pushed argument with it |
| DynamicArgStore.DynamicFormatArgStore.Clear | opt/calajaminer/xmrig/src/3rdparty/fmt/core.h:1813-1818 | clearing leaves an empty store that can be used again |
| HexHeader.BinaryReadsBack | opt/calajaminer/xmrig/scripts/js/opencl.js:6-24 | reading the printed header gives one array: the declared size is the number of bytes, and the bytes are exactly those of the buffer |
| HexHeader.TextArrayReadsBack | opt/calajaminer/xmrig/scripts/js/opencl.js:27-48 | a text array reads back as the bytes of the text and one final zero, with that size |
| HexHeader.BundleReadsBack | opt/calajaminer/xmrig/scripts/js/opencl.js:57-66 | a bundle reads back as its items in order |
| HexHeader.ReadElements | opt/calajaminer/xmrig/scripts/js/opencl.js:12-19 | the elements read back as the bytes wherever lines are broken |
| HexHeader.ElementDigits | opt/calajaminer/xmrig/scripts/js/opencl.js:13-13 | a byte is printed as exactly two hex digits that read back as the byte |
| HexHeader.PrintElements | opt/calajaminer/xmrig/scripts/js/opencl.js:11-19 | the countdown breaks the line behind every 32nd element and nowhere else |
| HexHeader.LinesAreFull | opt/calajaminer/xmrig/scripts/js/opencl.js:11-19 | the elements of a buffer are printed in lines of 32 |
| HexHeader.Bin2h | opt/calajaminer/xmrig/scripts/js/opencl.js:6-24 | the method prints the header that the round trip is proved about |
| HexHeader.Text2hInternal | opt/calajaminer/xmrig/scripts/js/opencl.js:27-48 | the method prints the text array of the round trip |
| HexHeader.Text2h | opt/calajaminer/xmrig/scripts/js/opencl.js:51-54 | a single text is a bundle of one item |
| HexHeader.Text2hBundle | opt/calajaminer/xmrig/scripts/js/opencl.js:57-66 | the method prints the items one after the other between one header and one footer |

## Left out

- `agent.py`: sensors, subprocesses, HTTP and service control; its pure parts are small.
- Floating-point durations, NaN and infinities, and the precision of a duration.
- Locale-dependent output: `%r`, `%p` and the alternative forms are abstract tokens, and so is the unit.
- Padding the output of a duration to its width with its fill.
- `=` as an alignment, which the deprecated numeric alignment adds.
- Hash functions, virtual machines, memory and the dataset: parameters of the pipeline.
- Construction and destruction of the handler while work is outstanding, log output, and `Async` after close.
- Backends: they are the jobs handed to them; that a configuration change hands them the current job again is
  not an event of the model.
- A backend's own stop and touch of its sequence number, when it joins its workers and starts new ones.
- Nonce.next: workers reserve an amount or exhaust the range; how the 32-bit boundary is skipped is not modelled.
- The taskbar, hash rates, health output and the API; the timer keeps its tick count, its pause logic and the
  stop that a backend asks for.
- Strategies: activity of the donate strategy is a parameter, its update with each user job is left out, and both
  strategies stay the same during a run.
- `onPause` and `onConfigChanged` of the network layer.
- Fields with a number or a name in compiled trees: the compiler gives up on them, and so does the model.
- The position behind an argument id that parts carry for custom types.
- A dynamic width or precision that refers to no argument, or to one that is no number, in compiled strings: the
  error is raised when the value is written, which is a parameter. For durations, which arguments give a width is a
  parameter.
- `format_to_n`, iterator buffers and the growth of output buffers.
- DynamicArgStore.DynamicFormatArgStore.Get: claims nothing at the index equal to the number of pushed arguments
  once there are names, because the size in the descriptor counts the hidden slot.
- `reserve` of the dynamic store, and the copies that the store keeps of strings and custom values.
- Argument lists of 2^31 entries and more, whose size does not survive the cast to int.
- Headers whose names or namespaces contain an opening bracket: they are identifiers, and the reader looks for
  the first bracket.
- The UTF-8 bytes of a text are the input of the header printer; `addInclude` and the OpenCL minifier are left out.
- `printf.h`, `os.h`, `locale.h`: system calls and instantiations.
