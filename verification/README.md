# Verification of the decryption service

A Dafny model of the parts of the service whose correctness is not visible in
one function body, with proofs. `dafny verify dfyconfig.toml` checks everything.

| file | what it models |
|---|---|
| `Arith.dfy`, `Options.dfy` | powers of two, division, wrapping 64-bit arithmetic; `Option` and `Result` |
| `Lwe.dfy` | decoding one compressed LWE block with the small secret key: validation of untrusted fields, wrapping dot product, mask, rounding |
| `Radix.dfy`, `RadixRoundTrip.dfy` | radix decoding, the width guard, the OR of shifted digits, encoding at a type's width, and the round trip from digits through encryption back |
| `EncodedWidth.dfy` | when a decrypted value survives being written at its type's width |
| `OtlpSplit.dfy`, `OtlpContents.dfy` | splitting a metrics export into requests of at most `max` points, and what becomes of every single point |
| `Lru.dfy` | the LRU contract the commitment cache and the v2 result caches rely on |
| `Commitment.dfy`, `CommitmentRuns.dfy` | the commitment cache and gate: single operations, then interleaved requests over one cache and one registry that can be wiped |
| `CommitmentHistory.dfy`, `CommitmentStaleness.dfy`, `CommitmentRecency.dfy` | where every cached hash was read, how long it can outlive a wipe, runs that reach the bad cases, and how long an entry stays cached |
| `Pipeline.dfy`, `Refusals.dfy`, `DecryptRoute.dfy` | the common path of the decrypt routes, the order of refusals and their v1 and v2 encodings, which cause gets which answer, and what the decrypt handler signs |
| `ServiceRuns.dfy` | whole requests interleaved: admission, both gates, the join, the fetch, the checks and the CPU gate, over the cache and registry of `CommitmentRuns` and the semaphores of `Permits`, with cancellation |
| `ServiceResults.dfy`, `ServiceProgress.dfy`, `ServiceWitness.dfy` | what every such run keeps, that requests come to an end, and runs that serve |
| `Permits.dfy` | the admission and CPU semaphores under cancellation and panics |
| `Handles.dfy` | the two handle parsers, the version parser, the metadata bytes and the signed byte strings |

Conventions. Machine integers are bounded naturals; wrap-around is written out
where the source can wrap, with the semantics of a release build (the crate sets
no overflow checks, so `2 * msg * carry` wraps and a zero modulus of `%` panics).
Strings are sequences of UTF-8 bytes. Hashes are numbers, zero meaning "no
commitment". What the ACL, the registry, the ciphertext server and the clock say
are inputs of a step, so every statement holds for whatever they say. Loops and
objects that the source updates in place are methods and classes proved against
functions, and the properties are proved about those functions. Methods that
split one loop nest (`SplitRequest` and its three helpers) hold one source loop
each.

## Where the code and its comments differ

* `src/http.rs:1400-1404` says the expectation is present exactly when the
  commitment gate is enabled. In warn-only mode a failed lookup leaves none
  (`src/http.rs:1160-1168`). `Pipeline.ExpectationIff` gives the exact condition.
* `src/commitment.rs:410-413` and `src/http.rs:1228-1233` say a request is
  refused only on a hash the chain confirms now. When the re-read fails the code
  refuses on the cached hash (`src/http.rs:1292-1303`).
  `CommitmentHistory.NoRefusalOnCacheAlone` states exactly when a mismatch is
  reported, `CommitmentStaleness.RefusalReachable` is a run from the start in
  which bytes that match the registry are refused.
* `src/direct_decrypt.rs:458-459` says the cleartext space is a non-zero power of
  two. Nothing checks the carry modulus; `Lwe.DecodeTotal` gives the exact
  condition under which the decoder panics instead of answering, and
  `Lwe.PanicExample` a key and a block for which it does.
* The width guard rounds the type's width up to whole digits
  (`src/direct_decrypt.rs:358`), so some keys let through values that `encode`
  truncates. `EncodedWidth.EncodeFaithfulIff` states exactly which, for every key
  that has encryption parameters: those whose widest value, with high digits below
  twice the carry modulus, does not fit the wire width. For msg ≤ 2·carry that is
  where the digit width does not divide the type's width (`EncodedWidth.DivisibleIff`);
  `EncodedWidth.TruncationExample` is a ciphertext that is truncated, and
  `EncodedWidth.DivisionNotNeeded` a key beyond that bound for which nothing is.
* Bounded staleness after a registry wipe needs more than the TTL: an answer read
  before the wipe and written to the cache after it is served for another TTL.
  `CommitmentStaleness.StalenessBoundedIff` states the exact condition and
  `CommitmentStaleness.OutdatedHitReachable` reaches a world that violates it.
* `split_request` does not terminate for a cap of zero and a request with points
  (`src/metrics/otlp_split.rs:80-81`, `start` never grows); a request without
  points is returned untouched by the test before the loops (lines 60-62). Its only
  caller passes 200. `OtlpSplit.SliceLoopEndsIff` and `OtlpSplit.ZeroCapNeverEnds`
  state this; `OtlpSplit.SplitRequest` covers all other inputs.
* `src/metrics/otlp_split.rs:48-50` promises that every resource and scope shell is
  preserved. When the request is split, only shells and metrics with points below
  them survive: each of their points keeps its own resource, scope and metric
  (`OtlpSplit.SplitRequest`), and nothing in a chunk is without points
  (`OtlpSplit.ShellsCarryPoints`). A request within the cap keeps everything.

## Model

| member | source | states |
|---|---|---|
| Lwe.DecodeTotal | src/direct_decrypt.rs:376-464 | for all field values: a rejection exactly when one of the checks before the arithmetic fails, a panic exactly when the checks pass and 2·msg·carry is a multiple of 2^64, otherwise a level below the cleartext space |
| Lwe.RejectionNames | src/direct_decrypt.rs:376-439 | every rejection names a check that the block fails, and the values it reports are the block's and the key's |
| Lwe.PanicReachable | src/direct_decrypt.rs:456-462 | every key whose space wraps to zero is stopped by a block, built here, that passes all the checks |
| Lwe.PanicExample | src/direct_decrypt.rs:456-462 | one such key with a power-of-two message modulus, and the block |
| Lwe.WindowInBounds | src/direct_decrypt.rs:406-443 | after the checks every coefficient's bit window lies inside the packed words, spans at most two of them, and reading those two gives the coefficient |
| Lwe.SpaceWraps | src/direct_decrypt.rs:456-460 | the 64-bit space is the exact one modulo 2^64, and equal to it inside a word |
| Lwe.WrappingDotExact | src/direct_decrypt.rs:449-453 | the wrapping fold is congruent to the integer inner product for any lengths |
| Lwe.PhaseExact | src/direct_decrypt.rs:448-454 | fold, wrapping subtraction and mask compute (body − Σ aᵢsᵢ) mod 2^log over the integers |
| Lwe.RoundExact | src/direct_decrypt.rs:461-462 | the 128-bit rounding never wraps and the cast to 64 bits loses nothing |
| Lwe.NearestLevel | src/direct_decrypt.rs:461-462 | the rounded quotient is the one integer within half a step of the phase |
| Lwe.PhaseDecodes | src/direct_decrypt.rs:448-463 | a phase decodes to m if and only if the body is m steps above the inner product with noise in [−Δ/2, Δ/2), the wrap to m = 0 included |
| Lwe.DecodeExactlyEncrypted | src/direct_decrypt.rs:376-464 | an admissible block decodes to m modulo the space if and only if it encrypts m, for every dimension, key, mask and modulus |
| Lwe.PackRoundTrip | src/direct_decrypt.rs:440-443 | coefficients packed low bits first are what unpacking returns |
| Lwe.EncryptThenDecode | src/direct_decrypt.rs:376-464 | every level encrypted with noise inside half a step decodes to itself |
| Radix.WireRoundTrip | src/decrypt.rs:35-65 | wire numbers and types correspond one to one, exactly seven numbers are accepted |
| Radix.WireWidths | src/decrypt.rs:35-97 | number 0 is one bit, 2 to 6 are 2^(v+1) bits, 7 is 160; every type but the boolean fills its bytes exactly |
| Radix.PowerOfTwoIff | src/direct_decrypt.rs:331-336 | the modulus check accepts exactly the powers of two |
| Radix.EncodeReadsBack | src/decrypt.rs:99-110 | the encoding read big-endian is the value modulo the wire width, hence the value exactly when it fits |
| Radix.OrStep | src/direct_decrypt.rs:365-368 | OR-ing a shifted digit is adding it modulo 2^256, whether or not the shift leaves the word |
| Radix.AssembleDigits | src/direct_decrypt.rs:365-369 | the accumulation loop computes the positional sum modulo 2^256 |
| Radix.CollectDigits | src/direct_decrypt.rs:337-346 | the block loop returns the digits of all blocks, or the failure of the first failing block |
| Radix.DecodeRadix | src/direct_decrypt.rs:320-370 | the whole decoder equals its meaning: positional sum of the digits behind the modulus check, the emptiness check and the width guard |
| Radix.PositionalInjective | src/direct_decrypt.rs:312-319 | digit lists of one length with the same value are equal |
| RadixRoundTrip.SplitLevel | src/direct_decrypt.rs:338-342 | the level low + msg·high splits back into low and high modulo twice the carry modulus |
| RadixRoundTrip.DigitsExact | src/direct_decrypt.rs:337-346 | for any ciphertext: there are digits if and only if every block decodes, the unpaired one included; they are the two digits of each paired level and the one of the last; otherwise the first block that fails decides the answer |
| RadixRoundTrip.DigitsDecode | src/direct_decrypt.rs:337-346 | an encryption of a digit list, of odd or even length, decodes to that list, high digits reduced modulo twice the carry modulus |
| RadixRoundTrip.RadixRoundTripExact | src/direct_decrypt.rs:320-370 | the round trip returns Σ dᵢ·msgⁱ if and only if the high digits fit the carry space; only an empty list, a width past a machine word and a width past the type are refused, each exactly when it applies |
| RadixRoundTrip.RadixRoundTripHolds | src/direct_decrypt.rs:312-370 | with msg ≤ 2·carry (in particular msg ≤ carry) every digit list that fits the width comes back |
| RadixRoundTrip.NarrowCarryLosesDigits | src/direct_decrypt.rs:338-342 | with msg > 2·carry the digits 0 and 2·carry, encrypted under any mask and admissible noise, do not come back |
| RadixRoundTrip.AllComeBackIff | src/direct_decrypt.rs:312-370 | for a type of at least two digits: all its digit lists come back from their encryption if and only if msg ≤ 2·carry |
| RadixRoundTrip.NarrowCarryExample | src/direct_decrypt.rs:338-342 | a key with message modulus 4 and carry modulus 1 under which the digits 0, 2 are lost |
| RadixRoundTrip.EncryptRadixDecodes | src/direct_decrypt.rs:312-370 | decoding inverts an explicit encryption of any digit list, mask and admissible noise |
| RadixRoundTrip.AcceptedIff | src/direct_decrypt.rs:347-363 | a ciphertext whose blocks decode is accepted exactly when it is not empty and its total width is at most the rounded-up type width |
| RadixRoundTrip.AcceptedShiftFits | src/direct_decrypt.rs:365-368 | for an accepted count no digit is shifted out of 256 bits |
| EncodedWidth.EncodeFaithfulIff | src/decrypt.rs:99-110 | for every key with encryption parameters: encoding keeps every value that any stored bytes decrypt to if and only if the type is boolean or the widest value its digits can decode to fits the wire width |
| EncodedWidth.DecryptedBelowWidest | src/direct_decrypt.rs:337-369 | no ciphertext decrypts to more than that widest value: high digits stay below the message modulus and below twice the carry modulus |
| EncodedWidth.DivisibleIff | src/direct_decrypt.rs:351-363 | for msg ≤ 2·carry the condition is that the digit width divides the type's width (or the type is boolean) |
| EncodedWidth.TopStored | src/direct_decrypt.rs:351-369 | a ciphertext, built here for every key with encryption parameters, is accepted and decrypts to the widest value |
| EncodedWidth.TruncationExample | src/decrypt.rs:99-110 | three 3-bit digits stored as an 8-bit integer decrypt to 511 and are written as 255 |
| EncodedWidth.DivisionNotNeeded | src/decrypt.rs:99-110 | with message modulus 8 and carry modulus 1 every 16-bit value is written whole, although 3 does not divide 16 |
| RadixRoundTrip.WidthGuard | src/direct_decrypt.rs:223-257 | whatever the stored bytes, a decrypted value is below two to the rounded-up width of the declared type |
| RadixRoundTrip.BoolRoundTrip | src/direct_decrypt.rs:295-310 | an encrypted boolean decrypts to itself |
| RadixRoundTrip.BoolExact | src/direct_decrypt.rs:295-310 | an encryption of any level decrypts to whether its message is not zero |
| RadixRoundTrip.BoolTotal | src/direct_decrypt.rs:295-310 | a stored boolean is refused or panics exactly as its block is or does |
| RadixRoundTrip.FormDecides | src/direct_decrypt.rs:223-310 | only the modulus-switched form of the kind the type names gives a value; bytes that do not decode or are of the other kind are Deserialize errors, and only they; a seeded form of the right kind is refused as such |
| RadixRoundTrip.UintEndToEnd | src/direct_decrypt.rs:223-293 | encrypted digits, decrypted and written at the type's width, read as the number they spell |
| OtlpSplit.MetricSlice | src/metrics/otlp_split.rs:33-46 | a slice has exactly the points of its range and everything else of the metric |
| OtlpSplit.TotalIsRows | src/metrics/otlp_split.rs:53-59 | the counts summed over all metrics are the number of (resource, scope, metric, point) rows |
| OtlpContents.PointsAreData | src/metrics/otlp_split.rs:22-46 | the points of each of the five kinds of metric are its own data points; without them an empty metric of the same kind is left, and both together are the metric |
| OtlpContents.RowAtPlace | src/metrics/otlp_split.rs:53-59 | the row at a point's position in reading order carries that point, its metric without points, and the resource and scope above it |
| OtlpContents.EveryPointArrives | src/metrics/otlp_split.rs:47-122 | every point of every metric of the export is in a chunk, under the same resource and scope and in the same metric but for its points, with as many points before it in the chunks as in the export |
| OtlpContents.NothingInvented | src/metrics/otlp_split.rs:47-122 | every point of a chunk is such a point of the export |
| OtlpContents.OnePlacePerPosition | src/metrics/otlp_split.rs:47-122 | different points have different positions, so the two correspondences are one to one |
| OtlpSplit.PushRows | src/metrics/otlp_split.rs:88-111 | pushing a slice adds exactly its points, under the source's own resource and scope |
| OtlpSplit.PushOpens | src/metrics/otlp_split.rs:88-111 | pushing keeps the open chunk an excerpt: non-empty shells in source order, each source metric at most once, cursors naming the last shells |
| OtlpSplit.FlushReady | src/metrics/otlp_split.rs:83-87 | closing a chunk loses no row, keeps the cap and makes it exceed the cap together with what follows |
| OtlpSplit.CountFromTotal | src/metrics/otlp_split.rs:79-119 | capped chunks whose neighbours exceed the cap number between ⌈total/max⌉ and 2·⌈total/max⌉ − 1 |
| OtlpSplit.SplitMetric | src/metrics/otlp_split.rs:74-114 | the slice loop emits every point of the metric once, in order, and terminates |
| OtlpSplit.SplitScope | src/metrics/otlp_split.rs:74-115 | the metric loop emits the rows of the scope in order |
| OtlpSplit.SplitResource | src/metrics/otlp_split.rs:73-116 | the scope loop emits the rows of the resource in order |
| OtlpSplit.SliceLoopEndsIff | src/metrics/otlp_split.rs:79-114 | the slice loop reaches the end of the metric after some number of turns if and only if the cap is positive or the metric has no points |
| OtlpSplit.ZeroCapNeverEnds | src/metrics/otlp_split.rs:60-114 | with a cap of zero every request that has points contains a metric at which no number of turns moves `start` |
| OtlpSplit.ShellsCarryPoints | src/metrics/otlp_split.rs:67-114 | every resource shell, scope shell and metric of a split chunk carries at least one point |
| OtlpSplit.SplitRequest | src/metrics/otlp_split.rs:51-122 | for a positive cap, and for a cap of zero on a request without points: flattening the chunks gives the input's rows in order; a request within the cap comes back alone; every chunk holds at most `max` points, the chunks together as many as the input, and, when it is split, each is non-empty and an excerpt; neighbours exceed the cap; the number of chunks is within the bounds |
| Lru.RunValid | src/commitment.rs:276-306 | no run of operations exceeds the capacity or stores a key twice |
| Lru.Survives | src/http.rs:255-298 | a key survives with its value while fewer than capacity distinct other keys have been touched since its last touch, unless popped or stored again |
| Lru.LookupMovesToFront | src/commitment.rs:276-286 | looking a stored key up takes its entry from where it stood to the front, the others keep their order |
| Lru.LookedUpSurvives | src/commitment.rs:272-286 | a key that is looked up, wherever it stood, then survives like one just stored |
| Lru.PutAllShifts | src/commitment.rs:291-299 | the bound is sharp: storing as many new keys as the capacity pushes out everything that was there |
| Lru.AbsentRunsAreInert | src/commitment.rs:276-306 | lookups and evictions of absent keys change neither entries nor order |
| Commitment.LookedKeeps | src/commitment.rs:276-286 | a lookup removes at most its own expired entry and never re-stamps one |
| Commitment.AbsentSpamIsInert | src/commitment.rs:384-433 | any run of fetches that find no commitment, each at its own times, leaves all other entries and their order unchanged |
| Commitment.CommitmentConfig.GetFromCache | src/commitment.rs:276-286 | an entry younger than the TTL, wherever it stands, is served and becomes the newest; an older one is dropped; a missing key changes nothing; the other entries keep their order |
| Commitment.CommitmentConfig.PutInCache | src/commitment.rs:291-299 | from then on a lookup is answered with the hash until one TTL has passed and is a miss after it; every other key keeps its entry, but for the oldest one of a full cache that did not hold the key; the size stays within capacity |
| Commitment.CommitmentConfig.EvictFromCache | src/commitment.rs:304-306 | the key is a miss at any later time, every other key keeps its entry, the cache shrinks by one exactly when the key was there |
| Commitment.CommitmentConfig.RefreshCommitment | src/commitment.rs:414-433 | a non-zero answer is returned and stored as the newest entry, zero evicts the key and is not found, a failure leaves the cache as it is |
| Commitment.CommitmentConfig.FetchCommitment | src/commitment.rs:384-403 | answers from the cache on a hit, else from the registry after reconciling the cache |
| Commitment.CommitmentConfig.EnforceIntegrityOf | src/http.rs:1242-1340 | passes and refuses only as the registry's words allow, and touches the cache only when it reads again |
| CommitmentRuns.RunInv | src/commitment.rs:276-433 | in every interleaving with wipes and failures the cache stays a valid LRU of non-zero hashes stored in the past, and every request's state follows from what it read |
| CommitmentHistory.RunSourced | src/commitment.rs:276-433 | in every run, from any world, every cached hash and every answer waiting to be written was there at the start or was read from the registry, for its key, by an earlier step |
| CommitmentRecency.WarmEntryServes | src/commitment.rs:272-299 | from any world that keeps the invariant: an entry that a step serves or stores is served after every further interleaving that ends within its TTL, touches fewer other keys than the capacity and does not write the key anew; fetches of absent keys count for nothing |
| CommitmentHistory.HitWasRead | src/commitment.rs:276-299 | across any number of wipes, a hash served from the cache was read from the registry for that key by an earlier step of the run, and stored by a later one less than one TTL ago |
| CommitmentHistory.LoggedWasRead | src/commitment.rs:384-433 | every answer a request acted on was read by it, and every cached hash it was served rests on an earlier read stored within the TTL |
| CommitmentHistory.NoRefusalOnCacheAlone | src/http.rs:1242-1340 | in every run, a finished request mismatches if and only if the gate enforces and its newest word is another hash, read by itself, or a cached one whose re-read failed; a pass means the hash was read from the registry by this request, or by an earlier one within the TTL |
| CommitmentRuns.RefusedThoughChainAgrees | src/http.rs:1292-1303 | wherever the cache holds an outdated hash, bytes that match the registry are refused when the re-read fails |
| CommitmentStaleness.StaleReachable | src/commitment.rs:414-433 | a run from the start, over a wipe and a redeployment, ends with an outdated hash served from the cache |
| CommitmentStaleness.RefusalReachable | src/http.rs:1292-1303 | a run from the start ends with a refusal of bytes whose hash the registry holds at that moment |
| CommitmentRuns.CacheCoherence | src/commitment.rs:276-433 | without wipes every reachable cache entry is non-zero and is the registry's current answer |
| CommitmentRuns.VerdictAgreesWithUncached | src/http.rs:1150-1340 | without wipes and failed calls every verdict is the one a gate without a cache reaches on the registry's own answer |
| CommitmentStaleness.StalenessBoundedIff | src/commitment.rs:276-299 | from any moment on and over every further run, with any number of wipes: after one TTL every hit is a hash the registry has held since that moment, if and only if no answer it no longer gives is waiting to be written |
| CommitmentStaleness.OutdatedHitReachable | src/commitment.rs:414-433 | a run from the start reaches a world in which such an answer waits and the bound fails |
| CommitmentStaleness.HitIsCurrent | src/commitment.rs:276-299 | if there was no further wipe, every such hit is the registry's current answer |
| CommitmentStaleness.WipeForgottenAfterTtl | src/commitment.rs:414-433 | after a wipe with nothing waiting, every hit a TTL later is a hash posted since, however often the registry is wiped again |
| Pipeline.Service.constructor | src/http.rs:170-180 | the admission cap is clamped to at least one |
| Pipeline.Service.TryAcquire | src/http.rs:1370-1377 | takes a slot exactly when one is free, without waiting |
| Pipeline.Service.FetchDecrypt | src/http.rs:1350-1626 | a plaintext leaves exactly when a slot was held, the ACL allowed, the registry stands behind the bytes (when enforcing), the form is compressed, type and zone are the handle's, and decryption gave it; otherwise the earliest refusal leaves; every way out frees the slot. ServiceRuns gives the same reply with the gates' answers read from the running cache and registry |
| Pipeline.Service.Serve | src/http.rs:1380-1626 | the early returns are the rungs of the refusal order |
| Pipeline.ServedIff | src/http.rs:1370-1614 | nothing refuses if and only if the safety condition holds, for all behaviours of ACL, registry and server |
| Pipeline.ServedTypeIsCommitted | src/cofhe_layout.rs:30-37 | the served type is the handle's type byte, the zone byte is zero, the value fits the type's rounded-up width |
| Pipeline.ServedIsEncrypted | src/http.rs:1581-1614 | a served integer that encrypts digits reads, at its type's width, as the number they spell |
| Pipeline.GatesOnlyRefuse | src/http.rs:1405-1446 | what is served under stricter gates is served under laxer ones, with the same value |
| Pipeline.WarnOnlyIsNoGate | src/http.rs:1150-1218 | a warn-only run answers as a run with no commitment verifier |
| Pipeline.VersionsAgree | src/http.rs:825-867 | v1 and v2 refuse together with the same outcome code; v2 answers a bodyless 204 with its reason exactly for retryable outcomes, v1 never does |
| Refusals.RetryReasons | src/http.rs:995-1041 | each retry reason is given if and only if its own cause applies: no slot; a ciphertext not there yet behind both gates; no commitment in enforce mode, at the gate or when read again. 204 without a body on v2, 503 or 428 with the code on v1, and nothing else gets these |
| Refusals.AclRefusals | src/http.rs:1048-1130 | status and code for every answer of the ACL but an approval, 401 or 403 for a denial with or without an ACP |
| Refusals.CommitmentRefusals | src/http.rs:1150-1218 | status and code when an enforcing gate finds no commitment, one for each cause |
| Refusals.SourceRefusals | src/http.rs:1448-1472 | status and code for every answer of the ciphertext server other than a ciphertext |
| Refusals.ServedRefusals | src/http.rs:1474-1626 | for a served ciphertext: zone, form, bytes, type, type and zone of the handle in this order, each with its status and code; then the decryption's value, or 502 if it fails and 500 if it panics |
| Refusals.OnlyItsFormIsServed | src/http.rs:1581-1620 | a plaintext comes only from the stored form of the kind the type names; any other payload that passes the checks is a 502 |
| ServiceRuns.RunFits | src/http.rs:1370-1626 | with admission, the two gates, the join, the fetch, the checks, the CPU gate and cancellations of many requests interleaved, every request's progress agrees at every step with what it has heard and with where it stands at the semaphores |
| ServiceResults.AtMostAdmitted | src/http.rs:1370-1378 | in every run no more requests are under way than there are slots, each of them holds one, no more closures exist than CPU permits, and everything answered or cancelled has given its slot back |
| ServiceResults.RepliesAsTheLadder | src/http.rs:1350-1626 | in every run, whichever gate ends first and whatever runs in between, a request is answered as the order of refusals answers whether it got a slot, the ACL's word, its own reads and the served bytes; a plaintext leaves only with a slot; an ACP rejection comes first |
| ServiceResults.ScheduleIndependent | src/http.rs:1405-1446 | two requests, in any two schedules, that hear the same get the same reply |
| ServiceResults.ServedWasRead | src/http.rs:1370-1614 | a plaintext that leaves is cleared by what was heard; in enforce mode the hash of its bytes was read from the registry for its handle, by this request or by an earlier one within the TTL |
| ServiceResults.HeardWasSaid | src/http.rs:1405-1472 | in every run the ACL's and the server's answers a request acts on were brought to it by steps of that run, and its version, handle and credentials are those it arrived with |
| ServiceResults.ServedWasAllowed | src/http.rs:1405-1614 | with the ACP gate configured nothing is served unless the ACL allowed that request; what is served is the decryption of what the server answered it |
| ServiceResults.CancelledForGood | src/http.rs:1370-1378 | a request cancelled under way gives its slot back at once and is never answered |
| ServiceResults.OneAnswerPerHandle | src/http.rs:1220-1340 | in enforce mode and without wipes, any two requests for one handle that are served, at whatever times, were served bytes of one hash, and where one hash means one payload they get the same plaintext and type |
| ServiceProgress.ChangesBounded | src/http.rs:1350-1626 | no run changes a request more than 27 times, so it is answered, cancelled, or stopped after finitely many steps |
| ServiceProgress.NextStepMoves | src/http.rs:1350-1626 | a request that is under way and does not wait for a CPU permit has a step of its own that moves it |
| ServiceProgress.ReachesReply | src/http.rs:1350-1626 | from every state that keeps the invariant, every request under way reaches its reply by its own steps and, where it waits for a permit, by the work of others ending |
| ServiceWitness.DeservingIsServed | src/http.rs:1370-1614 | whatever passes the pure checks and decrypts is served by some run from the start, with exactly its plaintext |
| ServiceWitness.ServedExample | src/http.rs:1370-1614 | an encrypted boolean is served, with both gates configured and enforcing |
| DecryptRoute.HandleDecrypt | src/http.rs:1628-1690 | a malformed handle is refused whatever the load; otherwise the reply is the common path's, a failing signer makes it a 500, and what is signed is the handle's own type byte, its zone byte zero, and a plaintext cleared for that handle |
| Permits.PermitConservation | src/cpu.rs:25-46 | in every interleaving free, assigned and working permits add up to the configured number, requests inside never exceed the cap, nobody waits beside a free permit, a request is shed exactly at the cap, and at quiescence everything is free |
| Permits.WorkOutlivesCaller | src/cpu.rs:32-46 | a closure stays on the pool with its permit until it ends, whatever happens to its caller |
| Permits.EndFreesOne | src/cpu.rs:39-46 | the end of a closure frees exactly one permit, by return and by panic alike, and the caller learns which |
| Permits.OwnStays | src/http.rs:1370-1378 | what every step does to its own request, and that a request leaves only before the gate, with its result, or cancelled |
| Permits.NoOvertaking | src/cpu.rs:8-10 | permits are assigned in arrival order among those who keep waiting |
| Permits.WaiterIsServed | src/cpu.rs:25-38 | from every state some schedule, of the work of others ending alone, gives a waiter its permit |
| Permits.ServedInTurn | src/cpu.rs:8-10 | in every run that does not cancel a waiter, once permits have been given back more often than there were waiters before it, it has been assigned one |
| Permits.RunInv | src/http.rs:1370-1378 | every step of admission, queueing, work, cancellation and exit keeps the accounting and the queue order |
| Handles.ParsersAgree | src/http.rs:937-950 | `Handle::parse` and `parse_ct_hash` accept the same strings and denote the same 32 bytes, also on the canonical form |
| Handles.CtHashExact | src/signing/service.rs:164-173 | exactly 64 hex digits are accepted; each refusal says which condition failed and points at the first bad character |
| Handles.HandleAcceptedIff | src/http.rs:937-944 | both parsers accept a text if and only if it is 64 hex digits, bare or after `0x` or `0X` |
| Handles.SpelledMeans | src/http.rs:937-950 | the digits alone decide the value, the canonical form and the 32 bytes |
| Handles.HexDigitsAre | src/http.rs:942-945 | a hex digit is one of sixteen characters, in either case, and counts as its place among them |
| Handles.DecodePairsExact | src/signing/service.rs:164-173 | decoding pairs of digits gives the big-endian bytes of the number the digits spell |
| Handles.CanonicalIdempotent | src/http.rs:937-950 | a canonical handle parses to itself |
| Handles.CanonicalIffSameValue | src/http.rs:937-956 | canonical forms are equal exactly when the values are |
| Handles.EveryValueSpelled | src/http.rs:937-950 | every 256-bit value has its canonical spelling accepted |
| Handles.VersionIsCanonical | src/commitment.rs:329-347 | a version is accepted exactly when it is the canonical spelling of a 32-byte key |
| Handles.VersionAcceptedIff | src/commitment.rs:329-347 | the accepted versions are exactly `0x` and 64 lowercase hex digits, read as 32 bytes |
| Handles.VersionRefusals | src/commitment.rs:329-347 | each refusal of a version says which condition failed |
| Handles.OneSpellingPerKey | src/commitment.rs:318-347 | two accepted versions for one key are the same string |
| Handles.MetadataReadsBack | src/cofhe_layout.rs:16-37 | a stamped type and zone are read back whatever the hash and the trivial flag |
| Handles.SignDecrypt | src/signing/service.rs:82-106 | the built preimage is 76 bytes and reads back field by field; it exists exactly for accepted handles |
| Handles.SignSealOutput | src/signing/service.rs:126-153 | the built preimage reads back as the bundle and the same trailing fields |
| Handles.DecryptPreimageInjective | src/signing/service.rs:90-103 | two decrypt preimages are equal if and only if all fields are, handles compared by value |
| Handles.SealPreimageInjective | src/signing/service.rs:136-149 | two seal preimages are equal if and only if the concatenated bundles and the other fields are; with key and nonce of fixed lengths, all fields |
| Handles.PreimagesDisjoint | src/signing/service.rs:66-149 | a decrypt and a seal preimage are equal only for a 32-byte bundle that is the plaintext, never with a 32-byte key and a 24-byte nonce |
| Handles.ShortBundleCollides | src/signing/service.rs:136-149 | every 32-byte bundle collides with some decrypt preimage |

## Left out

- Lwe.DecodeBlock: returns the level only; the source also returns the key's message modulus, which callers take from the key here.
- Lwe.PackRoundTrip: `unpack` of the tfhe library is taken by contract (coefficient i is bits [i·log, (i+1)·log) of the words); its code is not part of this model.
- OtlpSplit.SplitRequest: decoding and encoding of protobuf messages is the identity, so the decode error is not modelled, and the point sum is unbounded.
- Commitment.CommitmentConfig.FetchCommitment: one call alone; the interleaving of its cache and registry steps is what CommitmentRuns models.
- CommitmentRuns.RunInv: a cache operation is one step, as its mutex makes it; poisoning of the mutex is not modelled, and time only moves forward.
- Pipeline.Service.FetchDecrypt: one request alone, on answers given in advance; ServiceRuns interleaves requests, the CPU gate and cancellation, and its replies are the same function of what was heard.
- ServiceRuns.RunFits: the service has the commitment gate configured (without it there is no shared state but the semaphores), and the hash of the bytes the server will serve is fixed when a request arrives.
- Permits.ServedInTurn: counts the permits given back; that running work ends at all is not stated.
- Permits.PermitConservation: the blocking pool itself is not modelled; work counts as running from the moment it is handed over.
- Handles.SignDecrypt: keccak and the secp256k1 signature over the preimage are not modelled, only which bytes are signed.
- DecryptRoute.HandleDecrypt: whether the signature succeeds is an input; the JSON rejection before the handle is parsed is not modelled.
- The tfhe, bincode, alloy, reqwest and axum libraries, EIP-712 recovery and NaCl sealing: library code behind the inputs of the model.
- The contract calls of the ACL (`src/permit.rs`): their verdict is an input.
- The HTTP client of the ciphertext server (`src/ct_source.rs`): its result is an input; the bound on the body would be an easy member.
- The handlers around the common path, JSON shapes, CORS, logging, metrics labels and request ids: plumbing that would add only easy members.
- Boot, attestation, configuration, key loading and environment policy: straight-line checks around the platform.
- The `legacy-plain-decrypt` path: refused before it could run.
