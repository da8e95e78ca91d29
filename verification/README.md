# Verified models of Knative Serving

Knative Serving scales containers with demand, down to zero. This project models six of
its mechanisms in Dafny and proves what they are relied on for, over all inputs, all
interleavings or all runs.

- **Admission** (`Breaker`, `InfiniteBreaker`): the lock-free breaker in front of every
  container, as a step relation in which each load, compare-and-swap, channel send and
  receive of any number of threads is a step of its own. The main results are accounting
  and the absence of lost wakeups although wakeup tokens may be dropped.
- **Metric windows** (`Buckets`, `Resizing`): the modulo-indexed rings behind the autoscaler's
  averages, proved to refine a plain log of everything recorded, through resizing and in
  the exponentially weighted form.
- **Stat messages** (`StatWire`, `StatCodec`, `StatForward`, `StatMarshal`,
  `StatUnmarshal`, `StatRelay`, `StatLayout`): the Protocol Buffers codec between activator, autoscaler and queue
  proxy. The backward writer and the index-driven decoders are proved equal to a
  functional specification, which round-trips in both directions and skips unknown fields.
- **Activator routing** (`Watcher`, `Slicing`, `Throttler`): the probing state machine,
  and the division of pods among activators that never talk to each other.
- **Scaling** (`Scraper`, `Reporter`, `Autoscaler`): sampling by concurrent workers,
  reference-counted request stats and the arrivals they can lose, panic mode over whole histories, and convergence of
  the closed loop.
- **Revision lifecycle** (`Gc`, `Labeler`, `Metasync`, `Lifecycle`): garbage collection,
  the route labeler's merge patches, and both together, each reading copies that may be
  outdated. A routed revision is kept once no reader's copy is from before it was routed;
  three runs show what older copies can do.

`Bits`, `Common`, `Counting`, `Strs`, `Commas` and `Revisions` hold shared vocabulary.
`dafny verify dfyconfig.toml` checks everything.

How the parts are modelled. Code that updates objects in place is a class whose methods
are proved against functions of the old state; the laws are lemmas about those functions.
Protocols shared by many threads are step relations, and their laws are invariants of all
runs. Probe outcomes, clocks, API answers, random orders and lock schedules are inputs.

Where code and comment differ, the code is followed:

- The comment on `updateRouteAnnotation` says a nil route name removes the annotation and
  that a value is returned; the code takes a flag and returns nothing.
- `revisionDestsUpdate` is documented to carry no pods next to a cluster IP; the code
  sends the ready ones along (pkg/activator/net/revision_backends.go:402, 416).
- The comment on the skipped multiplier gives it the exponent nz - 1, the code nz
  (pkg/autoscaler/aggregation/bucketing.go:168-169).
- The comment on a resize calls the new `firstWrite` the earliest time data might have
  been written; the code sets it back by the whole old window however little of it was
  covered (pkg/autoscaler/aggregation/bucketing.go:349-351). Slots and total are kept, but
  the average changes: `Resizing` has the input and the exact condition, for shrinking and
  for growing.

## Model

| member | source | states |
|---|---|---|
| `Breaker.UnpackIsBitwise` | pkg/queue/breaker.go:298-300 | the division and the remainder of the model are the shift by 32 places and the 32-bit mask, taken bit by bit |
| `Breaker.PackIsSum` | pkg/queue/breaker.go:305-307 | or-ing the shifted left half with a 32-bit right half is exactly their positional sum |
| `Breaker.PackRoundTrip` | pkg/queue/breaker.go:296-307 | two 32-bit counters packed into one word come back unchanged, and the word stays below 2^64 |
| `Breaker.StepRefinesCounters` | pkg/queue/breaker.go:195-288 | every atomic step on the packed word is a step on two separate counters (one permit taken, one given back, or a new capacity) that never spill into each other |
| `Breaker.CasAlwaysWrites` | pkg/queue/breaker.go:203-207 | a step that leaves the packed word as it was neither takes nor gives back a permit |
| `Breaker.StepKeepsInv` | pkg/queue/breaker.go:98-288 | each load, CAS, send, receive and decrement of any thread keeps accounting, wakeup coverage and the packed-word bounds |
| `Breaker.RunKeepsInv` | pkg/queue/breaker.go:57-288 | in every state of every run of any number of threads: free permits are at most the tokens in the channel plus sends still owed plus woken waiters that have not used or given up their wakeup, and in-flight is the number of permit holders |
| `Breaker.AccountingHolds` | pkg/queue/breaker.go:57-155 | in-flight equals the callers holding a permit, is at most the pending count, which counts the callers that are in and is at most QueueDepth + MaxConcurrency; the not-paired panic is unreachable |
| `Breaker.OvershootOnlyByShrinking` | pkg/queue/breaker.go:233-288 | in-flight exceeds capacity only after capacity was lowered, and while it is not below capacity no step raises it |
| `Breaker.NoLostWakeup` | pkg/queue/breaker.go:211-288 | whenever a permit is free there is a token in the channel or a thread that still carries a wakeup, although sends to a full channel are dropped |
| `Breaker.CarriersExactly` | pkg/queue/breaker.go:217-257 | who carries a wakeup: a thread that owes a send, or one woken from its wait that has not used the wakeup |
| `Breaker.QuiescentTokensCoverFree` | pkg/queue/breaker.go:247-257 | when every thread is idle, holding or parked, each free permit has its own token |
| `Breaker.LoadLeadsToPermit` | pkg/queue/breaker.go:213-229 | a thread about to load a state with room holds a permit two steps later if nobody interferes |
| `Breaker.TokenLeadsToPermit` | pkg/queue/breaker.go:216-229 | a token, a parked waiter and a free permit lead to the permit being taken in three steps |
| `Breaker.WokenLeadsToPermit` | pkg/queue/breaker.go:211-231 | a woken waiter leads a free permit to be taken in at most three steps |
| `Breaker.ParkedWaiterIsServed` | pkg/queue/breaker.go:211-288 | from every invariant state with a parked waiter and a free permit, at most five steps by threads already waiting or carrying a wakeup hand the permit out: no new arrival or release is needed |
| `Breaker.StartsEmpty` | pkg/queue/breaker.go:68-71 | a new breaker has its initial capacity and nobody in it |
| `Breaker.RefusedExactlyWhenFull` | pkg/queue/breaker.go:98-106 | in every run a caller is refused a place exactly when QueueDepth + MaxConcurrency callers are in |
| `Breaker.RoomLeadsToQueue` | pkg/queue/breaker.go:98-106 | in every run, while fewer are in, a caller that is not raced is in two steps later, pending one higher |
| `Breaker.TurnedAwayExactlyWhenTaken` | pkg/queue/breaker.go:196-224 | Reserve gives up, and Maybe waits, exactly when in-flight has reached capacity |
| `Breaker.ReserveLeadsToPermit` | pkg/queue/breaker.go:117-128 | with a permit free a Reserve that is not raced holds it two steps later |
| `Breaker.ReleaseGivesBack` | pkg/queue/breaker.go:74-77 | a holder that is not raced gives back permit and place, and leaves a token when that frees a permit, unless the channel is full |
| `Breaker.UpdateLeadsToCapacity` | pkg/queue/breaker.go:264-288 | an update that is not raced sets the capacity to what was asked for and leaves in-flight alone |
| `Buckets.TimedFloat64Buckets.constructor` | pkg/autoscaler/aggregation/bucketing.go:94-103 | a new ring refines the empty log |
| `Buckets.TimedFloat64Buckets.Record` | pkg/autoscaler/aggregation/bucketing.go:249-297 | the ring keeps refining the log of everything recorded: each slot of the window is the sum ever recorded for its bucket and the total is their sum, for records in order, late, after gaps or too old |
| `Buckets.TimedFloat64Buckets.Add` | pkg/autoscaler/aggregation/bucketing.go:295-296 | adding to a slot inside the window is appending to the log |
| `Buckets.TimedFloat64Buckets.Clear` | pkg/autoscaler/aggregation/bucketing.go:270-272 | every slot is zeroed |
| `Buckets.TimedFloat64Buckets.Advance` | pkg/autoscaler/aggregation/bucketing.go:279-283 | zeroing the skipped slots moves the window of the log forward, total included |
| `Buckets.TimedFloat64Buckets.WindowAverage` | pkg/autoscaler/aggregation/bucketing.go:201-231 | equals, rounded to six digits, the log's sum over (max(now, last) - n, last] divided by a divisor that is at least 1, and 0 once a whole window has passed without a write |
| `Buckets.TimedFloat64Buckets.ResizeWindow` | pkg/autoscaler/aggregation/bucketing.go:314-359 | with live data the ring refines exactly the log cut to the min(old, new) newest buckets; without, it is empty; the same size changes nothing |
| `Buckets.TimedFloat64Buckets.CopyNewest` | pkg/autoscaler/aggregation/bucketing.go:337-348 | the copy loop re-homes the newest buckets under the new modulus, zeroes every other slot, and its total is their sum |
| `Buckets.RoundToSixDigits` | pkg/autoscaler/aggregation/bucketing.go:130-133 | rounding moves a value by at most half of the sixth digit |
| `Buckets.HoldsUnique` | pkg/autoscaler/aggregation/bucketing.go:29-58 | the window of the log determines every slot of the ring |
| `Buckets.HoldsShift` | pkg/autoscaler/aggregation/bucketing.go:279-283 | advancing one bucket drops exactly the value that was n buckets old |
| `Buckets.HoldsAdd` | pkg/autoscaler/aggregation/bucketing.go:295-296 | adding a value to its slot adds it to the window's sum and touches no other bucket |
| `Buckets.HoldsTooOld` | pkg/autoscaler/aggregation/bucketing.go:289-293 | a record a window old changes no bucket of the window |
| `Buckets.StampsOfRun` | pkg/autoscaler/aggregation/bucketing.go:257-287 | after any records, lastWrite is the newest bucket ever recorded and firstWrite a recorded bucket no later than anything in the window |
| `Buckets.FirstWriteExactly` | pkg/autoscaler/aggregation/bucketing.go:257-287 | firstWrite is the earliest bucket recorded in time since writing last resumed after a whole window without writes |
| `Buckets.DivisorCounts` | pkg/autoscaler/aggregation/bucketing.go:205-227 | the divisor is the number of buckets of the summed range from the first write on, at least one |
| `Buckets.SixDigits` | pkg/autoscaler/aggregation/bucketing.go:130-133 | the rounded value is a whole number of millionths |
| `Buckets.RoundingTies` | pkg/autoscaler/aggregation/bucketing.go:130-133 | halves are rounded away from zero, whatever the sign |
| `Buckets.FeedAll` | pkg/autoscaler/aggregation/bucketing.go:249-297 | the ring fed a list of records carries exactly the stamps of that list |
| `Buckets.LastIgnoresWindow` | pkg/autoscaler/aggregation/bucketing.go:285-286 | the last write does not depend on the window size |
| `Buckets.ShrinkMatchesFresh` | pkg/autoscaler/aggregation/bucketing.go:314-359 | shrinking a ring gives the same slots, total and last write as a fresh smaller ring fed the same records, the log cut to the new window, and a first write set back by the old size |
| `Resizing.ShrunkDivisor` | pkg/autoscaler/aggregation/bucketing.go:349-351 | a shrunk ring divides by every current bucket, so it divides like a fresh ring if and only if that one covers all of them |
| `Resizing.GrownDivisor` | pkg/autoscaler/aggregation/bucketing.go:349-351 | growing raises the divisor, and keeps it if and only if the old window was covered whole and nothing has gone out of date |
| `Resizing.GrownDivisorFresh` | pkg/autoscaler/aggregation/bucketing.go:349-351 | a grown ring divides like a fresh larger one if and only if that one covers just the old window or both cover all that is current |
| `Resizing.AveragesAgree` | pkg/autoscaler/aggregation/bucketing.go:205-227 | two averages of one sum agree if and only if the divisors do or the sum is zero |
| `Resizing.ShrunkAverages` | pkg/autoscaler/aggregation/bucketing.go:201-359 | WindowAverage of a shrunk ring and of a fresh smaller one: one sum, two divisors, equal when the fresh ring covers all current buckets, and before rounding only then or for a zero sum |
| `Resizing.GrownAverages` | pkg/autoscaler/aggregation/bucketing.go:201-359 | WindowAverage before and after growing and of a fresh larger ring, with the exact condition for growing to keep it at the last write, and agreement with the fresh ring whenever the divisors agree and both sums see the same |
| `Resizing.OneRecordShrunk` | pkg/autoscaler/aggregation/bucketing.go:314-359 | the input: one record of 10 in a ring of ten, shrunk to five, averages 2 where a fresh ring of five averages 10 |
| `Resizing.OneRecordGrown` | pkg/autoscaler/aggregation/bucketing.go:314-359 | the input: one record of 10 in a ring of ten, grown to twenty, goes from average 10 to 1 |
| `Buckets.WeightedFloat64Buckets.constructor` | pkg/autoscaler/aggregation/bucketing.go:107-115 | the coefficient is computed from the ring's own number of buckets, and its weights sum to between 0.9999 and 1 |
| `Buckets.WeightedFloat64Buckets.ResizeWindow` | pkg/autoscaler/aggregation/bucketing.go:306-310 | after a resize the weights of the new window again sum to between 0.9999 and 1, over the log the resized ring keeps |
| `Buckets.WeightedFloat64Buckets.WindowAverage` | pkg/autoscaler/aggregation/bucketing.go:152-183 | equals the sum over all k below n of s(1-s)^k times the value logged for bucket max(now, last) - k, the skip over trailing empty buckets included |
| `Buckets.WeightedFloat64Buckets.Accumulate` | pkg/autoscaler/aggregation/bucketing.go:173-182 | the weighting loop computes the weighted sum of the buckets it walks |
| `Buckets.WeightsClosedForm` | pkg/autoscaler/aggregation/bucketing.go:80-90 | the first n weights sum to 1 - (1-s)^n |
| `Buckets.WeightsMeetPrecision` | pkg/autoscaler/aggregation/bucketing.go:80-90 | with the computed coefficient the weights sum to at least 0.9999 and less than 1, minimal exponent included |
| `Buckets.CoefficientIsLeast` | pkg/autoscaler/aggregation/bucketing.go:80-90 | the coefficient is the least one, from 0.2 on, whose weights reach 0.9999 |
| `StatWire.VarintByteIsArithmetic` | pkg/autoscaler/metrics/stat.pb.go:441-451 | the continuation byte written is the arithmetic one of the model |
| `StatWire.VarintUpdateIsArithmetic` | pkg/autoscaler/metrics/stat.pb.go:540-540 | or-ing seven shifted bits into a 64-bit accumulator is addition modulo 2^64 |
| `StatWire.VarintRoundTrip` | pkg/autoscaler/metrics/stat.pb.go:441-451 | every 64-bit value is read back from its varint, whatever follows it |
| `StatWire.VarintLocal` | pkg/autoscaler/metrics/stat.pb.go:531-544 | a varint that decodes does so whatever bytes are appended |
| `StatWire.SovIsLength` | pkg/autoscaler/metrics/stat.pb.go:519-521 | the computed size of a varint is the number of bytes written |
| `StatWire.LittleEndianRoundTrip` | pkg/autoscaler/metrics/stat.pb.go:590-596 | a 64-bit pattern is read back from its eight bytes |
| `StatWire.DecVarint` | pkg/autoscaler/metrics/stat.pb.go:531-544 | the decoding loop consumes between one and all bytes and yields a 64-bit value |
| `StatWire.NextField` | pkg/autoscaler/metrics/stat.pb.go:529-673 | a field never extends past the end of the data, and a known one carries the kind of payload its wire type stands for, numbers within 64 bits |
| `StatWire.SkipLocal` | pkg/autoscaler/metrics/stat.pb.go:915-992 | skipping looks only at the bytes it skips |
| `StatWire.NextFieldLocal` | pkg/autoscaler/metrics/stat.pb.go:529-673 | a field that parses does so whatever bytes follow |
| `StatWire.NextFieldBase` | pkg/autoscaler/metrics/stat.pb.go:577-583 | where a field starts decides nothing about it |
| `StatCodec.StatRoundTrip` | pkg/autoscaler/metrics/stat.pb.go:305-680 | Unmarshal after Marshal gives back every Stat, negative timestamps included, up to the sign of a zero float |
| `StatCodec.WireRoundTrip` | pkg/autoscaler/metrics/stat.pb.go:370-830 | the same for a WireStatMessage with a nil, empty or full nested Stat |
| `StatCodec.ListRoundTrip` | pkg/autoscaler/metrics/stat.pb.go:419-914 | the same for lists of any length |
| `StatLayout.StatComesBack` | pkg/autoscaler/metrics/stat.pb.go:305-680 | pod name, timestamp and each of the five floats come back, bit by bit but for the negative zero, which comes back as zero |
| `StatLayout.WireComesBack` | pkg/autoscaler/metrics/stat.pb.go:370-830 | so do namespace, name and a nested Stat that is nil, empty or full |
| `StatLayout.ListComesBack` | pkg/autoscaler/metrics/stat.pb.go:419-914 | so does every message of a list, in order |
| `StatLayout.NormalIsSignOfZero` | pkg/autoscaler/metrics/stat.pb.go:315-344 | the normal form differs from a message in the sign of zeros only |
| `StatLayout.LittleEndianBytes` | pkg/autoscaler/metrics/stat.pb.go:316-317 | byte k of a fixed value counts 256^k |
| `StatLayout.VarintBytes` | pkg/autoscaler/metrics/stat.pb.go:441-451 | byte k of a varint holds the seven bits that count 128^k, with the high bit on all but the last |
| `StatLayout.PodNameOnWire` | pkg/autoscaler/metrics/stat.pb.go:345-351 | a Stat with only a pod name is 0x0a, the length and the bytes |
| `StatLayout.FloatsOnWire` | pkg/autoscaler/metrics/stat.pb.go:315-344 | a Stat with only one float is the tag 0x11, 0x19, 0x21, 0x29 or 0x31 and eight little-endian bytes |
| `StatLayout.TimestampOnWire` | pkg/autoscaler/metrics/stat.pb.go:310-314 | a Stat with only a timestamp is 0x38 and the varint of its two's complement |
| `StatLayout.ZerosOnWire` | pkg/autoscaler/metrics/stat.pb.go:305-353 | zeros of either sign, an empty name and time zero write nothing |
| `StatLayout.StatOnWire` | pkg/autoscaler/metrics/stat.pb.go:305-353 | a Stat is its fields one after the other in order of their numbers |
| `StatLayout.WireOnWire` | pkg/autoscaler/metrics/stat.pb.go:370-402 | a message is its namespace, name and Stat as 0x0a, 0x12 and 0x1a with counted bytes, each only if present |
| `StatLayout.ListOnWire` | pkg/autoscaler/metrics/stat.pb.go:419-439 | each message of a list is 0x0a with counted bytes, in list order |
| `StatLayout.VarintReadsExactly` | pkg/autoscaler/metrics/stat.pb.go:531-544 | a varint reads if and only if one of its first ten bytes is below 128; ten above overflow, fewer run out |
| `StatLayout.BadTagRefused` | pkg/autoscaler/metrics/stat.pb.go:545-552 | an end of group or a field number zero is refused |
| `StatLayout.NegativeFieldRefused` | pkg/autoscaler/metrics/stat.pb.go:545-552 | field numbers are read as signed 32-bit integers and only positive ones are taken |
| `StatLayout.WrongWireTypeRefused` | pkg/autoscaler/metrics/stat.pb.go:553-645 | a known field with another wire type than its own is refused, for each of the three messages |
| `StatLayout.BadUnknownRefused` | pkg/autoscaler/metrics/stat.pb.go:972-991 | an unknown field of wire type 6 or 7, or a group that never ends, is refused |
| `StatLayout.BadLengthRefused` | pkg/autoscaler/metrics/stat.pb.go:573-583 | a length beyond the data, or beyond what an index can hold, is refused |
| `StatLayout.ShortFloatRefused` | pkg/autoscaler/metrics/stat.pb.go:590-594 | a float cut short is refused |
| `StatForward.SkipUnknown` | pkg/autoscaler/metrics/stat.pb.go:915-992 | skipStat ends exactly at the end of any well-formed field, at any group depth, groups nested arbitrarily |
| `StatForward.NextUnknown` | pkg/autoscaler/metrics/stat.pb.go:660-673 | a well-formed field with an unknown number is one turn that stores nothing |
| `StatForward.DecodeAppend` | pkg/autoscaler/metrics/stat.pb.go:525-680 | decoding a concatenation is decoding its parts one after the other into the same message |
| `StatForward.DecodeBase` | pkg/autoscaler/metrics/stat.pb.go:525-680 | the position of the remaining bytes does not change the outcome |
| `StatForward.InsertUnknown` | pkg/autoscaler/metrics/stat.pb.go:660-673 | inserting an unknown field between two fields of any of the three messages leaves the decoded message unchanged |
| `StatMarshal.StatSizeIsLength` | pkg/autoscaler/metrics/stat.pb.go:452-482 | Stat.Size is exactly the length of its encoding |
| `StatMarshal.WireSizeIsLength` | pkg/autoscaler/metrics/stat.pb.go:483-503 | WireStatMessage.Size is exactly the length of its encoding |
| `StatMarshal.ListSizeIsLength` | pkg/autoscaler/metrics/stat.pb.go:504-518 | WireStatMessages.Size is exactly the length of its encoding |
| `StatMarshal.EncodeVarint` | pkg/autoscaler/metrics/stat.pb.go:441-451 | writes the varint so that it ends at the offset and changes no other byte |
| `StatMarshal.PutUint64` | pkg/autoscaler/metrics/stat.pb.go:316-317 | writes the eight little-endian bytes and no others |
| `StatMarshal.FrameBytes` | pkg/autoscaler/metrics/stat.pb.go:381-385 | puts length and tag in front of bytes already written |
| `StatMarshal.PutString` | pkg/autoscaler/metrics/stat.pb.go:345-351 | writes a nonempty string field ending at the index, nothing for an empty one |
| `StatMarshal.PutFloat` | pkg/autoscaler/metrics/stat.pb.go:315-344 | writes a nonzero float field ending at the index, nothing for either zero |
| `StatMarshal.PutInt` | pkg/autoscaler/metrics/stat.pb.go:310-314 | writes a nonzero integer field ending at the index, negative ones as 64-bit two's complement |
| `StatMarshal.MarshalStatTo` | pkg/autoscaler/metrics/stat.pb.go:305-353 | the backward writer leaves exactly the encoding, ending where it was told, and touches nothing else |
| `StatMarshal.MarshalWireTo` | pkg/autoscaler/metrics/stat.pb.go:370-402 | the same with the nested message written first |
| `StatMarshal.MarshalListTo` | pkg/autoscaler/metrics/stat.pb.go:419-439 | the same for the list, last message first |
| `StatMarshal.MarshalStat` | pkg/autoscaler/metrics/stat.pb.go:290-298 | fills a buffer of Size bytes down to offset 0 |
| `StatMarshal.MarshalWire` | pkg/autoscaler/metrics/stat.pb.go:355-363 | fills a buffer of Size bytes down to offset 0 |
| `StatMarshal.MarshalList` | pkg/autoscaler/metrics/stat.pb.go:404-412 | fills a buffer of Size bytes down to offset 0 |
| `StatUnmarshal.ReadVarint` | pkg/autoscaler/metrics/stat.pb.go:531-544 | the varint loop agrees with the specification on every byte string |
| `StatUnmarshal.SkipItem` | pkg/autoscaler/metrics/stat.pb.go:936-983 | each wire type's skip agrees with the specification, errors included |
| `StatUnmarshal.SkipStat` | pkg/autoscaler/metrics/stat.pb.go:915-992 | the loop over fields and group depth agrees with the specification on every byte string and stays inside it |
| `StatUnmarshal.ReadField` | pkg/autoscaler/metrics/stat.pb.go:529-673 | one turn of the decoder agrees with the specification, errors included |
| `StatUnmarshal.ReadPayload` | pkg/autoscaler/metrics/stat.pb.go:554-659 | each payload read agrees with the specification |
| `StatUnmarshal.Store` | pkg/autoscaler/metrics/stat.pb.go:681-894 | storing a decoded field agrees with the specification; a nested Stat merges, a list item appends |
| `StatUnmarshal.Unmarshal` | pkg/autoscaler/metrics/stat.pb.go:525-914 | on every byte string the decoder ends with exactly the specified message or error |
| `StatUnmarshal.SendAndReceive` | pkg/autoscaler/metrics/stat.pb.go:404-914 | a list written by the backward writer takes Size bytes and the decoder gives it back, up to the sign of zero |
| `StatRelay.VarintShortest` | pkg/autoscaler/metrics/stat.pb.go:441-451 | a varint is never written in more bytes than it was read from |
| `StatRelay.FieldShortest` | pkg/autoscaler/metrics/stat.pb.go:529-673 | a field is never written in more bytes than it was read from |
| `StatRelay.ApplyNoLonger` | pkg/autoscaler/metrics/stat.pb.go:525-914 | storing any decoded field, a merged nested Stat included, leaves an encodable message longer by at most that field |
| `StatRelay.DecodeNoLonger` | pkg/autoscaler/metrics/stat.pb.go:525-914 | decoding any bytes into an encodable message leaves it encodable and longer by at most those bytes |
| `StatRelay.ReencodeIsNormal` | pkg/autoscaler/metrics/stat.pb.go:290-914 | whatever byte string Unmarshal accepts, Marshal takes the result, needs no more bytes, and Unmarshal of those gives the same message up to the sign of zero; encoding again changes nothing |
| `StatRelay.Relay` | pkg/autoscaler/metrics/stat.pb.go:290-914 | a received list is sent on in no more bytes and arrives as received, through both imperative halves |
| `Watcher.ProbedWithinReady` | pkg/activator/net/revision_backends.go:331-350 | without probe optimisation only ready pods stay healthy, because pods that stopped being ready are probed again |
| `Watcher.CheckKeepsInv` | pkg/activator/net/revision_backends.go:320-418 | a check re-establishes the invariant even right after the endpoints changed |
| `Watcher.TurnKeepsInv` | pkg/activator/net/revision_backends.go:420-454 | every turn of the run loop keeps the invariant |
| `Watcher.RunIsSafe` | pkg/activator/net/revision_backends.go:237-454 | over every run of endpoint updates, ticks and probe outcomes: the last report agrees with the healthy pods, these lie within the endpoints (the ready ones without probe optimisation), and no individual pods are reported once a cluster IP was |
| `Watcher.TurnReports` | pkg/activator/net/revision_backends.go:309-454 | a turn sends at most one report: a cluster IP with exactly the ready endpoints, or exactly the healthy pods |
| `Watcher.ReportsMatchTheirCheck` | pkg/activator/net/revision_backends.go:309-454 | over every run each report ever sent describes the check that sent it |
| `Watcher.CheckHealth` | pkg/activator/net/revision_backends.go:331-366 | after a check that probes pods, a pod is healthy exactly when it is an endpoint and was healthy without having stopped being ready, is ready with no mesh to detect, or passed its probe where readiness or probe optimisation allows it |
| `Watcher.ClusterIPDecision` | pkg/activator/net/revision_backends.go:378-418 | a check that gets as far as the cluster IP reports exactly the service's address with the ready endpoints if it answers now or did before, and otherwise changes nothing |
| `Watcher.OtherwiseNoClusterIP` | pkg/activator/net/revision_backends.go:331-388 | a check that does not get that far reports no cluster IP |
| `Watcher.NoEndpointsDecision` | pkg/activator/net/revision_backends.go:321-329 | without endpoints a check reports that nothing is healthy and forgets the cluster IP |
| `Watcher.TickDecision` | pkg/activator/net/revision_backends.go:435-452 | a tick checks exactly while there are endpoints not all of them healthy and no healthy cluster IP |
| `Watcher.HealthyWasProbed` | pkg/activator/net/revision_backends.go:399-417 | over every run, a cluster IP counts as healthy only since a turn whose probe of it passed, with endpoints ever since |
| `Watcher.ClusterIPReportsWereProbed` | pkg/activator/net/revision_backends.go:390-417 | over every run, a report of a cluster IP carries the address its own turn looked up, and its probe passed in that turn or an earlier one with endpoints ever since |
| `Watcher.ModeDecidesReports` | pkg/activator/net/revision_backends.go:331-388 | over every run, passthrough load balancing or a disabled mesh means no cluster-IP report, an enabled mesh no report of pods |
| `Watcher.ProbedClosedForm` | pkg/activator/net/revision_backends.go:249-304 | adding passed pods and dropping gone ones leaves exactly the pods that are current and known, trusted or passed |
| `Watcher.RevisionWatcher.constructor` | pkg/activator/net/revision_backends.go:145-172 | a new watcher has reported nothing and presumes pods addressable |
| `Watcher.RevisionWatcher.ProbePodIPs` | pkg/activator/net/revision_backends.go:241-307 | whatever the order of probes, returns exactly the pods that pass, whether that is a change, and whether a mesh is ruled out |
| `Watcher.RevisionWatcher.ProbeUnknown` | pkg/activator/net/revision_backends.go:269-290 | the probe group probes exactly the pods not known healthy |
| `Watcher.RevisionWatcher.CheckDests` | pkg/activator/net/revision_backends.go:320-376 | one check does to the watcher's fields and reports what the specification says |
| `Watcher.RevisionWatcher.CheckClusterIP` | pkg/activator/net/revision_backends.go:378-418 | the cluster-IP fallback with its early exits is the transition that Watcher.ClusterIPDecision pins |
| `Watcher.RevisionWatcher.HandleEvent` | pkg/activator/net/revision_backends.go:427-453 | one turn of the run loop, with the ticker listened to only while something is left to probe |
| `Slicing.InferIndexIsPosition` | pkg/activator/net/throttler.go:663-671 | on a sorted list the inferred index is the position, and -1 exactly for an address not listed |
| `Strs.LessExactly` | pkg/activator/net/throttler.go:634-635 | addresses are ordered by the first character that differs, a proper prefix coming first |
| `Slicing.UnassignedTakesAll` | pkg/activator/net/throttler.go:383-393 | an activator outside the list takes every pod, and so does the only one |
| `Slicing.SlicesPartition` | pkg/activator/net/throttler.go:360-409 | with at most as many activators as pods every pod goes to exactly one activator |
| `Slicing.ActivatorsPartitionPods` | pkg/activator/net/throttler.go:626-671 | activators that each know only their own address and one shared sorted list take every pod exactly once |
| `Slicing.ActivatorsSharePods` | pkg/activator/net/throttler.go:626-671 | when they outnumber the pods, each pod is taken by the floor or the ceiling of activators / pods of the addresses |
| `Slicing.SliceSizes` | pkg/activator/net/throttler.go:370-408 | slices are nonempty and their sizes differ by at most one |
| `Slicing.RoundRobin` | pkg/activator/net/throttler.go:361-368 | with more activators than pods each takes one pod |
| `Slicing.SharesAreEven` | pkg/activator/net/throttler.go:361-368 | round robin gives each pod the floor or the ceiling of activators / pods |
| `Slicing.TakenByShares` | pkg/activator/net/throttler.go:360-409 | the multiset of taken pods counts those shares |
| `Slicing.SharedEvenly` | pkg/activator/net/throttler.go:360-409 | with more activators than pods each pod is taken by the floor or the ceiling of activators / pods of them |
| `Slicing.CapacityFitsBreaker` | pkg/activator/net/throttler.go:250-277 | no computed capacity exceeds the number of slots of the breaker's channel |
| `Slicing.UnlimitedCapacity` | pkg/activator/net/throttler.go:267-274 | with unlimited containers one backend gives the full capacity, and no backends give none |
| `Slicing.PodCapacityExactly` | pkg/activator/net/throttler.go:250-277 | with pods assigned the capacity is containerConcurrency times their number, cut off at MaxInt32 |
| `Slicing.ClusterCapacityExactly` | pkg/activator/net/throttler.go:258-276 | on the cluster IP the capacity is this activator's share rounded down, at least one, cut off at MaxInt32 |
| `Slicing.PodCapacitiesSum` | pkg/activator/net/throttler.go:250-277 | in pod mode, below the clamp, capacities add up to containerConcurrency times pods |
| `Slicing.ClusterCapacitiesBounded` | pkg/activator/net/throttler.go:258-276 | in cluster-IP mode n activators together stay within max(containerConcurrency x backends, n), clamped or not, and none gets zero while there are backends |
| `Throttler.RevisionThrottler.constructor` | pkg/activator/net/throttler.go:171-206 | a new throttler is consistent, with no pods and no place among the activators |
| `Throttler.RevisionThrottler.UpdateCapacity` | pkg/activator/net/throttler.go:295-333 | routing set and breaker capacity become those of the current trackers and activators |
| `Throttler.RevisionThrottler.HandlePods` | pkg/activator/net/throttler.go:413-448 | trackers become the sorted pods; a pod known before keeps its tracker object, a new one gets a fresh one |
| `Throttler.RevisionThrottler.BuildTrackers` | pkg/activator/net/throttler.go:422-445 | one tracker per address, reused where there was one |
| `Throttler.RevisionThrottler.FindTracker` | pkg/activator/net/throttler.go:422-432 | the lookup finds the tracker of an address exactly when there is one |
| `Throttler.RevisionThrottler.HandleClusterIP` | pkg/activator/net/throttler.go:451-451 | the cluster IP becomes the only target; the routing set is left as it was |
| `Throttler.RevisionThrottler.HandlePublicEndpoints` | pkg/activator/net/throttler.go:626-654 | an activator in the list learns its index in sorted order and rebalances; one that is not changes nothing |
| `Throttler.CapacityFits` | pkg/activator/net/throttler.go:250-277 | in every consistent throttler the breaker's capacity is within the slots of its channel |
| `Throttler.UnlimitedRoutesToAll` | pkg/activator/net/throttler.go:310-327 | without a limit or a place among the activators a throttler routes to every pod; without a limit its breaker is fully open while there is one |
| `Throttler.BringInStep` | pkg/activator/net/throttler.go:413-654 | a throttler that handled the pods and then the endpoint list is in step with them |
| `Throttler.BringInStepEndpointsFirst` | pkg/activator/net/throttler.go:413-654 | so is one that handled them in the other order |
| `Throttler.ThrottlersSharePods` | pkg/activator/net/throttler.go:295-333 | when activators outnumber pods, each pod is routed to from the floor or the ceiling of activators / pods of them |
| `Throttler.ThrottlersOnClusterIP` | pkg/activator/net/throttler.go:295-333 | throttlers of one revision on its cluster IP together stay within max(containerConcurrency x backends, activators), and none has zero while there are backends |
| `Throttler.ThrottlersPartitionPods` | pkg/activator/net/throttler.go:295-333 | the throttlers of one revision in all listed activators route to every pod from exactly one of them, and below the clamp their breakers admit containerConcurrency times pods together |
| `InfiniteBreaker.StepKeepsInv` | pkg/activator/net/throttler.go:735-779 | every step of Maybe and UpdateConcurrency keeps the channel, lock and waiter invariants |
| `InfiniteBreaker.RunKeepsInv` | pkg/activator/net/throttler.go:735-779 | they hold in every reachable state |
| `InfiniteBreaker.BroadcastReachesEveryWaiter` | pkg/activator/net/throttler.go:695-779 | with the lock free the current channel is closed exactly when concurrency is 1; superseded channels are closed, none twice; every waiter is on a closed channel or on the one the next scale-up closes |
| `InfiniteBreaker.RunsOnlyWithCapacity` | pkg/activator/net/throttler.go:756-774 | a request runs at once exactly when concurrency is 1, and a waiting one only once its channel is closed |
| `InfiniteBreaker.UpdateLeadsToConcurrency` | pkg/activator/net/throttler.go:728-753 | an update that finds the lock free sets concurrency to 0 for 0 and to 1 otherwise, with the current channel closed exactly in the second case and no channel reopened |
| `InfiniteBreaker.ScaleUpReleasesWaiter` | pkg/activator/net/throttler.go:735-774 | a scale-up lets every waiter run |
| `Scraper.SampleSizeBounds` | pkg/autoscaler/metrics/sample_size.go:51-56 | the sample is between 1 and the population, at most 16, and an exact integer |
| `Scraper.SampleSizeExactly` | pkg/autoscaler/metrics/sample_size.go:31-56 | up to three pods the sample is all of them, beyond that the least whole number not below N X / (N + X - 1) with X = 15.3664 |
| `Scraper.RunKeepsInv` | pkg/autoscaler/metrics/stats_scraper.go:400-435 | under every interleaving the stats sent and about to be sent are of pairwise distinct pods and each old stat belongs to a returned worker |
| `Scraper.OldSendNeverBlocks` | pkg/autoscaler/metrics/stats_scraper.go:416-423 | a worker holding a fresh stat always finds room in the old channel |
| `Scraper.ChannelsByAge` | pkg/autoscaler/metrics/stats_scraper.go:416-432 | under every interleaving old stats are of pods up at least as long as the cut-off, young ones of pods up less long |
| `Scraper.SendDecision` | pkg/autoscaler/metrics/stats_scraper.go:416-432 | a new stat ends the worker if its pod is old; a young one goes into its channel and the worker tries on, or ends when that is full |
| `Scraper.GivesUpAfterTen` | pkg/autoscaler/metrics/stats_scraper.go:404-414 | a worker returns an error exactly from its tenth failed try on |
| `Scraper.SeenPodFails` | pkg/autoscaler/metrics/stats_scraper.go:477-491 | a pod seen before counts as a failed try |
| `Scraper.SucceedsExactly` | pkg/autoscaler/metrics/stats_scraper.go:447-453 | a finished scrape succeeds exactly when no worker returned an error, or the first error was only that no new pod answered and there are enough stats |
| `Scraper.SuccessfulServiceScrape` | pkg/autoscaler/metrics/stats_scraper.go:437-469 | a successful scrape sums exactly sampleSize stats of pairwise distinct pods, all old ones first, and never reads past the young channel's stats |
| `Scraper.AddUp` | pkg/autoscaler/metrics/stats_scraper.go:462-469 | the two summing loops add up exactly the selected stats, in all four quantities |
| `Scraper.Aggregate` | pkg/autoscaler/metrics/collector.go:401-424 | the sum is scaled from sample to population; pods that are all alike give exactly population times one of them |
| `Scraper.PodRunKeepsInv` | pkg/autoscaler/metrics/stats_scraper.go:298-338 | direct scraping workers never take the same pod twice |
| `Scraper.SuccessfulPodScrape` | pkg/autoscaler/metrics/stats_scraper.go:264-366 | when all workers succeed, exactly sampleSize different pods were scraped, and no send could block |
| `Reporter.NobodyHolds` | pkg/activator/handler/concurrency_reporter.go:161-171 | when the deleter sees no references under the write lock, no request is at that entry or about to be |
| `Reporter.ReportKeepsInv` | pkg/activator/handler/concurrency_reporter.go:158-209 | every step of the reporting thread keeps the invariant |
| `Reporter.StepKeepsInv` | pkg/activator/handler/concurrency_reporter.go:92-209 | every step of every thread keeps it |
| `Reporter.RunKeepsInv` | pkg/activator/handler/concurrency_reporter.go:92-209 | it holds in every reachable state |
| `Reporter.ReferenceSafety` | pkg/activator/handler/concurrency_reporter.go:92-209 | whoever holds a reference holds the very entry the map has for its key, refs counts the requests holding the entry, the deleter never meets a missing key, and after an entry's first report the counts sent about it, a -1 included, add up to the arrivals up to its last report |
| `Reporter.LockExcludes` | pkg/activator/handler/concurrency_reporter.go:112-171 | in every reachable state a thread under the write lock, or the deleting reporter, is alone under the lock |
| `Reporter.UnreportedIsSinceReport` | pkg/activator/handler/concurrency_reporter.go:176-209 | in every run what an entry has not reported is exactly what arrived since the report loop was last at it |
| `Reporter.DeletedKeepsUnreported` | pkg/activator/handler/concurrency_reporter.go:158-174 | a deleted entry never changes again: what arrived since its last report is lost, and nothing is lost if and only if every arrival was followed by a report |
| `Reporter.DeletedWasReported` | pkg/activator/handler/concurrency_reporter.go:158-209 | every key about to be deleted had its turn in the report loop of the very report still going on |
| `Reporter.LossWindow` | pkg/activator/handler/concurrency_reporter.go:158-174 | when a key is deleted, what is lost are exactly the arrivals between that turn and the deletion, and every one of those requests has gone by then |
| `Reporter.ArrivalCanBeLost` | pkg/activator/handler/concurrency_reporter.go:158-174 | a run that loses an arrival: a request comes and goes between the report that finds the stat idle and the deleter's lock |
| `Autoscaler.RateLimits` | pkg/autoscaler/scaling/autoscaler.go:184-194 | the scale-up limit is above the current count and the scale-down limit below it, so neither direction can get stuck |
| `Autoscaler.ClampedIsNearest` | pkg/autoscaler/scaling/autoscaler.go:206-208 | the clamped count is the allowed one nearest to the needed one |
| `Autoscaler.NeededCarriesLoad` | pkg/autoscaler/scaling/autoscaler.go:196-197 | the needed pods carry the load at the target value each, and one fewer do not |
| `Autoscaler.ScaleUpExactly` | pkg/autoscaler/scaling/autoscaler.go:160-189 | the scale-up limit is the least whole count not below the rate times the pods, no pods counting as one |
| `Autoscaler.ScaleDownExactly` | pkg/autoscaler/scaling/autoscaler.go:190-194 | the scale-down limit is the largest whole count not above the pods divided by the rate, zero when unreachable |
| `Autoscaler.WantedWithinLimits` | pkg/autoscaler/scaling/autoscaler.go:206-218 | without an activation scale the wanted count is the needed one brought within limits |
| `Autoscaler.ThresholdExactly` | pkg/autoscaler/scaling/autoscaler.go:220-220 | over the threshold means that the pods the panic reading needs are at least the threshold times the ready ones |
| `Autoscaler.ExcessBurstExactly` | pkg/autoscaler/scaling/autoscaler.go:285-292 | excess burst capacity is 0 for no target, -1 for an unlimited one, and otherwise the spare capacity rounded down |
| `Autoscaler.CreatedExactly` | pkg/autoscaler/scaling/autoscaler.go:101-130 | a new autoscaler panics exactly from two pods on and remembers how many it found, none when they cannot be counted |
| `Autoscaler.PanicExactly` | pkg/autoscaler/scaling/autoscaler.go:220-236 | when an evaluation begins, extends, ends or leaves a panic, in numbers: it ends strictly more than the stable window after its date |
| `Autoscaler.AnswerExactly` | pkg/autoscaler/scaling/autoscaler.go:238-257 | in stable mode the answer is the count for the stable reading, in a panic the largest of those for either reading and the one provisioned; a panic that ends forgets its count |
| `Autoscaler.FailedReadChangesNothing` | pkg/autoscaler/scaling/autoscaler.go:154-182 | an evaluation that cannot read pods or metrics changes nothing and is not to be applied |
| `Autoscaler.StableAnswerCarriesLoad` | pkg/autoscaler/scaling/autoscaler.go:196-207 | in stable mode, with no limit in the way, the pods asked for carry the load at the target value each and one fewer would not |
| `Autoscaler.ActivationScaleHolds` | pkg/autoscaler/scaling/autoscaler.go:210-218 | any load at all is given at least the activation scale, and no load still goes to zero |
| `Autoscaler.ExcessBurstSign` | pkg/autoscaler/scaling/autoscaler.go:278-292 | the excess burst capacity is negative exactly when the target is unlimited or the ready pods cannot take the target on top of the load |
| `Autoscaler.Scaler.constructor` | pkg/autoscaler/scaling/autoscaler.go:85-130 | a new autoscaler panics from the start exactly when more than one pod is ready, remembering their number |
| `Autoscaler.Scaler.Update` | pkg/autoscaler/scaling/autoscaler.go:132-138 | only the spec changes |
| `Autoscaler.Scaler.Scale` | pkg/autoscaler/scaling/autoscaler.go:149-313 | state and answer are those of the specification; a failed read changes nothing and is marked invalid |
| `Autoscaler.PanicHistory` | pkg/autoscaler/scaling/autoscaler.go:220-236 | in every run with spec updates and failed reads, panic mode is dated by the latest over-threshold evaluation (or construction) and is over exactly when some later evaluation came strictly more than its own stable window after that date |
| `Autoscaler.PanicPeak` | pkg/autoscaler/scaling/autoscaler.go:238-257 | during one continuous panic the provisioned count is the largest count wanted since it began, no less than what it began with |
| `Autoscaler.PanicNeverFalls` | pkg/autoscaler/scaling/autoscaler.go:238-257 | the desired count never falls during one continuous panic |
| `Autoscaler.RestartHolds` | pkg/autoscaler/scaling/autoscaler.go:101-130 | a restarted autoscaler asks for at least the pods it found until its first panic is over |
| `Autoscaler.MovesToward` | pkg/autoscaler/scaling/autoscaler.go:184-208 | one stable decision moves strictly toward the needed count, does not pass it, and stays there |
| `Autoscaler.Converges` | pkg/autoscaler/scaling/autoscaler.go:160-208 | under constant load with decisions becoming the ready count, every tick gets strictly nearer, the needed count is never passed, is reached within as many ticks as pods were missing or surplus, from any start including 0, and is kept |
| `Autoscaler.ConvergesToLoad` | pkg/autoscaler/scaling/autoscaler.go:160-208 | so the closed loop settles on the pods that carry the load at the target value each, one fewer not being enough |
| `Autoscaler.GrowsGeometrically` | pkg/autoscaler/scaling/autoscaler.go:184-208 | until it arrives the count has grown at least by the scale-up rate per tick |
| `Autoscaler.ShrinksGeometrically` | pkg/autoscaler/scaling/autoscaler.go:190-208 | until it arrives the count has shrunk at least by the scale-down rate per tick; an unreachable revision arrives at once |
| `Lifecycle.LastActiveIsLastChange` | pkg/reconciler/gc/gc.go:172-177 | over every run, with copies of any age, a revision whose state has changed counts as last active at the event that last changed it or a later one that wrote the same state again; at the very event when the copies are current |
| `Gc.NonActiveCount` | pkg/reconciler/gc/gc.go:122-146 | filtering keeps the multiplicity of every non-active revision and drops the active ones |
| `Gc.DropMember` | pkg/reconciler/gc/gc.go:126-127 | overwriting a member by the last one and cutting the slice removes exactly that member |
| `Gc.NonactiveRevisions` | pkg/reconciler/gc/gc.go:122-133 | the in-place filter leaves exactly the multiset of non-active revisions in front |
| `Gc.ActiveExactly` | pkg/reconciler/gc/gc.go:135-146 | a revision is active exactly when it is the latest ready one, its preserved annotation says true in any letter case, or its state is not reserve |
| `Gc.FoldedTrue` | pkg/reconciler/gc/gc.go:140-142 | the comparison with true ignores letter case and nothing else |
| `Gc.StaleExactly` | pkg/reconciler/gc/gc.go:148-177 | stale means that a retention time is set and each one set has passed, since creation and since the last state change or else creation |
| `Gc.StaleStays` | pkg/reconciler/gc/gc.go:148-167 | what is stale stays stale |
| `Gc.DeleteStale` | pkg/reconciler/gc/gc.go:76-93 | the first loop deletes stale revisions oldest first, all of them or as many as the minimum allows, and nils exactly those |
| `Gc.DeleteOldest` | pkg/reconciler/gc/gc.go:104-117 | the second loop deletes exactly the missing number of the oldest left |
| `Gc.DeleteSorted` | pkg/reconciler/gc/gc.go:75-118 | both loops together delete the specified number, stale before non-stale and oldest first within each |
| `Gc.Collect` | pkg/reconciler/gc/gc.go:39-119 | a collection deletes that number of non-active revisions and none when everything is disabled or too few are there |
| `Gc.CollectionBounds` | pkg/gc/config.go:95-100 | at least min(count, min) non-active revisions remain, at most max when enabled, and every deleted non-stale one was last active no later than every kept non-stale one |
| `Gc.CollectionExactly` | pkg/reconciler/gc/gc.go:39-119 | nothing goes when everything is disabled; all that is stale goes unless only the minimum is left; anything else goes only to get down to the maximum, once nothing stale is left |
| `Commas.SplitParts` | pkg/reconciler/labeler/accessors.go:229-235 | splitting yields comma-free parts whose join is the annotation |
| `Commas.SplitJoin` | pkg/reconciler/labeler/accessors.go:132-145 | splitting undoes joining for any nonempty list of comma-free names |
| `Labeler.NamesOfJoin` | pkg/reconciler/labeler/accessors.go:132-145 | a set written sorted and joined is read back, unless all it holds is the empty name |
| `Labeler.PatchedNames` | pkg/reconciler/labeler/accessors.go:120-147 | after the patch the names are the old ones with the route added or removed; removing the last one removes the annotation |
| `Labeler.RemovalIsExact` | pkg/reconciler/labeler/accessors.go:127-135 | removal takes away that name and nothing else if and only if it does not leave just an empty name behind |
| `Labeler.StrayCommaStaysActive` | pkg/reconciler/labeler/accessors.go:102-118 | the annotation "a," shows the failure: removing a leaves an empty annotation still labelled active |
| `Labeler.PatchedConsistent` | pkg/reconciler/labeler/accessors.go:77-118 | after every patch made from a current copy, whatever was there before, a nonempty routes annotation implies the active label, and the state is active or reserve |
| `Labeler.ModifiedMarksChange` | pkg/reconciler/labeler/accessors.go:114-117 | the modified time is set to now exactly when the state changes; configurations keep both |
| `Labeler.ActiveIffRouted` | pkg/reconciler/labeler/accessors.go:102-118 | after a patch a revision is active exactly when some route names it, but for the stray comma |
| `Labeler.PatchedTwice` | pkg/reconciler/labeler/accessors.go:77-100 | a second patch of the same kind, at any time, is nil if and only if the first did not meet the stray comma |
| `Labeler.PatchedFromNames` | pkg/reconciler/labeler/accessors.go:120-147 | a patch made from any copy leaves the names of that copy with the route added or removed if it writes the annotation, and what is stored if not |
| `Labeler.PatchedFromKeepsName` | pkg/reconciler/labeler/accessors.go:120-147 | another route's stored name survives a patch if and only if the copy it was made from carries the name or the patch leaves the annotation alone |
| `Labeler.PatchedFromState` | pkg/reconciler/labeler/accessors.go:102-118 | state and time are written exactly when the copy's state is not the one wanted for the copy's names |
| `Labeler.PatchedFromConsistent` | pkg/reconciler/labeler/accessors.go:77-118 | a patch made from any copy keeps a routed revision labelled active if and only if, where it writes names, the stored state is active if the copy's is, and, where it only moves to reserve, nothing stored routes to it |
| `Labeler.CarriedStays` | pkg/reconciler/labeler/accessors.go:77-147 | a route that copy and stored revision both carry, active, survives any addition and any removal of another route |
| `Labeler.OutdatedCopyBreaksLabel` | pkg/reconciler/labeler/accessors.go:102-147 | the input: adding b from a copy active with a, after the revision went to reserve, leaves it routed by both and still in reserve |
| `Labeler.OutdatedCopyLosesRoute` | pkg/reconciler/labeler/accessors.go:120-147 | the input: adding b from a copy without routes, after a was added, loses a |
| `Metasync.SyncedOne` | pkg/reconciler/labeler/metasync.go:85-98 | in any store, after a resolved sync with a current view an object carries the route exactly when it is listed or is a revision that carried it without the active label; other names stay |
| `Metasync.SyncedExactly` | pkg/reconciler/labeler/metasync.go:35-99 | an error-free sync of a ready or failed route with a current view leaves exactly the listed objects carrying it, other names where they were, if and only if no unlisted revision carries it without the active label |
| `Metasync.OverlookedKeepsRoute` | pkg/reconciler/labeler/metasync.go:122-145 | the input: a revision in reserve that carries the route and is not listed keeps it |
| `Metasync.SyncedFromOne` | pkg/reconciler/labeler/metasync.go:35-99 | through any view a sync makes at most one patch to an object: listed ones get the route, listable unlisted ones lose it if the route is resolved, each patch made from the copy read |
| `Metasync.SyncedFromRoute` | pkg/reconciler/labeler/metasync.go:85-98 | through any view, exactly which objects carry the route after a resolved sync, in terms of what is stored, what was listed and what was read |
| `Metasync.CurrentIsSafe` | pkg/reconciler/labeler/metasync.go:35-99 | a current view makes every patch keep its revision consistent |
| `Metasync.ConsistentSyncedExactly` | pkg/reconciler/labeler/metasync.go:35-99 | in a store whose routed revisions are labelled active it always does |
| `Metasync.UnresolvedOnlyAdds` | pkg/reconciler/labeler/metasync.go:85-98 | while the route is unresolved a sync only adds it to the listed objects |
| `Metasync.SyncedSettles` | pkg/reconciler/labeler/metasync.go:35-99 | after an error-free sync of any store the next one finds nothing to patch |
| `Metasync.PartlySyncedConsistent` | pkg/reconciler/labeler/metasync.go:35-99 | every outcome of a sync, failed ones included, keeps routed revisions labelled active if its view is safe, and a complete one only then |
| `Metasync.Accessor.constructor` | pkg/reconciler/labeler/accessors.go:60-74 | an accessor starts with the listed objects and no patch sent |
| `Metasync.Accessor.SetRoutingMeta` | pkg/reconciler/labeler/metasync.go:147-165 | the patch is made from the lister's copy and merged into the stored object; no copy, no object or a refusal is an error and changes nothing; no call goes out when the copy needs no patch |
| `Metasync.Accessor.PatchAll` | pkg/reconciler/labeler/metasync.go:111-145 | whatever the order, success patches every given object and no other, failure only some; it succeeds exactly when each patch goes through |
| `Metasync.Accessor.SetMetaForListed` | pkg/reconciler/labeler/metasync.go:111-120 | success patches every listed object from its copy and no other, failure only some; no call goes out when every copy is settled |
| `Metasync.Accessor.ClearMetaForNotListed` | pkg/reconciler/labeler/metasync.go:122-145 | success takes the route off every object the lister showed as listable outside the list and off no other, failure off some of them |
| `Metasync.ListTargets` | pkg/reconciler/labeler/metasync.go:36-83 | the sets hold exactly the revisions and configurations some traffic target names, missing ones skipped, the latest created revision included where asked for |
| `Metasync.TargetExactly` | pkg/reconciler/labeler/metasync.go:41-83 | what one traffic target stands for, case by case |
| `Metasync.SyncRoutingMeta` | pkg/reconciler/labeler/metasync.go:35-99 | what a sync does to both stores through any two views, exactly on success and piecewise on failure, and exactly when it succeeds; settled views get no patch call |
| `Metasync.FinalizeRoute` | pkg/reconciler/labeler/labeler.go:41-43 | finalization takes the route off everything on success and off some objects on failure |
| `Lifecycle.StepKeepsInv` | pkg/reconciler/labeler/metasync.go:35-145 | creation, sync, finalization and collection, failing or not, keep every routed revision labelled active when the copies read are safe |
| `Lifecycle.UpToDateIsSafe` | pkg/reconciler/labeler/metasync.go:35-145 | copies that are what is stored are safe |
| `Lifecycle.CollectedWereNonActive` | pkg/reconciler/gc/gc.go:122-146 | a collection deletes only revisions of its configuration that count as non-active in the copy it listed, whatever they are by then |
| `Lifecycle.SortedExactly` | pkg/reconciler/gc/gc.go:62-73 | the sorted list holds exactly the listed revisions that are not the latest ready one, not marked as preserved and in reserve |
| `Lifecycle.KeptForGood` | pkg/reconciler/gc/gc.go:135-142 | in every run the latest ready revision survives, and so does one listed with a preserved annotation that says true in any letter case |
| `Lifecycle.MadeExactly` | pkg/reconciler/configuration/resources/revision.go:31-96 | a new revision carries its configuration's routes and is active, or is pending; no collector that sees it so takes it |
| `Lifecycle.NotReserveNeverCollected` | pkg/reconciler/gc/gc.go:54-146 | in every run, with copies of any age, a revision survives a collection that lists versions no older than some state if it has not been in reserve since that state |
| `Lifecycle.RunKeepsInv` | pkg/reconciler/labeler/metasync.go:35-145 | over every run of safe events routed revisions are labelled active |
| `Lifecycle.RoutedNeverCollected` | pkg/reconciler/gc/gc.go:135-146 | after every run of safe or up-to-date events, a revision with a nonempty routes annotation survives a collection that lists it as it is |
| `Lifecycle.RoutedStaysRouted` | pkg/reconciler/labeler/metasync.go:35-109 | with copies of any age, a revision that carries a route and is active is kept, carries it and stays active through every run, as long as no copy of it is from before then and the route neither resolves without it nor is finalized |
| `Lifecycle.DropsExactly` | pkg/reconciler/labeler/metasync.go:85-109 | the events that may take a route off a revision, and those that read what is stored, in so many words |
| `Lifecycle.CarriedNeverCollected` | pkg/reconciler/gc/gc.go:54-146 | so no collection in that stretch deletes it |
| `Lifecycle.OutdatedListingDeletesRouted` | pkg/reconciler/gc/gc.go:54-119 | a run: a collector that listed the revision in reserve deletes it after a route was added |
| `Lifecycle.OutdatedCopyDeletesRouted` | pkg/reconciler/labeler/metasync.go:147-165 | a run: a route added from a copy older than another's finalization leaves the revision routed in reserve, and an up-to-date collector then deletes it |
| `Lifecycle.OutdatedCopyLosesRoute` | pkg/reconciler/labeler/metasync.go:147-165 | a run: two routes added from the same copy, and the second addition loses the first |

## Left out

- HTTP, WebSocket, TLS, Kubernetes clients, informers, logging and telemetry: I/O. Probe
  results and API success appear as inputs, and so does every copy read through a lister:
  in `Metasync` a sync's two reads are a parameter, in `Lifecycle` each event carries the
  copies it read, each of them any version the revision has had so far.
- Floating point: values of rings, samples and scaling decisions are reals; the codec
  treats floats as 64-bit patterns. Conversion of desired counts to int32 is taken to be
  in range, as are times and counts in Go integers.
- Bucket times are whole bucket numbers and windows whole multiples of the granularity; no
  window being copied reaches below the Unix epoch, where the code's index would be negative.
- The n-th root in `computeSmoothingCoeff` is a parameter r with r^n = 1 - 0.9999.
- NewBreaker's panics on bad parameters: they are the validity condition of `Breaker`, with
  the documented bound of MaxInt32; updates set capacities within the channel size, as the
  throttler's do (`Throttler.CapacityFits`).
- Fairness of the Go scheduler: `Breaker.ParkedWaiterIsServed` shows a short way to service
  from every state, not that the scheduler takes it.
- A partly filled message after a decoding error: the model's decoder returns the error only.
- The three generated decoders are one decoder over a table of fields, since they differ in
  nothing else.
- The watcher's stop channel, and its reports being dropped after it closes.
- The scale-down delay window of the autoscaler: taken as absent. A spec update between two
  reads of the spec inside one evaluation is not modelled either.
- The average concurrency in concurrency reports: only request counts are modelled; whether
  a stat was idle is left open, which covers every case.
- Load-balancing policies, per-pod breakers' reservations, and weights of pod trackers:
  they would add only small members.
- Stat forwarding and leases: Kubernetes and WebSocket calls.
- Metadata other than the routes annotation, the routing-state label, its time and the
  preserved annotation; writes to these by anyone but the configuration controller and the
  labeler; a revision template that brings its own routes annotation.
- Reference tracking in the labeler, and its errors.
- One clock reading per sync and one per collection: the code reads the clock for each object.
- Gc.Collect: states what is deleted when every delete call succeeds; a failed call leaves
  its revision in place, which `Lifecycle` allows for.
- Metasync.FinalizeRoute: the finalizer's own removal from the route is not modelled.
