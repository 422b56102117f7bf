# Verified models of the sk_comm library

sk_comm is a C utility library. This project models its components with the most state and the most arithmetic in Dafny, in the form the C code has
(classes with fields for structs changed in place, arrays for buffers, loops with invariants, step relations for threads),
and proves what each of them is there for. `dafny verify dfyconfig.toml` checks everything.

| files | component |
|---|---|
| `ThreadPool`, `ThreadPoolRuns`, `JobQueue` (with `Sums`) | thread pool: job queue, binary semaphore, working counter, `thpool_wait` |
| `Envelope`, `PhaseLock`, `PhaseFound`, `PhaseDecision`, `PhaseRuns`, `PhaseSteering` | NTP phase lock: convex envelopes over a ring of measurements, the frequency decided from them, and what it does to the measurements |
| `JsonText`, `JsonSyntax`, `JsonRoundTrip`, `JsonEscapes`, `JsonNumbers`, `JsonLists`, `JsonParser`, `JsonBlock`, `JsonBuffer`, `JsonPrinter`, `JsonJoiner`, `JsonMinify` (with `Bits`) | cJSON: parser, both printers, and the removal of layout |
| `Xts` | AES-XTS over an abstract block cipher |
| `MqttWire`, `MqttBytes`, `MqttPackets`, `MqttConnect` | MQTT packet codecs, and the layout of the packets |
| `MqttReader` | reading a packet at once and call by call |
| `AckTable`, `AckProtocol`, `AckRuns`, `AckTraffic`, `AckRace`, `AckClient` | MQTT QoS 1 and 2: ack list, handlers, whole runs, the write buffer between threads |
| `TopicMatch` | topic filters |
| `Utf8`, `Utf16`, `Utf8Layout` | conversions and trimming |
| `QuickSort`, `DArray` | in-place sorting and the sorted dynamic array |
| `BlockingQueue`, `MsgQueue` | bounded message queue between threads |
| `Fifo` | byte FIFO under free-running counters |
| `RingList`, `Timers`, `TimerPass`, `TimerLists` | circular lists, and the ordered timer lists over them |
| `Octets`, `Options`, `Words`, `Sequences` | bytes, optional values, 32-bit words, pieces of sequences |

Threads are modelled as interleaved steps: a step is one critical section, or the part of one that ends where another lock is
taken or a condition is waited for. A signal wakes one or more sleepers, and sleepers may wake without one. Runs are
sequences of steps of any length by any number of threads, and the theorems speak of every reachable state.

A method of a class states its whole new state through a function of the old one; what the component promises is then
proved of that function. Where the code does not do what its comments, its return codes or a standard say, the model follows the
code, and a lemma says exactly when the two differ:

- `thpool_wait` (`thpool.c:216-222`) may leave a caller asleep for good when two threads use it (`WaitIsForOneCaller`).
- `search` (`phaselock.c:78-104`) finds the least slope for `sign` = 0 and the greatest for 1; its comment says the reverse.
- Pass 3 of the phase lock compares `check.slope < save_max.slope` where the mirror image of pass 2 would have `>`
  (`phaselock.c:324-325`); on consistent measurements all candidates have the same slope, so that nothing depends on it.
  Their strict comparisons make both passes miss the crossing line when it coincides with an envelope segment, so that
  measurements that agree exactly are thrown away (`FoundExactly`, `ExactDataGrazed`).
- The comment on pass 4 speaks of the polygon of all consistent lines. Where no error bar is smaller than `min_delay`, inconsistent
  measurements have been recognised before (`CrossingsAgree`), the pass's own tests for inconsistency never fail (`BothEntered`),
  and its shift depends on the two outermost lines alone (`OnlyCrossingsMatter`); where one is, inconsistent measurements may
  pass (`InvertedAccepted`).
- Steps of the frequency are cast to int after adding a half, so that a negative one comes out one unit too large
  (`phaselock.c:424`, `NearestExactly`).
- XTS over one buffer destroys the odd tail before it is read (`aes.c:1253-1257`, `InPlaceReversible`).
- A saved PUBLISH longer than 65535 bytes is cut, since its length is kept in 16 bits (`SavedWhole`); the write buffer may be larger.
- A received QoS 2 PUBLISH is recorded after the write lock is given up, from the shared write buffer: what is saved for it
  is its PUBREC exactly when no thread has written in between, unless what was written is a PUBREC too (`OwnExactly`, `OtherSaved`).
- A PUBLISH whose topic cannot be read gets the code for success when its length field is one byte (`PublishAccepted`); so do
  acknowledgements without an id and SUBSCRIBEs whose filters are cut off (`AckAccepted`, `RequestsAccepted`).
- A QoS in a SUBSCRIBE is read through a plain char, and comes back as it was only when it fits into one (`RequestsRoundTrip`).
- An escape cut off by the closing quote leads `parse_string` past its end, where it may write more than it has counted
  (`CutEscape`). It stays inside its block whatever follows the quote exactly when no escape of the literal reaches past it
  (`UncutExactly`), as where every escape has all its digits (`WholeUncut`).
- `cJSON_Minify` runs past the end of a text with an unclosed literal or comment (`cJSON.c:748-749`, `InsideExactly`).
- A CONNECT with an empty password, a password alone, or an empty user name alone is written but refused when read (`ConnectRoundTrip`).
- The reader at once takes a length field that is cut off for a complete one; the resumable reader does not, but takes a
  packet of type 0 for "call again" (`DifferExactly`, `ReadNb`).
- `MQTTPacket_len` is one byte too large at four lengths (`RoomForPacket`).
- A topic filter that ends in "#" does not match its parent level, and wildcards do not match empty levels (`AgreesWithStandard`).
- `msg_que_flush` signals nobody, which strands every putter that sleeps (`FlushStrands`, `FlushCanStrand`); a queue created with maximum 0 blocks both sides (`StuckIffNoRoom`).
- `salof_fifo_read_able` is too large by the buffer size once the counters have wrapped past each other (`ReadAble`, `WrappedState`).
- A keep-timer with interval 0 fires twice in one pass when one behind it is past its time (`OnceExactly`).

## Model

| member | source | states |
|---|---|---|
| `ThreadPoolRuns.EachJobOnce` | src/thpool/thpool.c:456-509 | In every reachable state of any number of workers, waiters and pushers, the pulled jobs are the first pushed ones in order, and each is either in exactly one worker's hand or finished exactly once; no job is lost or run twice. |
| `ThreadPoolRuns.WaitMeansFinished` | src/thpool/thpool.c:216-222 | When `thpool_wait` has returned, every job pushed before it read the empty queue has finished, once. |
| `ThreadPoolRuns.WaitIsForOneCaller` | src/thpool/thpool.c:216-222 | No caller is ever left asleep and unsignalled with an empty queue and nobody working if and only if at most one thread calls `thpool_wait` (or there is no worker). |
| `ThreadPoolRuns.TwoWaiters` | src/thpool/thpool.c:392-397 | With a worker and two callers a run exists after which the second caller sleeps for good: one signal wakes one of them. |
| `ThreadPoolRuns.RunIsBounded` | src/thpool/thpool.c:371-400 | However it is scheduled, the pool takes no more than a computed number of steps before it needs new work, a new call or a spurious wakeup. |
| `ThreadPoolRuns.QuietMeansDrained` | src/thpool/thpool.c:336-406 | A reachable pool with a worker that can take no step of its own has run every job pushed, and a lone caller of `thpool_wait` is not asleep: no wakeup is lost on the way. |
| `ThreadPoolRuns.ReachableInv` | src/thpool/thpool.c:336-406 | Every reachable state satisfies the whole invariant, and a lone waiter that is asleep or about to sleep still has work or a busy worker ahead of it. |
| `ThreadPool.InvKept` | src/thpool/thpool.c:336-509 | Every step of every thread keeps the conjunction of the invariants below. |
| `ThreadPool.MutexesKept` | src/thpool/thpool.c:456-509 | The queue mutex is held by whom the program counters say, and at most one caller is inside `thcount_lock`. |
| `ThreadPool.CounterKept` | src/thpool/thpool.c:377-397 | `num_threads_working` is the number of busy workers. |
| `ThreadPool.JobsAnnouncedKept` | src/thpool/thpool.c:456-509 | While jobs are queued the semaphore is up, or a post is on its way, or a worker that took it has still to pull. |
| `ThreadPool.PostHeardKept` | src/thpool/thpool.c:546-571 | With the semaphore up, a worker sleeps unsignalled only if another one has been signalled. |
| `ThreadPool.AccountedKept` | src/thpool/thpool.c:456-509 | Pulled and queued jobs together are the pushed ones in order, and pulled ones are in hand or finished as often as they were pulled. |
| `ThreadPool.WaitersInformedKept` | src/thpool/thpool.c:216-222 | What a waiter has concluded from the two reads stays true while pushers and workers go on. |
| `ThreadPool.EmptyAndIdle` | src/thpool/thpool.c:216-222 | An empty queue read while nobody works means that all jobs pushed so far have finished. |
| `JobQueue.Queue.Push` | src/thpool/thpool.c:456-480 | The linked queue, whose `prev` links lead from front to rear, gets the job behind all others. |
| `JobQueue.Queue.Pull` | src/thpool/thpool.c:483-509 | The first job is handed out, null from an empty queue; the semaphore is posted again exactly when jobs are left. |
| `Envelope.EnvelopeIsGreatest` | src/sntpd/phaselock.c:285-312 | The chain of segments is the greatest convex curve under the points: no line under all points is above it anywhere. |
| `Envelope.StaysBelow` | src/sntpd/phaselock.c:285-312 | The least-slope continuation of a chain is under all points, earlier ones included. |
| `Envelope.CrossingIsExtreme` | src/sntpd/phaselock.c:285-312 | If some line lies within all error bars, the check line kept by pass 2 does so with the least slope of all such lines. |
| `Envelope.MirroredCrossingIsExtreme` | src/sntpd/phaselock.c:318-345 | In the mirror image, the check line kept by pass 3 has the greatest slope of all such lines. |
| `PhaseLock.Ring.SegmentTo` | src/sntpd/phaselock.c:92-98 | Slope and offset computed from 32-bit time differences are those of the line through the two points, whether or not the clock wraps inside the ring. |
| `PhaseLock.Ring.Search` | src/sntpd/phaselock.c:78-104 | The line returned joins the start to a later point and no later point lies under it (`sign` = 0: least slope, against the comment in the source) or over it (`sign` = 1). |
| `PhaseLock.Ring.PassMax` | src/sntpd/phaselock.c:285-312 | Pass 2 leaves the lower envelope of the upper ends from the oldest to the newest point, within the bounds of the array, and the check line that is to be kept. |
| `PhaseLock.Ring.PassMin` | src/sntpd/phaselock.c:318-345 | Pass 3 leaves the mirror image for the lower ends. |
| `PhaseLock.PassRound` | src/sntpd/phaselock.c:287-305 | One round keeps the chain an envelope of the points passed and the kept check line the right one. |
| `PhaseLock.PickStep` | src/sntpd/phaselock.c:291-296 | A check line is kept exactly when one lies strictly between the segments that meet at its point, and it is the flattest such line (pass 3, seen in the mirror, keeps the steepest: it compares in the same direction as pass 2). |
| `PhaseFound.FoundExactly` | src/sntpd/phaselock.c:285-340 | When some line is consistent with all error bars, a pass misses its check line if and only if a line under all upper ends touches two of them, meets a later lower end and is over all lower ends behind the first (or, in pass 3, the mirror image), or the steepest line from the oldest upper end to a lower end is beyond twice the limit and under all later upper ends: said of the measurements alone. |
| `PhaseFound.FoundOnChain` | src/sntpd/phaselock.c:285-340 | The same in terms of the envelope: no segment is itself a check line, and the limit bars none at the oldest point. |
| `PhaseFound.ExactDataGrazed` | src/sntpd/phaselock.c:291-296 | Measurements without error that lie on one line are such a case. |
| `PhaseFound.NothingFound` | src/sntpd/phaselock.c:285-340 | With sixteen of them one second apart a pass finds nothing. |
| `PhaseFound.Unaccepted` | src/sntpd/phaselock.c:287-305 | Along an envelope of consistent measurements a check line must be accepted before the newest point is reached, unless one of the two exceptions holds. |
| `PhaseLock.Ring.Correct` | src/sntpd/phaselock.c:257-278 | Pass 1 puts each error bar where it would be had the frequency always been the present one: the drift of all newer settings is taken off. |
| `PhaseLock.Ring.Record` | src/sntpd/phaselock.c:247-253 | A measurement replaces the oldest one; the other fifteen keep their order. |
| `PhaseLock.Ring.Advance` | src/sntpd/phaselock.c:442-442 | The slot after the newest measurement is the next one to be written. |
| `PhaseLock.Ring.Envelopes` | src/sntpd/phaselock.c:256-345 | Passes 1 to 3 together: corrected error bars, both envelopes, both check lines, which bound the slopes of all consistent lines from both sides. |
| `PhaseDecision.LeastIsAttained` | src/sntpd/phaselock.c:170-186 | The shift kept is a lower bound of the shifts of all points and one of them, unless all exceed the initial bound. |
| `PhaseDecision.FindShift` | src/sntpd/phaselock.c:153-168 | A point's shift is never negative, and 0 exactly on the right side of one of the two target lines. |
| `PhaseDecision.Polygon.Point` | src/sntpd/phaselock.c:170-186 | After a point, the two shifts kept are the least over all points seen. |
| `PhaseDecision.TakenAreWithin` | src/sntpd/phaselock.c:356-392 | The segments that count are exactly those whose slope is behind the first line's and not behind the second's. |
| `PhaseDecision.EnteredWhenTaken` | src/sntpd/phaselock.c:356-399 | On a monotone envelope, as soon as one segment counts the envelope is not declared inconsistent. |
| `PhaseDecision.Splice` | src/sntpd/phaselock.c:356-401 | Each loop of pass 4 passes on exactly those segments, reports exactly whether it was entered, and leaves the array with the two lines in their slots. |
| `PhaseDecision.FindDf` | src/sntpd/phaselock.c:120-145 | Only a shift asked for on one side alone moves the frequency, and by that shift. |
| `PhaseDecision.CenterApproaches` | src/sntpd/phaselock.c:194-223 | Between lines in order `find_df_center` never divides by 0, and shifts towards the range between the two slides without passing its nearer end, all of the way only when the lines coincide. |
| `PhaseDecision.Decide` | src/sntpd/phaselock.c:352-440 | Passes 4 and 5 compute the clamped frequency from the least shifts over all constraining lines and from the middle of the two crossing lines, and leave it alone on inconsistent data. |
| `PhaseDecision.Consider` | src/sntpd/phaselock.c:254-441 | On a full ring the frequency is what passes 4 and 5 make of sound results of passes 1 to 3, and stays within the limit or unchanged. |
| `PhaseDecision.Contemplate` | src/sntpd/phaselock.c:225-445 | One call: the new measurement replaces the oldest, the frequency is untouched until sixteen are there, and then decided as above; times need to increase only from then on. |
| `Envelope.CrossingsAgree` | src/sntpd/phaselock.c:285-345 | Where no error bar is negative, two crossing lines are found only of measurements that are consistent with each other, and both lines are, in order of slope and offset: inconsistent measurements never get past pass 3. |
| `PhaseRuns.CrossingsExactly` | src/sntpd/phaselock.c:285-345 | Given both crossing lines, some line is consistent if and only if no error bar is negative. |
| `PhaseRuns.InvertedAccepted` | src/sntpd/phaselock.c:249-249 | With one negative error bar both passes can find lines of inconsistent measurements. |
| `PhaseRuns.ConstraintsConsistent` | src/sntpd/phaselock.c:346-401 | Every line that pass 4 looks at is consistent with the measurements. |
| `PhaseRuns.OnlyCrossingsMatter` | src/sntpd/phaselock.c:153-189 | The least shift of all lines pass 4 looks at, and of all consistent lines, is to the left that of the steepest and to the right that of the flattest: all others never change the decision. |
| `PhaseRuns.BothEntered` | src/sntpd/phaselock.c:369-399 | With both lines found, and in order of slope as they are where no error bar is negative, the two inconsistency tests inside pass 4 never fail. |
| `PhaseRuns.DecisionSettles` | src/sntpd/phaselock.c:254-441 | All five passes, where no error bar is negative: measurements that no line is consistent with, or whose crossing line a pass misses, leave the frequency alone, and all others steer it by their two outermost consistent lines. |
| `PhaseRuns.Run` | src/sntpd/phaselock.c:225-445 | From an empty ring, over any number of calls: the first fifteen return the frequency given, and from the sixteenth on the last sixteen measurements decide as above. |
| `PhaseSteering.TiltedConsistent` | src/sntpd/phaselock.c:254-279 | A line is consistent with the error bars of the measurements, corrected to one frequency, if and only if the line with the same newest offset and a slope larger by the difference of the frequencies, over 65536, is consistent with those corrected to the other. |
| `PhaseSteering.BarsAboutLine` | src/sntpd/phaselock.c:271-277 | If a clock gains at a rate of its own, less 1/65536 for every unit of the frequency it runs at, then at every frequency its corrected error bars are about the one line it would have followed there. |
| `PhaseSteering.Steers` | src/sntpd/phaselock.c:407-440 | Where the measurements are usable, the outermost consistent lines seen at the new frequency are the old ones tilted alike, by the shift that both sides agree on and the step towards the middle, but for rounding and the limit; a shift to the left raises the slopes by that much at least, one to the right lowers them, and a step of 0 leaves the frequency. |
| `PhaseSteering.Arrives` | src/sntpd/phaselock.c:407-440 | So the line that had the least far to go to a target line is there afterwards, within half a unit to the left and one and a half to the right. |
| `PhaseSteering.CenterAgrees` | src/sntpd/phaselock.c:190-223 | The step towards the middle never takes back any of a shift. |
| `PhaseSteering.CenterExactly` | src/sntpd/phaselock.c:190-223 | That step times the spread of the two lines is 1000 times the way from the middle slope to the nearest one that takes the middle offset to 0 in 600 to 1800 seconds, or 0 when all offsets are large. |
| `PhaseSteering.ShiftLeft` | src/sntpd/phaselock.c:153-168 | A line moved by s towards its target asks for s less, until it asks for nothing. |
| `PhaseSteering.OnTarget` | src/sntpd/phaselock.c:153-189 | It asks for nothing exactly on the right side of one of the two target lines. |
| `PhaseSteering.NearestExactly` | src/sntpd/phaselock.c:424-424 | The cast rounds to the nearest unit if and only if the step is not below minus half a unit or half a unit is left exactly: other negative steps come out one unit too large. |
| `JsonRoundTrip.RoundTrip` | src/cJSON/cJSON.c:326-340 | For every tree of null, booleans, 32-bit integers, NUL-free strings, arrays and objects, formatted or not, parsing the printed text gives the same tree and ends at its end. |
| `JsonRoundTrip.ValueRoundTrip` | src/cJSON/cJSON.c:360-406 | The same anywhere inside a text, at any depth. |
| `JsonRoundTrip.StringRoundTrip` | src/cJSON/cJSON.c:195-310 | Every NUL-free string is read back from its literal, short escapes and \\u00xx ones included. |
| `JsonRoundTrip.NumberRoundTrip` | src/cJSON/cJSON.c:99-117 | Every integer is read back from its decimal digits, whatever non-numeric character follows. |
| `JsonRoundTrip.ArrayRoundTrip` | src/cJSON/cJSON.c:409-514 | Arrays are read back with all items in order. |
| `JsonRoundTrip.ObjectRoundTrip` | src/cJSON/cJSON.c:517-661 | Objects are read back with all members in order, through any layout the printer makes. |
| `JsonParser.NumberAt` | src/cJSON/cJSON.c:99-117 | The loops of parse_number compute sign, digits, fraction and exponent as the grammar function reads them. |
| `JsonParser.StringAt` | src/cJSON/cJSON.c:195-252 | The unescaping loop gives the bytes and the end position the grammar function gives, surrogate pairs and malformed escapes included. |
| `JsonEscapes.EscapeStandsFor` | src/cJSON/cJSON.c:215-240 | For every code point from 1 to 0x10FFFF that is no surrogate, its escape (or its pair of escapes, for 0x10000 + (h - 0xD800) * 0x400 + (l - 0xDC00)), in digits of either case, is read as bytes laid out as RFC 3629 says: first byte by range, six bits in each that follows, and the weighted sum the code point. |
| `JsonEscapes.LiteralStandsFor` | src/cJSON/cJSON.c:195-252 | A literal of that escape is the string of these bytes, and ends behind its quote. |
| `JsonEscapes.LayoutOnly` | src/cJSON/cJSON.c:230-239 | Only one string of bytes is laid out so. |
| `JsonEscapes.EscapeExists` | src/cJSON/cJSON.c:215-228 | Every such code point has such an escape. |
| `JsonEscapes.ShortEscapes` | src/cJSON/cJSON.c:208-214 | The one-letter escapes stand for codes 8, 9, 10, 12 and 13, and any other character behind a backslash for itself. |
| `JsonNumbers.NumeralRead` | src/cJSON/cJSON.c:99-117 | Every numeral of sign, whole digits, fraction and exponent is read as the number it stands for by the places of its digits, and consumed whole. |
| `JsonBlock.StringInBlock` | src/cJSON/cJSON.c:195-252 | With the block counted beforehand, for every text whose bytes and NUL stay inside it: exactly the bytes and the end that the grammar function gives. `UncutExactly`, `StaysInBlock` and `OpenFits` say which texts these are. |
| `JsonBlock.UncutExactly` | src/cJSON/cJSON.c:200-246 | A literal's bytes and NUL fit the block counted for it, whatever follows its closing quote, if and only if none of its characters and escapes reaches past that quote. |
| `JsonBlock.OpenFits` | src/cJSON/cJSON.c:200-246 | A literal without a closing quote always fits. |
| `JsonBlock.StaysInBlock` | src/cJSON/cJSON.c:200-203 | Where no escape reaches past the closing quote, no more bytes are written than were counted, through escapes of any kind and two passes that may have lost step. |
| `JsonBlock.CutEscape` | src/cJSON/cJSON.c:220-220 | Behind an escape cut off by the closing quote the second pass goes on, and writes more than was counted, or no more, as it finds what follows: one text of each kind. |
| `JsonBlock.WholeContained` | src/cJSON/cJSON.c:200-245 | When every escape with a number has its digits, both passes end at the same quote. |
| `JsonBlock.WholeUncut` | src/cJSON/cJSON.c:200-245 | So none reaches past it, and the bytes fit. |
| `JsonBlock.PrintedWhole` | src/cJSON/cJSON.c:255-310 | What the printer writes is such a text. |
| `JsonParser.ValueAt` | src/cJSON/cJSON.c:360-372 | The recursive parser returns what the grammar function says, failures included. |
| `JsonParser.ArrayAt` | src/cJSON/cJSON.c:409-434 | Its loop over items, with the same end or failure. |
| `JsonParser.MemberAt` | src/cJSON/cJSON.c:526-545 | A name, a colon and a value, or failure. |
| `JsonParser.ObjectAt` | src/cJSON/cJSON.c:517-550 | Its loop over members, with the same end or failure. |
| `JsonParser.Parse` | src/cJSON/cJSON.c:326-340 | A value is returned only if nothing but white space follows it. |
| `JsonLists.ItemsExactly` | src/cJSON/cJSON.c:417-434 | A text is read as a list of items if and only if these values stand there with one comma between any two of them, in any white space, and a closing bracket behind the last. |
| `JsonLists.MembersExactly` | src/cJSON/cJSON.c:526-550 | The same for the members of an object and its brace. |
| `JsonLists.MemberExactly` | src/cJSON/cJSON.c:526-545 | A member is a name, a colon and a value, in any white space. |
| `JsonLists.ValueExactly` | src/cJSON/cJSON.c:360-372 | A value other than a number is read exactly as its first character, its literal or its brackets say. |
| `JsonLists.SkipExactly` | src/cJSON/cJSON.c:323-323 | White space ends at the first character that is none. |
| `JsonBuffer.TextNulFree` | src/cJSON/cJSON.c:255-310 | Printed text never holds a NUL, so that finding its end by `strlen` is right. |
| `Bits.Pow2Gt` | src/cJSON/cJSON.c:120-120 | The bit smearing gives the least power of two that is not below its argument. |
| `JsonBuffer.PrintBuffer.Ensure` | src/cJSON/cJSON.c:124-139 | After it the bytes asked for fit, and all written before is still there. |
| `JsonBuffer.PrintBuffer.Update` | src/cJSON/cJSON.c:141-147 | The offset comes to stand exactly behind what a child printed. |
| `JsonPrinter.Literal` | src/cJSON/cJSON.c:255-310 | The literal and the room computed for it, which is exactly its length and the NUL. |
| `JsonPrinter.RoomFor` | src/cJSON/cJSON.c:281-281 | The length pass counts every escape as long as it is written. |
| `JsonPrinter.PrintValue` | src/cJSON/cJSON.c:375-406 | Into the growing buffer, behind what is there: exactly the text of the tree, NUL-terminated, never past the block. |
| `JsonPrinter.PrintArray` | src/cJSON/cJSON.c:437-471 | The same for arrays. |
| `JsonPrinter.PrintObject` | src/cJSON/cJSON.c:553-610 | The same for objects. |
| `JsonJoiner.JoinValue` | src/cJSON/cJSON.c:375-406 | Through blocks of its own for every child: exactly the same text. |
| `JsonJoiner.JoinArray` | src/cJSON/cJSON.c:472-514 | The room added up for all items is enough for the joined text. |
| `JsonJoiner.JoinObject` | src/cJSON/cJSON.c:611-661 | The room added up for all members and their tabs is enough for the joined text. |
| `JsonJoiner.Print` | src/cJSON/cJSON.c:345-346 | The allocate-and-join printer gives the text of the tree. |
| `JsonJoiner.PrintBuffered` | src/cJSON/cJSON.c:348-356 | The growing-buffer printer gives the same text for every positive prebuffer. |
| `JsonMinify.MinifiedText` | src/cJSON/cJSON.c:738-753 | Of the printed text of a tree, formatted or not, `cJSON_Minify` leaves the unformatted text: the two differ in layout alone, and the unformatted text has none. |
| `JsonMinify.Minify` | src/cJSON/cJSON.c:738-753 | In place, the loop leaves exactly what the grammar function leaves, behind it a NUL, when all literals and comments are closed. |
| `JsonMinify.InsideExactly` | src/cJSON/cJSON.c:747-749 | The walk ends at the NUL of the text if and only if they are; otherwise it goes on behind it. |
| `JsonMinify.CopyLiteral` | src/cJSON/cJSON.c:749-749 | A literal is copied up to and with its closing quote, escaped quotes included. |
| `Xts.RoundTrip` | src/mqttc/network/mbedtls/library/aes.c:1171-1275 | For every data unit of at least one block, stolen tail included, decryption undoes encryption and encryption decryption, given only that the block functions are inverse. |
| `Xts.Crypt` | src/mqttc/network/mbedtls/library/aes.c:1171-1275 | The array code writes what sections 5.3 and 5.4 of IEEE 1619 say for every length: each whole block under the tweak of its place, and of a unit with a tail the last two under the last two tweaks, in the order of the mode. It touches nothing behind the unit, and refuses lengths below 16 or above 2^20 blocks without touching anything. |
| `Xts.UnitIsStandard` | src/mqttc/network/mbedtls/library/aes.c:1206-1275 | The unit function is what the standard says, for every length and both modes. |
| `Xts.MaskedIs` | src/mqttc/network/mbedtls/library/aes.c:1222-1230 | A block is masked by exclusive-or with the tweak on both sides of the block function. |
| `Xts.MulXInField` | src/mqttc/network/mbedtls/library/aes.c:1153-1166 | The next tweak is the product with x modulo x^128 + x^7 + x^2 + x + 1, coefficient by coefficient. |
| `Xts.GfMulX` | src/mqttc/network/mbedtls/library/aes.c:1153-1166 | Two shifted 64-bit words are the sixteen bytes multiplied by x in the field. |
| `Xts.MulXInverts` | src/mqttc/network/mbedtls/library/aes.c:1153-1166 | Multiplication of the tweak by x can be undone: tweaks never merge along a unit. |
| `Xts.InPlaceWhole` | src/mqttc/network/mbedtls/library/aes.c:1171-1275 | Over the same buffer nothing changes for whole blocks. |
| `Xts.InPlaceDropsTail` | src/mqttc/network/mbedtls/library/aes.c:1249-1257 | Over the same buffer an odd tail is overwritten before it is read: it has no influence on the result. |
| `Xts.InPlaceReversible` | src/mqttc/network/mbedtls/library/aes.c:1238-1272 | Units of a given length survive encryption in place if and only if the length is a multiple of 16. |
| `Xts.Blocks` | src/mqttc/network/mbedtls/library/aes.c:1206-1236 | The loop over the whole blocks, with the tweaks that the last two rounds need in each direction. |
| `Xts.Mix` | src/mqttc/network/mbedtls/library/aes.c:1249-1262 | The bytes of the last round: tail and end of the block before, whose head moves behind it. |
| `Xts.Steal` | src/mqttc/network/mbedtls/library/aes.c:1238-1272 | Ciphertext stealing completes the unit. |
| `MqttBytes.LengthRoundTrip` | src/mqttc/mqtt/MQTTPacket.c:29-81 | The length field decodes to the length encoded, and to its own size, for 0 to 268435455. |
| `MqttBytes.LengthMinimal` | src/mqttc/mqtt/MQTTPacket.c:29-45 | No field of up to four bytes that decodes to a length is shorter than the one encoded. |
| `MqttBytes.Encode` | src/mqttc/mqtt/MQTTPacket.c:29-45 | The loop writes the base-128 digits and nothing behind them. |
| `MqttBytes.Decode` | src/mqttc/mqtt/MQTTPacket.c:54-81 | The loop computes the value and the bytes counted, 5 when the field does not end. |
| `MqttBytes.FieldSize` | src/mqttc/mqtt/MQTTPacket.c:29-45 | The number of bytes of a field by the size of its value. |
| `MqttBytes.RoomForPacket` | src/mqttc/mqtt/MQTTPacket.c:84-97 | The room asked for a packet is its size, and one byte more at exactly 127, 16383, 2097150 and 2097151. |
| `MqttBytes.LengthsAgree` | src/mqttc/mqtt/MQTTPacket.c:194-252 | The length counted for a string is the length written if and only if its two forms do not contradict each other. |
| `MqttBytes.WriteString` | src/mqttc/mqtt/MQTTPacket.c:194-207 | Count and bytes of whichever form is used. |
| `MqttBytes.StringRead` | src/mqttc/mqtt/MQTTPacket.c:215-234 | A string written is read back, with the position behind it. |
| `MqttPackets.PublishRoundTrip` | src/mqttc/mqtt/MQTTDeserializePublish.c:36-69 | Deserializing a serialized PUBLISH gives all of its fields back; the packet id stays what it was for QoS 0. |
| `MqttPackets.SerializePublish` | src/mqttc/mqtt/MQTTSerializePublish.c:31-91 | The exact bytes and their number, each field at its place in the buffer (`MqttWire`), or "too short" with the buffer untouched, by `MQTTPacket_len`. |
| `MqttPackets.PublishLaidOut` | src/mqttc/mqtt/MQTTSerializePublish.c:70-83 | The first byte has 3 in bits 7-4, DUP in bit 3, QoS in bits 2-1 and RETAIN in bit 0; then come the length field, the topic behind its length, high byte first, the id when QoS > 0, and the payload. |
| `MqttPackets.LengthOnWire` | src/mqttc/mqtt/MQTTPacket.c:29-50 | The length field has seven bits a byte, lowest first, and the top bit in all bytes but the last. |
| `MqttPackets.PublishAccepted` | src/mqttc/mqtt/MQTTDeserializePublish.c:36-69 | The code 1 is returned exactly for a readable PUBLISH or one whose length field is one byte: an unreadable topic is then reported as success. |
| `MqttPackets.HeaderRead` | src/mqttc/mqtt/MQTTDeserializePublish.c:46-51 | Type, DUP, QoS and RETAIN are read back from the header byte. |
| `MqttPackets.SerializeAck` | src/mqttc/mqtt/MQTTSerializePublish.c:104-128 | The four bytes of an acknowledgement, each at its place: type in bits 7-4, DUP in bit 3, QoS 1 for PUBREL, the length 2, and the id, high byte first. |
| `MqttPackets.AckRoundTrip` | src/mqttc/mqtt/MQTTDeserializePublish.c:82-107 | An acknowledgement is read back with its type, DUP and id. |
| `MqttPackets.AckAccepted` | src/mqttc/mqtt/MQTTDeserializePublish.c:82-107 | The code 1 is returned exactly with an id or for a length field of one byte: the packet 40 00 is reported as success without an id. |
| `MqttPackets.RequestsRoundTrip` | src/mqttc/mqtt/MQTTSubscribeServer.c:35-70 | SUBSCRIBE and UNSUBSCRIBE are read back with id and all filters, any number of them, and each QoS as a plain char of it reads; the list itself comes back if and only if every QoS fits into a char, whose sign the C implementation decides. |
| `MqttPackets.RequestsAccepted` | src/mqttc/mqtt/MQTTSubscribeServer.c:50-66 | The code 1 is returned exactly with the list of filters, or for the right type and a length field of one byte. |
| `MqttPackets.CutListAccepted` | src/mqttc/mqtt/MQTTSubscribeServer.c:56-66 | Such a packet whose only filter is cut off is reported as success. |
| `MqttPackets.RequestsBack` | src/mqttc/mqtt/MQTTUnsubscribeServer.c:34-66 | The filter list is read back up to its end. |
| `MqttPackets.RequestsLength` | src/mqttc/mqtt/MQTTSubscribeClient.c:28-36 | The length computed beforehand is the length of the list written. |
| `MqttPackets.SerializeRequests` | src/mqttc/mqtt/MQTTSubscribeClient.c:50-86 | The exact bytes of either request, or "too short" with the buffer untouched. |
| `MqttPackets.SerializeSubscribe` | src/mqttc/mqtt/MQTTSubscribeClient.c:50-86 | SUBSCRIBE, type 8 with QoS 1 in the first byte, with id and every filter and QoS at its place; refused exactly when `MQTTPacket_len` of it exceeds the buffer. |
| `MqttPackets.SerializeUnsubscribe` | src/mqttc/mqtt/MQTTUnsubscribeClient.c:49-82 | UNSUBSCRIBE, type 10, in the same way without QoS bytes. |
| `MqttPackets.RequestsAt` | src/mqttc/mqtt/MQTTSubscribeServer.c:56-64 | The reading loop returns the list the grammar function reads, or nothing when a filter or QoS is cut off. |
| `MqttPackets.DeserializeSubscribe` | src/mqttc/mqtt/MQTTSubscribeServer.c:35-70 | Return code, id and list, or the error of a wrong type. |
| `MqttPackets.DeserializeUnsubscribe` | src/mqttc/mqtt/MQTTUnsubscribeServer.c:34-66 | The same for UNSUBSCRIBE. |
| `MqttConnect.ConnectRoundTrip` | src/mqttc/mqtt/MQTTConnectServer.c:51-108 | Deserializing a serialized CONNECT gives all options back if a password comes with a user name and is not empty and a user name alone is not empty, and is refused otherwise. |
| `MqttConnect.EmptyPasswordRefused` | src/mqttc/mqtt/MQTTConnectServer.c:93-99 | A CONNECT with a user name and an empty password is refused. |
| `MqttConnect.LengthExact` | src/mqttc/mqtt/MQTTConnectClient.c:27-48 | The length computed beforehand is the length written. |
| `MqttConnect.FlagsRead` | src/mqttc/mqtt/MQTTConnectServer.c:78-99 | Every option is read back from the flags byte. |
| `MqttConnect.SerializeConnect` | src/mqttc/mqtt/MQTTConnectClient.c:58-121 | The exact bytes, each option at its place in the buffer, or "too short" with the buffer untouched, by `MQTTPacket_len`. |
| `MqttConnect.ConnectLaidOut` | src/mqttc/mqtt/MQTTConnectClient.c:72-115 | Type 1, the protocol name "MQTT" or "MQIsdp" with its level, the flags bit by bit, keep-alive, and client id, will topic, will message, user name and password in this order. |
| `MqttConnect.WritePayload` | src/mqttc/mqtt/MQTTConnectClient.c:106-115 | Client id, will, user name and password, each only when present. |
| `MqttConnect.FlagsFor` | src/mqttc/mqtt/MQTTConnectClient.c:90-102 | The flags byte put together bit by bit. |
| `MqttReader.ReadAll` | src/mqttc/mqtt/MQTTPacket.c:362-411 | However the transport chops a stream and however often it says "call again", the packet ends up in the buffer as from the reader at once, with its type; only a transport error, a field of five bytes or a packet too long for the buffer ends in -1. From a transport that brings the whole stream a packet is got if and only if its length field and body are all there and fit. |
| `MqttReader.ReadPackets` | src/mqttc/mqtt/MQTTPacket.c:362-411 | Called again and again on a stream of several packets, it delivers them one after another, each from where the last one ended, and all of them from a transport without errors that brings the whole stream. |
| `MqttReader.SentRead` | src/mqttc/mqtt/MQTTPacket.c:362-411 | What was sent as packets, each with its length field in the shortest form, comes as these packets, whatever follows. |
| `MqttReader.Transport.ReadNb` | src/mqttc/mqtt/MQTTPacket.c:362-411 | Every call that returns 0 leaves fields and buffer those of the bytes taken so far; a packet of type 0 is the one exception, whose end looks like "call again". |
| `MqttReader.Transport.DecodeNb` | src/mqttc/mqtt/MQTTPacket.c:324-353 | The resumable length decoder keeps multiplier, value and count those of the bytes taken, and fails only on a transport error or a field that does not end. |
| `MqttReader.Transport.ReadBody` | src/mqttc/mqtt/MQTTPacket.c:391-406 | The body grows by what each call brings until the packet is complete. |
| `MqttReader.FieldByte` | src/mqttc/mqtt/MQTTPacket.c:334-347 | The next byte completes the field or goes on with it, exactly by its top bit. |
| `MqttReader.ResumeDecoding` | src/mqttc/mqtt/MQTTPacket.c:324-353 | Decoding may be resumed after any byte with the same outcome. |
| `MqttReader.Read` | src/mqttc/mqtt/MQTTPacket.c:290-316 | The reader at once returns the type exactly for a packet that fits and is all there, with the length field in its shortest form. |
| `MqttReader.DifferExactly` | src/mqttc/mqtt/MQTTPacket.c:301-314 | The reader at once accepts exactly these streams more: those that end in a length field whose bytes come to 0, and those whose field does not end after four bytes. |
| `MqttReader.CutFieldsAccepted` | src/mqttc/mqtt/MQTTPacket.c:301-304 | Among them a lone header byte, and a field whose four bytes all say that more follow. |
| `MqttReader.DecodeStream` | src/mqttc/mqtt/MQTTPacket.c:54-81 | A field that is cut off counts as what was read of it. |
| `AckRuns.ExactlyOnce` | src/mqttc/mqttclient/mqttclient.c:817-865 | Over any run of PUBLISH, duplicates, PUBREL, scans, reconnects and state changes, the deliveries of a QoS 2 id are the handshakes it ended, and one more while one is open. |
| `AckRuns.AtMostOnce` | src/mqttc/mqttclient/mqttclient.c:817-885 | Between two handled PUBRELs an id is delivered at most once. |
| `AckTraffic.Traffic` | src/mqttc/mqttclient/mqttclient.c:385-885 | Over any run, what is delivered and what is sent, in order, told from the events: QoS 0 at once, QoS 1 with its PUBACK (40), QoS 2 with its PUBREC (50) and unless its handshake is open; PUBREL (62) for a PUBREC, PUBCOMP (70) for a PUBREL, and the packet itself for a publication or request that is taken. |
| `AckTraffic.LowDelivered` | src/mqttc/mqttclient/mqttclient.c:837-864 | Every message with QoS 0 or 1 is delivered as often as it arrives while connected (and is acknowledged, for QoS 1), and all of them in that order. |
| `AckTraffic.OneEvent` | src/mqttc/mqttclient/mqttclient.c:700-864 | One event delivers and sends just that. |
| `AckTraffic.OneEventElse` | src/mqttc/mqttclient/mqttclient.c:1482-1569 | One event changes the connection and the packet id in the cases named and no others, and a publication is under way exactly when it was taken and had no node. |
| `AckTraffic.OneEventSaves` | src/mqttc/mqttclient/mqttclient.c:385-493 | And it leaves just these packets to be sent again, by type and id. |
| `AckProtocol.InvKept` | src/mqttc/mqttclient/mqttclient.c:385-885 | Every handler keeps: the counter is the number of nodes; no two share type and id; every unfinished publication has its PUBACK, PUBREC or PUBCOMP node with the packet to send again; every such PUBACK or PUBREC node has its publication; open handshakes are exactly the PUBREL nodes. |
| `AckRuns.ReachableSound` | src/mqttc/mqttclient/mqttclient.c:1168-1237 | So it holds in every state reachable from a new client, whatever size but 3 was asked for the write buffer. |
| `AckRuns.RunSound` | src/mqttc/mqttclient/mqttclient.c:385-885 | And over every run from a sound state. |
| `AckProtocol.PublishKept` | src/mqttc/mqttclient/mqttclient.c:1482-1569 | For `mqtt_publish`, with any outcome of the send. |
| `AckProtocol.RequestKept` | src/mqttc/mqttclient/mqttclient.c:1398-1480 | For subscribe and unsubscribe. |
| `AckProtocol.GotPublishKept` | src/mqttc/mqttclient/mqttclient.c:817-865 | For a received PUBLISH of any QoS. |
| `AckProtocol.GotAckKept` | src/mqttc/mqttclient/mqttclient.c:740-815 | For every acknowledgement; PUBREC hands its publication over to the PUBCOMP node without a gap. |
| `AckProtocol.ScanKept` | src/mqttc/mqttclient/mqttclient.c:604-635 | For a scan, whatever has timed out and whatever can be sent. |
| `AckProtocol.SavedWhole` | src/mqttc/mqttclient/mqttclient.c:385-405 | The saved packet is the sent one with only DUP set if and only if it has at most 65535 bytes. |
| `AckProtocol.SavedReads` | src/mqttc/mqttclient/mqttclient.c:68-86 | A receiver reads the same message, marked as a duplicate, from the saved packet. |
| `AckRuns.ReconnectResends` | src/mqttc/mqttclient/mqttclient.c:604-635 | Right after a reconnect every unfinished publication that can be sent is sent again. |
| `AckRuns.ScanSendsOnly` | src/mqttc/mqttclient/mqttclient.c:415-428 | A scan sends nothing but saved publications that are unfinished, the PUBRECs of open handshakes, and the PUBRELs of PUBCOMP nodes (a stray PUBREC makes such a node without a publication). |
| `AckRuns.IdsCycle` | src/mqttc/mqttclient/mqttclient.c:115-121 | Packet ids are never 0 and come back after exactly 65534 of them. |
| `AckProtocol.Recorded` | src/mqttc/mqttclient/mqttclient.c:450-469 | Recording adds one entry to the table of saved packets, or none when the key exists. |
| `AckProtocol.Unrecorded` | src/mqttc/mqttclient/mqttclient.c:471-493 | Unrecording takes exactly one key out, and the counter follows. |
| `AckTable.TableSize` | src/mqttc/mqttclient/mqttclient.c:430-469 | No two nodes share type and id if and only if the table has as many entries as the list has nodes. |
| `AckTable.Removed` | src/mqttc/mqttclient/mqttclient.c:471-493 | Removing nodes from the list removes the key from the table. |
| `AckTable.RemovedOne` | src/mqttc/mqttclient/mqttclient.c:471-493 | Only one node leaves a list without duplicates. |
| `AckTable.Kept` | src/mqttc/mqttclient/mqttclient.c:604-635 | A scan drops exactly the due nodes that belong to no QoS handshake. |
| `AckTable.SentAgain` | src/mqttc/mqttclient/mqttclient.c:604-635 | A scan sends every due handshake packet that can be sent. |
| `AckTable.OnlySaved` | src/mqttc/mqttclient/mqttclient.c:604-635 | And no other. |
| `AckRace.SavedAs` | src/mqttc/mqttclient/mqttclient.c:385-405 | In every run, by any number of threads that share the write buffer, a node holds its packet covered by what was written between giving up the write lock and recording; so one recorded under the lock (`mqtt_publish`, subscribe, unsubscribe, PUBREC) holds its own packet. |
| `AckRace.OwnExactly` | src/mqttc/mqttclient/mqttclient.c:837-861 | With no packet of the same type in between, a node holds its own packet if and only if nobody has written anything between the unlocking and the recording. |
| `AckRace.OtherSaved` | src/mqttc/mqttclient/mqttclient.c:837-861 | What another thread writes in between is saved instead, as many bytes of it as the packet has: a run for every such pair of packets. |
| `AckRace.InvKept` | src/mqttc/mqttclient/mqttclient.c:385-469 | Every step of every thread keeps the lock with one holder, the holder's packet at the start of the buffer, and a late recorder's packet covered by what was written since. |
| `AckClient.MqttClient.NodeExists` | src/mqttc/mqttclient/mqttclient.c:430-448 | The list walk finds a node exactly when the table has the key. |
| `AckClient.MqttClient.Record` | src/mqttc/mqttclient/mqttclient.c:450-469 | In place, what the protocol step says, from the start of the write buffer. |
| `AckClient.MqttClient.Unrecord` | src/mqttc/mqttclient/mqttclient.c:471-493 | In place, over a list that shrinks under the walk. |
| `AckClient.MqttClient.Scan` | src/mqttc/mqttclient/mqttclient.c:604-635 | In place, with every packet sent again copied through the write buffer, where it fits. |
| `AckClient.MqttClient.SetPublishDup` | src/mqttc/mqttclient/mqttclient.c:68-86 | Of the packet in the write buffer bit 3 of the first byte is set, and nothing else changes. |
| `AckClient.MqttClient.Publish` | src/mqttc/mqttclient/mqttclient.c:1482-1569 | The new client and the return code are those of the protocol step, in every branch. |
| `AckClient.MqttClient.OnPublish` | src/mqttc/mqttclient/mqttclient.c:817-865 | The handler does what its step says. |
| `AckClient.MqttClient.OnPubrecOrPubrel` | src/mqttc/mqttclient/mqttclient.c:700-738 | Answer, record and unrecord as the step says. |
| `AckClient.MqttClient.OnAnswer` | src/mqttc/mqttclient/mqttclient.c:740-815 | PUBACK, PUBCOMP, SUBACK and UNSUBACK drop their node. |
| `AckClient.MqttClient.Request` | src/mqttc/mqttclient/mqttclient.c:1398-1480 | Subscribe and unsubscribe from the sending on; nothing is recorded without a handler. |
| `AckClient.MqttClient.CleanUp` | src/mqttc/mqttclient/mqttclient.c:560-595 | The list is emptied and the counter 0. |
| `AckClient.MqttClient.NextPacketId` | src/mqttc/mqttclient/mqttclient.c:115-121 | The next id, 1 after the largest. |
| `TopicMatch.PassIsLevelMatching` | src/mqttc/mqttclient/mqttclient.c:303-330 | For every well-formed filter and every topic the one-pass matcher is level-by-level matching in which no wildcard meets an empty level and "#" meets at least one. |
| `TopicMatch.AgreesWithStandard` | src/mqttc/mqttclient/mqttclient.c:303-330 | For topics without empty levels it agrees with section 4.7.1 of MQTT 3.1.1, except that a final "#" needs at least one level. |
| `TopicMatch.Sound` | src/mqttc/mqttclient/mqttclient.c:303-330 | What it matches, the standard matches. |
| `TopicMatch.ParentRefused` | src/mqttc/mqttclient/mqttclient.c:303-330 | "a/#" does not match "a", which the standard lets it. |
| `TopicMatch.EmptyLevelRefused` | src/mqttc/mqttclient/mqttclient.c:303-330 | "+/b" does not match "/b", which the standard lets it. |
| `TopicMatch.LastOfLevel` | src/mqttc/mqttclient/mqttclient.c:317-321 | The inner loop comes to stand on the last character of the level. |
| `TopicMatch.IsMatched` | src/mqttc/mqttclient/mqttclient.c:303-330 | The pointer loop decides what the pass function decides. |
| `Utf16.Utf16RoundTrip` | src/unicode/utf8.c:124-276 | Well-formed NUL-free UTF-16 comes back from UTF-8 unchanged, given room. |
| `Utf16.Utf32RoundTrip` | src/unicode/utf8.c:124-276 | With 32-bit units, so do all characters below 2^31 that are not surrogates. |
| `Utf16.ToUtf8` | src/unicode/utf8.c:124-219 | It succeeds exactly for well-formed units that fit, writes exactly the bytes that the first pass counted and a NUL, and otherwise nothing. |
| `Utf16.Measure` | src/unicode/utf8.c:124-176 | The first pass counts the bytes of the characters, or finds the units malformed. |
| `Utf16.FromUtf8` | src/unicode/utf8.c:243-276 | It succeeds exactly when decoding does, with the units decoded and a NUL within the buffer. |
| `Utf16.UnitsOfPoints` | src/unicode/utf8.c:124-176 | The characters of well-formed units are those units again. |
| `Utf16.Trim` | src/unicode/utf8.c:295-315 | In place, only the byte behind what is kept changes, to NUL. |
| `Utf16.TrimLeavesWholeCharacters` | src/unicode/utf8.c:295-315 | Of a well-formed text cut anywhere, the longest prefix of whole characters is left. |
| `Utf16.FittingIsLongest` | src/unicode/utf8.c:295-315 | That prefix is the longest. |
| `Utf8.CharRoundTrip` | src/unicode/utf8.c:68-120 | Reading undoes writing for every character below 2^31, up to six bytes. |
| `Utf8.PutChar` | src/unicode/utf8.c:85-120 | Written from the last byte to the first, exactly the bytes of the character. |
| `Utf8.ReadChar` | src/unicode/utf8.c:68-83 | The value and the next position, or failure when a byte does not continue. |
| `Utf8.LeadRead` | src/unicode/utf8.c:10-33 | The leading byte tells the length and gives its bits back. |
| `Utf8Layout.BytesLaidOut` | src/unicode/utf8.c:85-120 | Every character below 2^31 is written in the least number of bytes, laid out as section 2 of RFC 2279 says: first byte by range, six bits in each that follows. |
| `Utf8Layout.ReadLaidOut` | src/unicode/utf8.c:8-83 | A character is read if and only if bytes are laid out so, and it is theirs: longer forms than necessary are read, too. |
| `Utf8Layout.UnitsAre` | src/unicode/utf8.c:243-276 | A character is one 16-bit unit, or above 0xFFFF a high and a low surrogate with ten bits each. |
| `Utf8Layout.PairIs` | src/unicode/utf8.c:122-122 | A pair of surrogates is read as that character. |
| `QuickSort.Sort` | src/utils/tools.c:300-312 | For every comparison that is a total preorder the first elements are sorted in place, are a permutation of what they were, and nothing else moves. |
| `QuickSort.SortRange` | src/utils/tools.c:255-298 | The recursion terminates and sorts its range. |
| `QuickSort.Partition` | src/utils/tools.c:257-285 | The hole ends where everything left of it is no larger and everything right of it no smaller. |
| `QuickSort.Round` | src/utils/tools.c:261-284 | Both scans and moves keep the array with the pivot in the hole a permutation. |
| `QuickSort.ScanDown` | src/utils/tools.c:263-266 | The scan from the right stops at a smaller element or at the hole. |
| `QuickSort.ScanUp` | src/utils/tools.c:274-277 | The scan from the left stops at a larger element or at the hole. |
| `DArray.DynArray.SortedInsert` | src/utils/darray.c:341-373 | The array stays sorted and gains exactly that element, or has one equal element replaced and destroyed. |
| `DArray.DynArray.BinarySearch` | src/utils/darray.c:514-560 | An element is found if and only if one compares equal, and otherwise the place is named where all before are smaller and all behind larger. |
| `DArray.DynArray.Insert` | src/utils/darray.c:316-339 | The elements behind move up by one, growth included. |
| `DArray.DynArray.Extend` | src/utils/darray.c:74-98 | Room for one more, half as much again and one, with all elements kept. |
| `DArray.DynArray.Replace` | src/utils/darray.c:469-480 | The old element is destroyed, the new one stands in its place. |
| `DArray.DynArray.RemoveAll` | src/utils/darray.c:206-238 | Equal elements are destroyed, the others close up in order. |
| `DArray.DynArray.RemoveRange` | src/utils/darray.c:155-183 | Exactly the range is destroyed, and bad ranges are refused. |
| `DArray.NothingLost` | src/utils/darray.c:206-238 | What remains and what is destroyed are together what there was. |
| `DArray.Sorting` | src/utils/darray.c:206-238 | And each element is where its comparison puts it. |
| `DArray.InsertSorted` | src/utils/darray.c:341-373 | Insertion at the place a search names keeps the order. |
| `DArray.ReplaceSorted` | src/utils/darray.c:341-373 | Replacing an equal element keeps the order. |
| `DArray.CloseUp` | src/utils/darray.c:163-178 | The loop of a range removal. |
| `DArray.Filter` | src/utils/darray.c:218-234 | The loop of a removal by comparison. |
| `DArray.ShiftUp` | src/utils/darray.c:326-333 | The loop of an insertion. |
| `BlockingQueue.NoLostWakeup` | src/queue/msg_que.c:70-198 | In every run of any number of putters and getters items come out in the order they went in, never more than the maximum are kept, and when nobody is on the move a getter sleeps only at an empty queue and a putter only at a full one. |
| `BlockingQueue.InvKept` | src/queue/msg_que.c:70-198 | Every step keeps the three invariants below. |
| `BlockingQueue.InvAfter` | src/queue/msg_que.c:70-198 | So does every run. |
| `BlockingQueue.FifoKept` | src/queue/msg_que.c:81-169 | Put order is get order, within the maximum. |
| `BlockingQueue.ItemsCoveredKept` | src/queue/msg_que.c:79-183 | While a getter sleeps, at least as many signalled getters are on their way as there are items. |
| `BlockingQueue.RoomCoveredKept` | src/queue/msg_que.c:79-183 | While a putter sleeps, at least as many signalled putters are on their way as there are free places. |
| `BlockingQueue.StuckIffNoRoom` | src/queue/msg_que.c:22-44 | Putters and getters can be stuck at the same time if and only if the maximum is 0. |
| `BlockingQueue.FlushKeeps` | src/queue/msg_que.c:302-324 | A flush, which signals nobody, keeps the invariants if and only if no putter sleeps or as many signalled putters are on their way as the queue has places. |
| `BlockingQueue.FlushStrands` | src/queue/msg_que.c:302-324 | When nobody is on the move, it leaves a putter asleep beside free places if and only if one sleeps and the maximum is positive. |
| `BlockingQueue.FlushCanStrand` | src/queue/msg_que.c:302-324 | For every positive maximum such a run exists. |
| `MsgQueue.Queue.Enqueue` | src/queue/msg_que.c:81-103 | The linked list gains the message at its end and the counter stays its length; a full queue is left alone. |
| `MsgQueue.Queue.Dequeue` | src/queue/msg_que.c:151-169 | The first message leaves; an empty queue is left alone. |
| `MsgQueue.Queue.Flush` | src/queue/msg_que.c:302-324 | The walk over the links reaches every message once and leaves an empty queue. |
| `Fifo.ByteFifo.Write` | src/mqttc/common/log/fifo.c:72-95 | What fits is accepted, behind the whole history, over wraps of the buffer and of the 32-bit counters. |
| `Fifo.ByteFifo.Read` | src/mqttc/common/log/fifo.c:97-115 | The oldest bytes not yet handed out, in order. |
| `Fifo.ByteFifo.ReadAble` | src/mqttc/common/log/fifo.c:117-129 | The count is right if and only if the input counter has not wrapped past the output counter; otherwise it is too large by the size. |
| `Fifo.WrappedState` | src/mqttc/common/log/fifo.c:117-129 | A sound state in which it has: one byte is held and counted as two. |
| `Fifo.ByteFifo.Difference` | src/mqttc/common/log/fifo.c:83-83 | The difference of the counters in 32 bits is the number of bytes held. |
| `Fifo.Create` | src/mqttc/common/log/fifo.c:40-70 | A FIFO of the largest power of two that is not above the request, or none for 0. |
| `Fifo.CreatedSize` | src/mqttc/common/log/fifo.c:44-48 | The size arithmetic, through `_flbs`. |
| `Fifo.Flbs` | src/mqttc/common/log/fifo.c:6-33 | The number of bits of a word, by five tests and shifts. |
| `Fifo.AndPredecessor` | src/mqttc/common/log/fifo.c:47-47 | x & (x - 1) is 0 exactly for powers of two. |
| `Fifo.AndMask` | src/mqttc/common/log/fifo.c:85-85 | Masking with size - 1 leaves the low bits. |
| `Fifo.LowIsRemainder` | src/mqttc/common/log/fifo.c:89-89 | A free-running 32-bit counter is the count modulo 2^32. |
| `Fifo.HoldsMore` | src/mqttc/common/log/fifo.c:85-87 | Two copies into the ring keep every byte of the history at its place. |
| `Fifo.ReadsHistory` | src/mqttc/common/log/fifo.c:108-110 | Two copies out of the ring are a piece of the history. |
| `RingList.Append` | include/comm/list.h:37-43 | One node more before the given one, and the ring closed both ways. |
| `RingList.Prepend` | include/comm/list.h:46-52 | One node more behind the given one. |
| `RingList.Remove` | include/comm/list.h:66-70 | One node less; its own pointers stay as they were. |
| `RingList.IsEmpty` | include/comm/list.h:31-34 | True exactly for a head alone. |
| `RingList.RemoveAll` | include/comm/list.h:96-100 | Safe iteration whose body takes out the current node visits every node once in order and leaves the others linked. |
| `RingList.RemoveInit` | src/mqttc/common/mqtt_list.c:51-55 | The removed node is a ring of its own again. |
| `RingList.MoveTail` | src/mqttc/common/mqtt_list.c:63-67 | The node goes to the end of its list, the others keep their order. |
| `TimerLists.TimerModule.Expire` | src/timer/sk_timer.c:221-237 | One pass at a fixed time over the linked list, with removal and insertion under the iteration: which timers fire and in which order; nothing is lost, once-timers are gone, and what is left stands in order, none earlier than now. |
| `TimerPass.OnceExactly` | src/timer/sk_timer.c:221-237 | The pass fires just the due timers, each once and in order, if and only if every due keep-timer with interval 0 is the last of them or the one behind it is due this very moment. |
| `TimerPass.Advance` | src/timer/sk_timer.c:201-237 | Each firing leads to the next stage of the pass, the timers armed at once included, and the iteration goes on at the right timer. |
| `TimerPass.StageEnds` | src/timer/sk_timer.c:221-237 | After the pass nothing is lost, all is in order, and the iteration has nothing due ahead. |
| `TimerPass.LeftLater` | src/timer/sk_timer.c:201-219 | Where no due timer has interval 0, all that is left is later than now. |
| `TimerPass.LeftAre` | src/timer/sk_timer.c:201-237 | What the pass leaves are exactly the timers that were not due and the keep-timers that were, each at one interval from now. |
| `TimerPass.PositiveOnce` | src/timer/sk_timer.c:221-237 | With positive intervals every due timer fires once. |
| `TimerPass.ZeroIntervalTwice` | src/timer/sk_timer.c:201-237 | A keep-timer with interval 0 in front of one past its time fires twice. |
| `TimerPass.ArmedAll` | src/timer/sk_timer.c:201-219 | Arming again loses no timer. |
| `TimerPass.WaitingBehind` | src/timer/sk_timer.c:201-219 | Arming for later keeps the order. |
| `TimerPass.DueAreAll` | src/timer/sk_timer.c:221-237 | In an ordered list the timers in front that are due are all that are due. |
| `TimerLists.TimerModule.Add` | src/timer/sk_timer.c:388-430 | The new timer, with the next id, stands at its place in the list of its kind. |
| `TimerLists.TimerModule.UpdateTime` | src/timer/sk_timer.c:341-386 | The first timer with the id leaves its place and enters its list again with the new time; nothing changes for an unknown id. |
| `TimerLists.TimerModule.Delete` | src/timer/sk_timer.c:541-557 | The first timer with the id leaves, and no other one. |
| `TimerLists.TimesAre` | src/timer/sk_timer.c:341-425 | A timer that is added or updated is due as soon as its delay has passed and not before, and comes again at the same distance; a day timer is done for today when its second is over. |
| `TimerLists.IdsCycle` | src/timer/sk_timer.c:134-148 | Every id but the first is positive and below 2^31; two are the same if and only if both come after the first and 2^31 - 1 or a multiple of it lies between them. |
| `TimerLists.TimerModule.NextId` | src/timer/sk_timer.c:134-148 | The counter gives out these ids in this order. |
| `TimerLists.AddToList` | src/timer/sk_timer.c:151-182 | The node is linked in before the first timer that is not earlier. |
| `TimerLists.WalkTo` | src/timer/sk_timer.c:151-182 | The walk over the links stops at that timer, or at the head. |
| `TimerLists.Find` | src/timer/sk_timer.c:239-260 | The walk over the links finds the first timer with the id, or none. |
| `TimerLists.TimerModule.Fire` | src/timer/sk_timer.c:201-237 | Unlinking a timer and linking it in again leaves the iteration at the node that was behind it. |
| `Timers.InsertOrdered` | src/timer/sk_timer.c:151-182 | Insertion keeps the order and adds just that timer. |
| `Timers.WithoutOrdered` | src/timer/sk_timer.c:545-553 | Removal keeps the order and takes just that timer. |

## Left out

- ThreadPool: destroying, pausing and starting up the pool, thread names and signals; the deallocation of jobs.
- PhaseLock: floating-point rounding (doubles are reals); the debug output; on a full ring times must strictly increase, since equal times divide by zero.
- PhaseDecision: what 1000 divided by 0 gives in `find_df_center` is the parameter `byZero`, which matters only when an error bar is negative (`CenterApproaches`, `CrossingsAgree`); a result outside the int range before it is clamped.
- JsonText: numbers that are not 32-bit integers are parsed (as exact reals) but not printed; rounding of parsed fractions is not modelled.
- JsonParser: memory failures and the error position; reading past the end of a text finds NUL here.
- JsonParser.StringAt: where an escape is cut off by the closing quote, what the code then overwrites behind its block; the bytes it reads and writes are modelled as if there were room (`JsonBlock` says when there is).
- JsonMinify.Minify: where the walk goes on behind an unclosed literal or comment, what the code then reads and writes there.
- JsonPrinter: the NUL written with a comma or brace before the next piece overwrites it is not written; sizes of the buffered form stay below 2^30, where `pow2gt` would leave the int range.
- JsonJoiner: memory failures, and the freeing of the children's blocks.
- Xts: AES rounds and key schedule, other block modes, buffers that overlap in part.
- MqttBytes: what stands in memory behind a packet (it reads as 0 here); lengths above 268435455; negative ints.
- MqttPackets: CONNACK, SUBACK and the packets without content, which would only add easy members; SUBACK codes from 0x80 on pass through plain `char`; the caps that callers of the SUBSCRIBE and UNSUBSCRIBE readers set on the number of filters, which those readers do not check; a topic string whose two forms contradict each other is excluded from the serializers (`LengthsAgree` says when).
- MqttConnect: CONNECT options with a version other than 3 and 4, for which the computed length is too small.
- MqttReader: the transport is a stream and a script of what its calls come to.
- AckProtocol: network writes succeed or fail as a whole; reconnecting, keep-alive, message handlers and their memory, acknowledgements that cannot be parsed, and memory failures.
- AckProtocol: handlers are single steps here; what other threads may have written into the buffer when a received PUBLISH is recorded (`mqttclient.c:849-861`) is in `AckRace`.
- AckRace: the copy into the node is one step, and so is each write (a serialization seen half done is a write of the first bytes); the ack list itself, which has no lock of its own, is changed by one thread at a time.
- AckRuns.ReachableSound: a write buffer of 3 bytes, the one size accepted in which no acknowledgement can be serialized (`mqttclient.c:1173-1181`).
- AckClient: the ack list is a sequence here, its links are in `RingList`; timers of nodes are the set `expired`.
- TopicMatch: filters are C strings without NUL; malformed filters (a wildcard that does not fill its level) are not judged.
- Utf16: buffers too small for the result are refused or cut as in the code, but nothing is claimed of a text cut in this way.
- DArray: allocation failures; `darray_find`, `darray_count` and removal by index, which would only add easy members.
- MsgQueue: allocation failures; the destructor.
- Fifo: for requests of 2^31 and more the C code computes `1 << 31` on an int (`fifo.c`), which is undefined; the model gives 2^31.
- Fifo: copies of 2^31 bytes at once, whose length leaves the int range; the mutex and the semaphore, and waiting.
- TimerLists: the struct around a node is a map from nodes here; handlers that change the lists, intervals that carry the clock over its end during a pass, the waiting thread, and the plan task that runs day timers. `sk_timer_add_day` depends on the local time of day and is not part of this model (it passes the type of a once-timer, for which `Add` ignores the seconds).
- Sockets, TLS, shared memory, UART, EXIF, syslog, pixel and colour code, base64, CRC, ASN.1 and ARC4: input and output, or byte-wise functions beside the components above.
