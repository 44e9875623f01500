# A verified model of the terminal's core algorithms

The terminal collects meter data and talks to a server over an uplink. This project models, in Dafny 4.11, the
algorithms that the rest of the program relies on, and proves what they are for. `dafny verify dfyconfig.toml`
checks all of it.

Code that changes state in place is modelled in place: classes with the program's fields, arrays and loops. Each
such method is proved against a function on values, and the promises are lemmas about those functions.

| part | modules | main results |
|---|---|---|
| compressor, `utils/xzip.c` | `BitIo`, `IntervalCoder`, `AdaptiveModel`, `TokenCoder`, `ArithmeticCoder`, `SearchTree`, `LinkedTrees`, `MatchFinder`, `SlidingWindow`, `Lzari` | `CompressAndDecompress`, `RoundTrip`, `InsertNode`, `DecodesSlot`, `UpdateValid` |
| link layer, `uplink/uplink_dl.c` | `Framing` | `Delivers`, `NothingIsHeldLonger`, `AcceptedIsPacket`, `RoomInRun` |
| calendar and timers, `sys/syscall/time.c`, `lib/dbtime.c`, `sys/syscall/timer.c` | `Calendar`, `DbTime`, `SlotList`, `CTimers`, `TimerGrid`, `RTimers` | `ClockRoundTrip`, `AddedFiresOnTime`, `StaleIdNamesNothing`, `NextIsLeast`, `KeepsItsTime`, `AlwaysEitherWay` |
| digests and checksums, `mail/md5c.c`, `lib/crc.c` | `Md5Bits`, `Md5Transform`, `Md5`, `Md5Alphabet`, `CrcTable`, `Crc16` | `MD5Final`, `DigestOfAlphabet`, `CrcIsRemainder`, `SameCrc`, `BurstIsDetected` |
| files, `sys/storage` | `StoredFile`, `BinFile`, `GroupFile`, `ConfigText`, `ConfigStore`, `ConfigSettings` | `TailCheck`, `DamageIsLocal`, `WrittenOpens`, `ReadsBack`, `ReadsOnward`, `StoreAndReadAll` |
| alarm ring, `monitor/alarm.c` | `AlarmRing` | `LiveIsLastRecords`, `EachOnceInOrder` |
| group items, `save/itemop.c` | `ItemGroups`, `ItemStore`, `ItemTables` | `GroupIsItsMembers`, `GroupRoundTrip`, `WriteAndReadBack`, `GuardedIsKept` |
| decimal formats, `lib/bcd.c`, `lib/datatype_gb.c` | `Decimals`, `MeterFormats` | `SignedBcdRoundTrip`, `CutIsClose`, `KeptIsClose` |

`Bytes`, `Wrappers` and `Arithmetic` hold machine integers and their byte order, optional values and a few facts
about products and quotients.

## What the code does differently from what one expects

The model follows the code. These are the places where a promise holds only under a condition; the condition is
proved exact, or the failing input is given.

- The configuration store does not compare the last character of a name, because both pointers have moved on when
  the comparison stops. An entry is read back from every cursor position if and only if no stored name that agrees
  with its own in all but the last character has another value (`ReadsBack`, `LastCharacterIsIgnored`). What keeps
  such names apart is the order: read as they were written, all of them find their own entries (`ReadsOnward`,
  `ReadsAround`, `StoreAndReadAll`).
- A name that is not stored, if it is the first one read, makes the scan pass over the first entry
  (`MissingNamePasses`).
- The seconds of the clock that a repeating timer is asked for with are dropped: it starts at second 0
  (`SlotShowsClock`, `KeepsItsTime`).
- The tail check of a group file does not look at a single byte behind a multiple of 32 bytes; for all other
  lengths it accepts exactly the bodies whose last two bytes are the CRC of the bytes before them (`TailCheck`,
  `OddByteEscapes`).
- Sending alarms counts modulo 1024, so 1024 unsent alarms look like none. Every alarm is sent once and in order if
  and only if there are never so many when one is to be sent (`EachOnceInOrder`, `FallingBehind`).
- Stepping a late hourly or daily timer on and recalculating it agree if and only if the first slot of the day or
  month is at most one unit ahead; the base time derived from a valid clock guarantees it, for every timer that a
  run of the table reaches (`CatchUpIsRecalculation`, `BaseIsBelowUnit`, `AlwaysEitherWay`).
- A timer id comes back after 65536 additions (`StaleIdComesBack`).
- The receiver keeps the expected length in 16 bits. A buffer it accepts is a packet that the sender could have
  built if and only if the declared length plus 12 is below 65536 (`AcceptedIsPacket`, `WrappedLengthIsAccepted`).
- Port 1's stop bits are port 0's, and the port group 0x878f can never be read
  (`StopBitsOfPort1AreThoseOfPort0`, `LastPortGroupIsUnreadable`).
- A signed BCD number whose top digit is 8 or 9 is read back with the wrong value (`SignedBcdRoundTrip`,
  `ReadBack`).
- A burst of 17 bits can escape the CRC; an error does exactly if the generator divides it (`SeventeenBitsEscape`,
  `SameCrc`).
- The decoder of the compressor tests its renormalisation cases in another order than the encoder, and lags by one
  case when both apply; they still meet (`RenormDeferred`).

## Model

| member | source | states |
|---|---|---|
| BitIo.BitWriter.PutBit | utils/xzip.c:34-43 | the bits written so far, those still in the buffer included, grow by exactly the given bit |
| BitIo.BitWriter.FlushBitBuffer | utils/xzip.c:45-50 | everything written before, whole bytes or not, is a prefix of the bits of the output memory |
| BitIo.BitReader.GetBit | utils/xzip.c:53-62 | delivers the next bit of the stream that consists of the bits of the input, high-order first, and then of ones for ever (the low byte of EOF) |
| BitIo.PlaceBit | utils/xzip.c:38-42 | setting or leaving the bit under the mask and halving the mask doubles the number built so far and adds the bit; the mask runs out after the eighth |
| BitIo.TestBit | utils/xzip.c:57-61 | testing the bit under the mask reads the bit of that number |
| BitIo.HighBitFirst | utils/xzip.c:34-62 | of the bits of a byte the one worth 128 comes first, and so on down to 1 |
| BitIo.UnpackPrefix | utils/xzip.c:34-50 | a file whose bits begin with the bits of a byte string begins with that byte string |
| IntervalCoder.SlotsAreWide | utils/xzip.c:168-175 | in a renormalised interval every symbol with a frequency gets a non-empty part inside the interval, parts do not overlap, and no product exceeds 32 bits |
| IntervalCoder.EncRenorm | utils/xzip.c:244-252 | the encoder's renormalisation loop ends, and in an interval that straddles Q2 and is wider than Q1 |
| IntervalCoder.EncStep | utils/xzip.c:241-252 | coding any symbol with a frequency keeps the interval renormalised, so that the next one can be coded |
| IntervalCoder.DecRenorm | utils/xzip.c:334-342 | the decoder's loop ends with the code value inside a renormalised interval |
| IntervalCoder.SelectedSlot | utils/xzip.c:329-333 | the number looked up, ((value-low+1)*total-1)/range, falls into a symbol's share exactly when the code value falls into the symbol's part of the interval |
| IntervalCoder.Carry | utils/xzip.c:229-233 | a 1 followed by pending zeros is one more than a 0 followed by as many ones: the pending bits may be decided later |
| IntervalCoder.RenormTrack | utils/xzip.c:244-252 | whether a bit stream lies in the encoder's interval does not change by renormalising: no stream is lost or gained |
| IntervalCoder.StepTrack | utils/xzip.c:241-252 | a stream inside the interval after a step was inside before, and in the symbol's part |
| IntervalCoder.RenormInStep | utils/xzip.c:334-342 | encoder and decoder that agree on interval and value agree again after each has renormalised |
| IntervalCoder.RenormDeferred | utils/xzip.c:335-339 | the same where the decoder still takes the middle half when the encoder already tests for the lower one: the two loops test their cases in different orders |
| IntervalCoder.DecodesSlot | utils/xzip.c:324-346 | a decoder in step with the encoder, on any stream inside the interval the encoder reaches, selects the encoder's symbol and stays in step |
| IntervalCoder.FinishOnTrack | utils/xzip.c:274-282 | the two final bits, with all pending ones, put every stream that begins with the code into the last interval, whatever bits follow |
| IntervalCoder.StartInStep | utils/xzip.c:316-322 | after reading M + 2 bits the decoder is in step with an encoder that has coded nothing |
| AdaptiveModel.InitialModelValid | utils/xzip.c:188-205 | the start tables are sorted by frequency, at least 1, mutually inverse, and total less than Q1 |
| AdaptiveModel.UpdateValid | utils/xzip.c:207-227 | every update keeps frequencies sorted and at least 1, the character and symbol tables inverse to each other, and the total at most Q1 - 1 |
| AdaptiveModel.After | utils/xzip.c:207-227 | the model after coding any sequence of characters is valid |
| AdaptiveModel.UpdateCounts | utils/xzip.c:207-227 | seen by characters and not by ranks, an update adds one to the coded character, after halving all frequencies, rounded up, if the total had reached MAX_CUM; no other character gains or loses |
| AdaptiveModel.ScaleTotal | utils/xzip.c:211-218 | halving brings the total strictly below MAX_CUM, so that the update cannot exceed it |
| AdaptiveModel.FindIsUnique | utils/xzip.c:284-299 | exactly one entry of a table has a share that contains a given number below the total |
| AdaptiveModel.PositionTotal | utils/xzip.c:200-203 | the 4096 position frequencies 10000/(i+200) add up to less than Q1 |
| AdaptiveModel.Tables.StartModel | utils/xzip.c:188-205 | the arrays hold the initial model, and both cumulative arrays are the suffix sums of their frequencies |
| AdaptiveModel.Tables.StartIsEven | utils/xzip.c:188-205 | started, every symbol has frequency 1 and stands for the character before its number, and position i - 1 has the share 10000/(i+200) |
| AdaptiveModel.Tables.UpdateModel | utils/xzip.c:207-227 | the four arrays, updated in place, hold the updated model, and sym_cum is again the suffix sum of sym_freq |
| AdaptiveModel.Tables.Rescale | utils/xzip.c:211-218 | one backward pass halves all frequencies if it is time, and leaves the suffix sums right |
| AdaptiveModel.Tables.FindLeader | utils/xzip.c:219 | the scan ends, thanks to the sentinel, at the first symbol of the run of equal frequencies |
| AdaptiveModel.Tables.BinarySearchSym | utils/xzip.c:284-299 | finds the one symbol whose cumulative interval contains x |
| AdaptiveModel.Tables.BinarySearchPos | utils/xzip.c:301-314 | finds the one position whose cumulative interval contains x |
| TokenCoder.DecodesChar | utils/xzip.c:324-346 | a decoder in step recovers the character coded, and stays in step, the two adaptive models equal |
| TokenCoder.DecodesPosition | utils/xzip.c:348-368 | a decoder in step recovers the position coded, and stays in step |
| TokenCoder.DecodesToken | utils/xzip.c:447-458 | a decoder in step recovers every literal and every match, length and distance, and stays in step |
| TokenCoder.DecodesAll | utils/xzip.c:435-466 | for every sequence of literals and matches, and every stream that begins with its code, whatever follows, the decoder's loop produces the text that the sequence spells and stops there |
| TokenCoder.CopyBackRepeats | utils/xzip.c:457-465 | what a match appends repeats after every `distance` bytes, even where the copy runs into its own output |
| ArithmeticCoder.Share32 | utils/xzip.c:241-243 | the new bounds, computed without a product leaving 32 bits, are those of the symbol's share, and not empty |
| ArithmeticCoder.Encoder.Output | utils/xzip.c:229-233 | writes the bit and as many complements as were pending, of which none remain |
| ArithmeticCoder.Encoder.EncodeChar | utils/xzip.c:235-254 | takes coder and model to the state that coding the character gives on values |
| ArithmeticCoder.Encoder.EncodePosition | utils/xzip.c:256-272 | takes the coder to the state that coding the position gives on values, the symbol model unchanged |
| ArithmeticCoder.Encoder.EncodeEnd | utils/xzip.c:274-282 | the output memory begins with the header, all code bits and the final bits |
| ArithmeticCoder.Decoder.StartDecode | utils/xzip.c:316-322 | the code value is the number formed by the next 17 bits |
| ArithmeticCoder.Decoder.Scaled32 | utils/xzip.c:330-331 | the look-up value, computed without leaving 32 bits |
| ArithmeticCoder.Decoder.DecodeChar | utils/xzip.c:324-346 | delivers the character that decoding on values delivers, and its state |
| ArithmeticCoder.Decoder.DecodePosition | utils/xzip.c:348-368 | delivers the position that decoding on values delivers, and its state |
| SearchTree.InsertOrdered | utils/xzip.c:97-135 | entering a window, or letting it replace an equal one, keeps the tree lexicographically ordered |
| SearchTree.InsertNodes | utils/xzip.c:97-135 | the node set gains the new node and loses just the node, if any, with the same 60 bytes |
| SearchTree.SearchLongest | utils/xzip.c:110-129 | no node anywhere in the tree shares a longer prefix (above THRESHOLD) than the best one met on the search path |
| SearchTree.SearchGenuine | utils/xzip.c:118-128 | a reported length and distance are those of a node really in the tree |
| SearchTree.SearchNearest | utils/xzip.c:118-128 | of the nodes met on the search path that have the longest match, the nearest one is reported |
| SearchTree.DeleteRootOrdered | utils/xzip.c:142-153 | moving up the only subtree or the predecessor keeps the order and removes just that node |
| LinkedTrees.Attach | utils/xzip.c:112-116 | writing one son and one parent entry hangs a new leaf into the tree the arrays stand for, all other links unchanged |
| LinkedTrees.TakesPlace | utils/xzip.c:130-134 | the last steps of a replacement or deletion put the rebuilt subtree at its place in the whole tree; the node removed reads as not in use |
| LinkedTrees.CopyRebuilds | utils/xzip.c:130-131 | taking over both sons and their parent entries moves a node's subtree to the new node |
| LinkedTrees.OnlySonRebuilds | utils/xzip.c:142-143 | an only subtree can move up as it lies |
| LinkedTrees.LeftSonRebuilds | utils/xzip.c:145-151 | a left son without right son adopts the right subtree |
| LinkedTrees.DeepRebuilds | utils/xzip.c:146-151 | the predecessor further down is unhooked and adopts both subtrees; the arrays then stand for the tree without its root |
| MatchFinder.Dictionary.InitTree | utils/xzip.c:79-95 | the 256 trees are well formed and empty |
| MatchFinder.Dictionary.InsertNode | utils/xzip.c:97-135 | the loop ends; the arrays stay a forest of ordered trees; the node set gains r and loses only nodes with the same window; match_length is the maximum over all nodes (above THRESHOLD), and match_position is the distance of a node that attains it, the nearest of those met on the search path |
| MatchFinder.Dictionary.DeleteNode | utils/xzip.c:137-157 | the arrays stay a forest of ordered trees, and the node set loses p and nothing else |
| MatchFinder.Dictionary.Compare | utils/xzip.c:118-119 | i is the length of the common prefix, and the sign of cmp the lexicographic order |
| MatchFinder.Dictionary.Descend | utils/xzip.c:108-129 | follows the search path to an empty place or an equal window, having noted the best match on the way |
| MatchFinder.ForestText | utils/xzip.c:404-407 | overwriting text outside all nodes' windows keeps the forest well formed and its node set |
| SlidingWindow.WriteBuffers | utils/xzip.c:404-408 | storing the next byte and, in the first F - 1 places, its mirror makes the ring show the text one byte further |
| SlidingWindow.WriteKeepsWindow | utils/xzip.c:404-407 | the window of every node that is close enough is untouched by the overwriting |
| SlidingWindow.DeleteOldest | utils/xzip.c:404 | after deleting the oldest node all nodes are close enough, and every position in reach is still represented |
| SlidingWindow.EnterCovers | utils/xzip.c:408-410 | entering the new window keeps every real text position in reach represented by a node with the same bytes and no farther away, although equal windows replace each other |
| SlidingWindow.SearchFinds | utils/xzip.c:401-411 | what the match finder reports is, in terms of the text, a genuine repetition and the longest one among all real text positions in reach |
| SlidingWindow.ChoiceIsGreedy | utils/xzip.c:390-399 | the token coded is a longest match cut to the look-ahead, or a literal if none is longer than THRESHOLD |
| SlidingWindow.GreedyApplies | utils/xzip.c:390-399 | such a token reproduces exactly the next bytes of the text |
| SlidingWindow.RingOffset | utils/xzip.c:457-460 | ring index arithmetic modulo N agrees with counting back in the text |
| Lzari.ParseSpells | utils/xzip.c:389-426 | the tokens spell the whole input, and only the last one completes it |
| Lzari.RoundTrip | utils/xzip.c:372-478 | every file that the encoder may write for an input, any bytes behind it included, decodes to that input |
| Lzari.Compressor.Slide | utils/xzip.c:404-410 | one step with input: window, trees and reported match all move one byte on |
| Lzari.Compressor.Drop | utils/xzip.c:418-425 | one step without input: the look-ahead shrinks, and nothing is entered when it is empty |
| Lzari.Compressor.Advance | utils/xzip.c:400-425 | the two loops together move on by the length of the token coded, over the end of the input too |
| Lzari.Compressor.Load | utils/xzip.c:381-385 | the ring shows the preset blanks and the first bytes of the input |
| Lzari.Compressor.Encode | utils/xzip.c:372-433 | for every input, the empty one included, the output begins with the header and the code of a token sequence that is a greedy parse of the input |
| Lzari.Decompressor.Append | utils/xzip.c:448-454 | output and ring both grow by the byte |
| Lzari.Decompressor.CopyMatch | utils/xzip.c:455-466 | the ring copy, wrapping and overlapping, appends what copying back in the text appends |
| Lzari.Decompressor.Decode | utils/xzip.c:435-478 | the output is what decoding on values makes of the file, for any file of at least four bytes |
| Lzari.Compress | utils/xzip.c:372-433 | the file begins with the length and the code of a greedy parse |
| Lzari.Decompress | utils/xzip.c:435-478 | from a fresh state the output is the decoding of the file |
| Lzari.CompressAndDecompress | utils/xzip.c:372-478 | running the encoder and then the decoder gives back every input shorter than 2^32 bytes |
| Framing.StepValid | uplink/uplink_dl.c:278-370 | in every reachable state stat is non-zero exactly when the timer runs, and counters and buffer fit the phase |
| Framing.TickValid | uplink/uplink_dl.c:105-121 | a poll of the timer keeps that |
| Framing.AcceptedIsPacket | uplink/uplink_dl.c:343-357 | an accepted buffer is what MakePacketG makes of its own header and data if and only if the declared length plus 12 fits 16 bits |
| Framing.PacketLayout | uplink/uplink_dl.c:49-66 | a packet byte by byte: marks 0x68 at 0 and 6, the length at 8 and 9 high byte first, the checksum of all before it high byte first, and the mark 0x16 |
| Framing.WrappedLengthIsAccepted | uplink/uplink_dl.c:317-357 | the failing input: twelve bytes that declare 0xFFF4 bytes of data are delivered, if the checksum of the first nine begins with 0xF4, and are not what the sender makes of any header and data |
| Framing.Delivers | uplink/uplink_dl.c:105-374 | packets with noise and broken-off beginnings of packets between them, split over polls in any way: if each packet is complete in fewer than timeout polls after its first byte, and comes only after the timer of whatever was begun in the gap before it has run out, then what has been delivered before any poll is the packets in order without gaps, and once everything has come and been taken, all of them |
| Framing.NothingIsHeldLonger | uplink/uplink_dl.c:79-374 | in every run, whatever comes in: what the receiver holds are the last bytes it has taken, of which the first was taken fewer than timeout polls ago, and the timer counts the polls since then |
| Framing.BrokenOffIsDropped | uplink/uplink_dl.c:79-121 | what is begun in poll i and followed by nothing is kept as it is until poll i + timeout, after which the receiver is idle, and not before |
| Framing.DrainGarbage | uplink/uplink_dl.c:267-371 | bytes of a gap, however they look, are all taken and complete nothing; what they leave begun has its timer running since its first byte |
| Framing.NoiseIsHarmless | uplink/uplink_dl.c:279-292 | gaps without a head mark meet all that is asked of gaps |
| Framing.RoomInRun | uplink/uplink_dl.c:284-344 | a receive buffer that holds every packet of the stream, and every gap with a head mark in it, is never written beyond its end |
| Framing.DrainPacket | uplink/uplink_dl.c:267-371 | inside a packet any run of its bytes leaves the receiver inside it, or completes it and leaves what follows in the queue |
| Framing.MakePacketG | uplink/uplink_dl.c:49-66 | appends checksum, high byte first, and tail behind the declared data, returns the whole length and leaves the rest of the buffer alone |
| Framing.Receiver.UplinkClearState | uplink/uplink_dl.c:92-100 | the receiver is idle and its timer stopped |
| Framing.Receiver.UpTimerProc | uplink/uplink_dl.c:105-121 | one poll of the timer: the fields go to the next value state, which drops what was begun when the timer runs out |
| Framing.Receiver.CheckStreamOK | uplink/uplink_dl.c:158-173 | true exactly for both head marks, the tail mark and a matching checksum |
| Framing.Receiver.Receive | uplink/uplink_dl.c:278-370 | one byte takes the receiver's fields and buffer to the next state, and reports exactly the byte that completes a good packet |
| Framing.Receiver.UplinkRecvPkt | uplink/uplink_dl.c:257-374 | takes queued bytes until the first complete packet, which then stands at the front of the buffer, or until the queue is empty |
| Calendar.ToUTimeCounts | sys/syscall/time.c:123-170 | the closed formula counts the days and seconds of the calendar |
| Calendar.BeforeIsLess | sys/syscall/time.c:123-170 | a clock earlier field by field converts to a smaller time |
| Calendar.DifferenceOrders | sys/syscall/time.c:240-251 | the difference is negative, zero or positive exactly when the first clock is earlier, equal or later |
| Calendar.OneClock | sys/syscall/time.c:123-170 | different valid clocks are different times |
| Calendar.FitsInt32 | sys/syscall/time.c:123-170 | no 32-bit overflow for dates of the years 0 to 67 |
| Calendar.UTimeToSysClock | sys/syscall/time.c:177-228 | gives, for every time from 0 to 2^31 - 1, a valid clock that converts back to it, and the day of the week |
| Calendar.HasClock | sys/syscall/time.c:177-228 | every 32-bit time from 0 on has a clock |
| Calendar.ClockRoundTrip | sys/syscall/time.c:123-228 | a valid clock whose time fits 32 bits is recovered from its time |
| Calendar.UTimeAdd | sys/syscall/time.c:264-307 | adds units of fixed length, or for months the length of the months from the one the time is in |
| Calendar.MonthsAhead | sys/syscall/time.c:280-303 | the month loop adds firstOf(m + dev) - firstOf(m) days, for every dev |
| Calendar.AddMonthsMovesDate | sys/syscall/time.c:264-307 | from a day that the target month also has, adding months changes only month and year |
| Calendar.NextDateIsDayLater | sys/syscall/time.c:123-170 | the same time of the next calendar day is 86400 seconds later |
| Calendar.AddingOneMovesClock | sys/syscall/time.c:264-275 | one minute, hour or day added shows on the clock as its next minute, hour or day, with everything below as it was |
| Calendar.AddTimeAddsUp | sys/syscall/time.c:264-275 | several minutes, hours or days are added one after the other |
| DbTime.DbDate.AddOneDay | lib/dbtime.c:54-70 | advances the converted time by 86400 seconds, over ends of months and years; only the last day of year 255 runs over |
| DbTime.DbDate.SubOneDay | lib/dbtime.c:76-92 | sets the converted time back by 86400 seconds, except from the first day of year 0 |
| DbTime.DbDate.AddOneMonth | lib/dbtime.c:98-105 | the month number grows by one, modulo 256 years |
| DbTime.DbDate.SubOneMonth | lib/dbtime.c:111-118 | the month number shrinks by one, modulo 256 years |
| DbTime.DbDate.AddOneTick | lib/dbtime.c:124-131 | advances the converted time by 900 seconds, with carry into the day |
| SlotList.LinkIn | sys/syscall/timer.c:177-180 | the four link writes put the slot at the end of a well-formed cycle through the list head |
| SlotList.LinkOut | sys/syscall/timer.c:213-215 | the two link writes leave a well-formed cycle without the slot |
| SlotList.FarIds | sys/syscall/timer.c:174 | ids made fewer than 65536 additions apart differ, and an id names its slot |
| SlotList.StaleId | sys/syscall/timer.c:174-175 | in every history of a slot an id that was given up is not in the slot again before 65536 further ids have been made |
| CTimers.StepOk | sys/syscall/timer.c:157-287 | every add, stop, clear and pass keeps the linked slots exactly the valid ones, each once, and every counter below its limit |
| CTimers.AddedOk | sys/syscall/timer.c:157-191 | an addition fails exactly for a non-positive interval or a full table; otherwise its id names a timer with the interval and handler asked for and counter 0, linked in last, all others as they were |
| CTimers.FiresOnTime | sys/syscall/timer.c:263-287 | over any run that leaves a live timer alone and keeps it, it fires exactly floor(n/dev) times in n passes since it was added or cleared, with its own handler, whatever happens to other timers |
| CTimers.AddedFiresOnTime | sys/syscall/timer.c:157-287 | in every run after an addition that leaves its timer alone, the timer is called floor(n/dev) times in n passes for the interval asked for, and always with the handler and argument asked for |
| CTimers.ClearedFiresOnTime | sys/syscall/timer.c:238-287 | and after its counter has been cleared, counted from there |
| CTimers.CalledInPass | sys/syscall/timer.c:263-287 | a pass calls a running timer once when its counter reaches the interval and not otherwise, with its own handler, and ends it if the handler says so |
| CTimers.StaleIdNamesNothing | sys/syscall/timer.c:197-258 | the id of a timer that has ended names no timer, and stopping or clearing by it changes nothing, as long as fewer than 65536 timers have been added since |
| CTimers.StaleIdComesBack | sys/syscall/timer.c:174-175 | and that bound is exact: there is a run of 65536 additions after which the old id names a timer that is not the old one |
| CTimers.CTimerTable.SysAddCTimer | sys/syscall/timer.c:157-191 | slots, links and id counter go to the state of the addition, of which AddedOk and AddedFiresOnTime speak, and the id returned is the new timer's |
| CTimers.CTimerTable.SysStopCTimer | sys/syscall/timer.c:197-219 | stops exactly the timer the id names, if there is one |
| CTimers.CTimerTable.SysClearCTimer | sys/syscall/timer.c:238-258 | clears exactly the counter of the timer the id names |
| CTimers.CTimerTable.CTimerProc | sys/syscall/timer.c:263-287 | counts every linked timer once, calls the due ones in list order, and unlinks those whose handler says so although the list is being walked |
| TimerGrid.NextIsLeast | sys/syscall/timer.c:361-366 | the search loop ends at the least slot base + k*period + basetime, k >= 0, strictly after the given time |
| TimerGrid.NextStaysOnUnits | sys/syscall/timer.c:361-366 | a search that begins on whole minutes, hours or days stays on them, whatever the interval |
| TimerGrid.NextBound | sys/syscall/timer.c:361-366 | a search that begins at or before the time ends within 255 months and the base time after it |
| TimerGrid.AddTimeMoves | sys/syscall/timer.c:362 | UTimeAdd moves along the grid of hours, days or firsts of months, and never off it |
| TimerGrid.TruncatedIsOrigin | sys/syscall/timer.c:340-358 | clearing the clock fields below the unit leads to the start of the hour, day, month or year that the program counts from |
| TimerGrid.CatchUpIsRecalculation | sys/syscall/timer.c:538-549 | for hourly and daily timers of interval 1, stepping on from the last slot and recalculating from the start of the day or month agree if and only if the first slot of that day or month is not more than one unit ahead |
| TimerGrid.BaseIsBelowUnit | sys/syscall/timer.c:294-321 | which the base time that the program derives from a clock in range always guarantees, so that the two always agree |
| TimerGrid.SlotShowsClock | sys/syscall/timer.c:294-366 | every slot shows the clock that was asked for: second 0, from hourly timers on its minute, from daily ones on its hour, and for monthly ones its day, counted on into the next month exactly if the month has no such day |
| RTimers.RecalIsLeastSlot | sys/syscall/timer.c:328-372 | a recalculation sets tstart to the least slot strictly after now, and changes only tbase and tstart besides putting interval and unit right |
| RTimers.PassIsLeastSlot | sys/syscall/timer.c:535-550 | a pass sets tstart of a due timer to the least slot after now, counted from the last one if it is up to 3600 seconds late, and from the start of the period otherwise; only tbase and tstart change |
| RTimers.EitherWay | sys/syscall/timer.c:537-549 | for an hourly or daily timer of interval 1 in the table, catching up and recalculating give the same entry if and only if the first slot of the day or month is at most one unit ahead |
| RTimers.AlwaysEitherWay | sys/syscall/timer.c:427-564 | after every run of the table from its start in which timers were asked for with clocks in range, it makes no difference whether a late hourly or daily timer of interval 1 is caught up or recalculated |
| RTimers.PassedOk | sys/syscall/timer.c:535-550 | a pass keeps a timer's fields consistent and leaves it stopped or with its next slot in the future |
| RTimers.AllPassedOk | sys/syscall/timer.c:521-564 | the same for the whole table, the linked slots being exactly the valid ones |
| RTimers.PassCallsDue | sys/syscall/timer.c:530-558 | a pass calls exactly the running timers that are due, each once, with its id, handler and the time of the pass |
| RTimers.StepOk | sys/syscall/timer.c:378-564 | every addition, stop, recalculation and pass keeps the linked slots exactly the valid ones, each once, and repeating timers on their grid of whole units |
| RTimers.StepOnTimer | sys/syscall/timer.c:378-564 | what each operation does to one running timer: additions, and stops and recalculations that name another one, leave it as it is |
| RTimers.AddedOk | sys/syscall/timer.c:427-477 | an addition fails exactly for an invalid configuration or a full table; otherwise the id names the new timer, with the handler, interval and unit asked for, which starts at the time given if it is a one-shot, and at the least of its slots after that time if it repeats; all others stay as they were |
| RTimers.KeepsItsTime | sys/syscall/timer.c:294-564 | a timer that has been added, in every run in which it lives: handler, interval and unit are those asked for; a one-shot waits for the time asked for; a repeating one always starts next at the minute, hour or day of the clock it was asked for with |
| RTimers.CalledAsAsked | sys/syscall/timer.c:427-564 | and in a pass at the end of such a run it is called, with its handler, argument and the time of the pass, exactly if its start has come |
| RTimers.StaleIdNamesNothing | sys/syscall/timer.c:378-502 | the id of a timer that has ended names no timer, and stopping by it changes nothing, as long as fewer than 65536 timers have been added since |
| RTimers.NoOverflow | sys/syscall/timer.c:328-372 | up to 255 months and the base time below 2^31 no recalculation or pass leaves 32 bits |
| RTimers.RTimerTable.RecalRTimerP | sys/syscall/timer.c:328-372 | the loop ends, and the slot's entry becomes the recalculated one |
| RTimers.RTimerTable.SysRecalRTimer | sys/syscall/timer.c:378-395 | recalculates exactly the timer the id names |
| RTimers.RTimerTable.SysRecalAllRTimer | sys/syscall/timer.c:400-418 | recalculates every running timer once, the list unchanged |
| RTimers.RTimerTable.SysAddRTimer | sys/syscall/timer.c:427-477 | slots, links and id counter go to the state of the addition, of which AddedOk and KeepsItsTime speak |
| RTimers.RTimerTable.SysStopRTimer | sys/syscall/timer.c:483-502 | stops exactly the timer the id names |
| RTimers.RTimerTable.RTimerProc | sys/syscall/timer.c:521-564 | puts every due timer forward, calls its handler once, in list order and with the time of the pass, and unlinks one-shots |
| Md5Bits.FChooses | mail/md5c.c:64 | F takes the bits of y where x has ones and those of z elsewhere |
| Md5Bits.GChooses | mail/md5c.c:65 | G takes the bits of x where z has ones and those of y elsewhere |
| Md5Bits.HWhereTheyAgree | mail/md5c.c:66 | H shows the bits of z where x and y agree |
| Md5Bits.HWhereTheyDiffer | mail/md5c.c:66 | and inverts them where they differ |
| Md5Bits.IKeeps | mail/md5c.c:67 | I keeps the bits of y where z has ones and x has none |
| Md5Bits.IInverts | mail/md5c.c:67 | and inverts them elsewhere |
| Md5Bits.RotationMovesUp | mail/md5c.c:71 | a rotation by any n up to 32 moves the low 32 - n bits n places up, and the n high ones come in below |
| Md5Transform.Round1 | mail/md5c.c:192-208 | the sixteen written-out operations are round 1 of section 3.4 of RFC 1321, with its words, shifts and constants |
| Md5Transform.Round2 | mail/md5c.c:210-226 | the same for round 2 |
| Md5Transform.Round3 | mail/md5c.c:228-244 | the same for round 3 |
| Md5Transform.Round4 | mail/md5c.c:246-262 | the same for round 4 |
| Md5.CountAdds | mail/md5c.c:125-129 | the two counter words hold eight times the bytes fed, modulo 2^64, the carry found by comparing |
| Md5.PaddingIs | mail/md5c.c:57-60 | the static padding array begins with the padding of every message length |
| Md5.Encode | mail/md5c.c:277-287 | words become bytes, low-order byte first, and bytes behind them are untouched |
| Md5.Decode | mail/md5c.c:292-299 | bytes become words, low-order byte first |
| Bytes.LowByteFirst | mail/md5c.c:277-287 | the bytes of a number, lowest first: a byte put below it goes in front |
| Md5.Context.MD5Init | mail/md5c.c:99-109 | the context stands for the empty message |
| Md5.Context.MD5Update | mail/md5c.c:115-152 | whatever was fed before, the context stands for the message continued by the input: registers for all whole blocks, counter for the bit length, buffer for the unprocessed tail |
| Md5.Context.MD5Final | mail/md5c.c:157-182 | the digest of everything fed since the start, in whatever pieces, is that of sections 3.1 to 3.5 of RFC 1321; the context is wiped |
| Md5.Context.MD5Transform | mail/md5c.c:186-272 | the registers become those after one more block |
| Md5Alphabet.DigestOfAlphabet | mail/md5c.c:57-299 | the digest that the contracts above speak of, worked out for the alphabet with all 64 steps, is the one in appendix A.5 of RFC 1321, c3fcd3d7 6192e400 7dfb496c ca67e13b |
| CrcTable.TableIs | lib/crc.c:9-43 | every one of the 256 table entries is the remainder of its index, times x^16, modulo x^16 + x^12 + x^5 + 1 |
| Crc16.CrcIsRemainder | lib/crc.c:51-62 | the table-driven CRC of every byte string is the remainder of bitwise long division of the string followed by 16 zeros |
| Crc16.SumFromAppends | lib/crc.c:70-81 | going on with a second piece from the checksum so far gives that of both pieces together |
| Crc16.SumAppends | lib/crc.c:51-81 | the step version, continued from the one-shot version, gives the checksum of the whole |
| Crc16.ResidueIsZero | lib/crc.c:51-62 | with its own CRC appended, high byte first, every string has CRC 0 |
| Crc16.BurstIsDetected | lib/crc.c:51-62 | two different strings of equal length that differ only within 16 consecutive bits have different CRCs |
| Crc16.SameCrc | lib/crc.c:51-62 | two strings of equal length have the same CRC if and only if the generator divides their bitwise difference |
| Crc16.SeventeenBitsEscape | lib/crc.c:51-62 | a burst of 17 bits can go unnoticed |
| Crc16.CalculateCRC | lib/crc.c:51-62 | the CRC of the first count bytes; a count below 1 is an empty string |
| Crc16.CalculateCRCStep | lib/crc.c:70-81 | the checksum continued over the count bytes |
| BinFile.SaveBinFile | sys/storage/bin.c:36-70 | fails exactly for a length out of range; otherwise the file is in order, both checksums included, and its data are the buffer |
| BinFile.SumInPieces | sys/storage/bin.c:118-139 | the chunk loop, 64K at a time, sums the whole data, or reports that the file is too short |
| BinFile.ReadBinFile | sys/storage/bin.c:80-165 | succeeds exactly on files in order with the right magic number, and then copies as much of the data as there is and fits; the buffer is untouched otherwise |
| BinFile.SavedIsOk | sys/storage/bin.c:36-165 | what has been saved is in order and is read as what was saved |
| GroupFile.GoodOfSlots | sys/storage/grpbin.c:164-211 | items written one after the other are read back in order, and the tail is not taken for an item |
| GroupFile.DamageIsLocal | sys/storage/grpbin.c:171-183 | any damage to one slot that its CRC notices costs that item and no other |
| GroupFile.WrittenIsAccepted | sys/storage/grpbin.c:217-231 | what closing leaves behind the head passes the tail check |
| GroupFile.WrittenOpens | sys/storage/grpbin.c:33-231 | a written file opened with the same magic number has the head and the items it was given |
| GroupFile.Group.TailCheck | sys/storage/grpbin.c:80-115 | the alternating 32-byte buffer accepts exactly the bodies whose last two bytes are the CRC of all before them; behind a multiple of 32 a single further byte is not looked at |
| GroupFile.OddByteEscapes | sys/storage/grpbin.c:84-115 | the failing input: a one behind blocks of 32 zeros is accepted, although the whole does not end with its CRC |
| GroupFile.Group.OpenForRead | sys/storage/grpbin.c:44-120 | succeeds exactly on a right head and an accepted body, and then stands before the first slot |
| GroupFile.Group.OpenForWrite | sys/storage/grpbin.c:121-150 | succeeds exactly for an even positive item length and a positive item number of 16 bits, the head written |
| GroupFile.Group.ReadGrpBinFileItem | sys/storage/grpbin.c:164-186 | delivers the next item whose CRC is right, and leaves the rest of the good items to be read |
| GroupFile.Group.WriteGrpBinFileItem | sys/storage/grpbin.c:195-211 | the file is continued by the item behind its CRC, and the running checksum with it |
| GroupFile.Group.CloseGrpBinFile | sys/storage/grpbin.c:217-231 | a file written gets the tail with which it is accepted, and from which exactly its items are read; a file read is unchanged |
| ConfigText.XinStrToInt | sys/storage/xin.c:292-314 | the number the text stands for, hexadecimal after 0x, modulo 2^32 as a signed number, decimal otherwise |
| ConfigText.DigitsInEitherCase | sys/storage/xin.c:300-303 | the hexadecimal digits are 0 to 9 and the letters A to F in either case, and nothing else |
| ConfigText.DecimalInText | sys/storage/xin.c:313 | a decimal number is read behind any white space and a sign, whatever comes behind it |
| ConfigText.HexadecimalInText | sys/storage/xin.c:292-311 | a hexadecimal number of any length is read behind 0x or 0X, modulo 2^32 as a signed number, whatever comes behind it |
| ConfigText.DecimalRoundTrip | sys/storage/xin.c:292-459 | every integer printed in decimal is read back |
| ConfigText.HexadecimalRoundTrip | sys/storage/xin.c:292-459 | every 32-bit integer printed in hexadecimal is read back, negative ones too |
| ConfigText.XinStrToHex | sys/storage/xin.c:378-405 | the bytes the digits stand for, at most len of them |
| ConfigText.HexStringRoundTrip | sys/storage/xin.c:378-517 | every byte string printed in hexadecimal is read back, as much of it as fits |
| ConfigText.HexStringInText | sys/storage/xin.c:378-405 | and so it is whatever comes behind its digits |
| ConfigStore.FindIsFirstInCycle | sys/storage/xin.c:251-285 | from every cursor position the scan finds the first matching record in cyclic order, and none only if there is none |
| ConfigStore.HitIsSimilar | sys/storage/xin.c:258-275 | a stored entry matches a name exactly if the two names have the same length and agree in all but the last character, which is not compared; what follows is the value |
| ConfigStore.ReadsBack | sys/storage/xin.c:251-285 | an entry reads back its own value from every cursor position if and only if no stored name similar in that way has another value |
| ConfigStore.LastCharacterIsIgnored | sys/storage/xin.c:258-275 | of two entries p1 and p2 each is read for the other, when the scan begins at the wrong one |
| ConfigStore.ReadsOnward | sys/storage/xin.c:251-285 | stored names read one after the other in the order written, from wherever the cursor stands and some left out: every read finds its own entry if and only if no similar name is passed over |
| ConfigStore.ReadsAround | sys/storage/xin.c:251-285 | all names read in the order written, any number of times over, each find their own entry, however similar they are |
| ConfigStore.MissingNamePasses | sys/storage/xin.c:255-264 | reading a name that is not stored changes nothing, except at the very beginning: then the first entry is found next if and only if no other name is similar to its own |
| ConfigStore.NumbersAreProper | sys/storage/xin.c:324-459 | a printed number can be stored under every name and is read as the number |
| ConfigStore.FileRoundTrip | sys/storage/xin.c:76-243 | what closing writes to a file, opening reads |
| ConfigStore.Xin.FindVariable | sys/storage/xin.c:251-285 | ends, with the pointer to the value of the record found and the cursor on the record behind it, or with none and the cursor where it was, or on the second record if it was on the first |
| ConfigStore.Xin.XinReadInt | sys/storage/xin.c:324-336 | the number of the value found, or the default |
| ConfigStore.Xin.XinReadString | sys/storage/xin.c:346-370 | as much of the value found as fits with a final NUL, nothing behind it changed, or -1 and the buffer unchanged |
| ConfigStore.Xin.XinReadHex | sys/storage/xin.c:416-429 | the bytes of the value found, or -1 and the buffer unchanged |
| ConfigStore.Xin.XinWriteInt | sys/storage/xin.c:447-459 | appends the record and returns 0 exactly if it fits, and changes nothing stored otherwise |
| ConfigStore.Xin.XinWriteString | sys/storage/xin.c:468-479 | the same for a string |
| ConfigStore.Xin.XinWriteHex | sys/storage/xin.c:488-517 | the same for bytes, all or none of them |
| ConfigStore.Xin.XinClose | sys/storage/xin.c:193-243 | writes the file of the records, unless there are none or it was opened for reading |
| ConfigStore.Xin.OpenForRead | sys/storage/xin.c:76-187 | succeeds exactly on a good file, and then holds its records with the cursor on the first |
| ConfigSettings.StoreAndRead | sys/storage/xin.c:76-517 | texts, numbers in both notations and byte strings, written in any order, closed to a file, opened again and read after any other names, come back, unless a setting with a similar name shows another value |
| ConfigSettings.StoreAndReadAll | sys/storage/xin.c:76-517 | all settings, written, closed to a file, opened again and read in the order written, come back, similar names included |
| ConfigSettings.FindsOwn | sys/storage/xin.c:251-285 | without such a rival the scan finds the setting's own value from every cursor position |
| AlarmRing.UnsentIsExact | monitor/alarm.c:277-324 | sending sees exactly the unsent records if and only if at most 1023 are unsent; with 1024 it sees none |
| AlarmRing.EachOnceInOrder | monitor/alarm.c:93-324 | a run of saves and sends sends every record once and in order if and only if at most 1023 records are unsent whenever one is to be sent |
| AlarmRing.FallingBehind | monitor/alarm.c:120-132 | with one record more unsent, 1024 records are lost |
| AlarmRing.Ring.LiveIsLastRecords | monitor/alarm.c:120-132 | the records between head and cur, in ring order, are the last min(n, 1023) saved |
| AlarmRing.Ring.SaveAlarm | monitor/alarm.c:93-136 | the record, with its end time, becomes the last one; head gives way when the ring is full |
| AlarmRing.Ring.UpdateAlarm | monitor/alarm.c:61-88 | the current place is written, and no live record is |
| AlarmRing.Ring.MakeAlarmG | monitor/alarm.c:168-208 | a playing that was cut off becomes a record; head and cur are never out of range |
| AlarmRing.Ring.ClearAlarm | monitor/alarm.c:143-150 | the ring stands for no records, none sent |
| AlarmRing.Ring.ActiveSendAlarm | monitor/alarm.c:277-324 | delivers the oldest record that sending sees as unsent and moves on behind it, also from the position 1024; fails exactly if it sees none |
| ItemGroups.GroupIsItsMembers | save/itemop.c:452-481 | a group of members that fill their table lengths can be read if and only if every member can and the lengths add up to no more than maxlen, and then gives the members' encodings in table order |
| ItemGroups.GroupRoundTrip | save/itemop.c:320-481 | a group of copied members and stop bits, written and read back, gives the same bytes, stop bits reduced to 0, 1 or 2 |
| ItemGroups.WriteIsGuarded | save/itemop.c:313-365 | a write that does not fit, to an item not for writing, or without the level it asks for fails in that order and changes nothing; otherwise a copied item changes in exactly its own bytes |
| ItemGroups.ReadIsGuarded | save/itemop.c:447-537 | a read that does not fit, of an item not for reading, or with nothing to read fails in that order; what each kind of item delivers otherwise |
| ItemGroups.GroupAnswers | save/itemop.c:320-348 | writing a group answers that a member is invalid if one is, and otherwise with the last failure of a member, whatever came before and after it |
| ItemGroups.MembersElsewhere | save/itemop.c:361-364 | writing a group leaves the reading of every item that shares no memory with it unchanged |
| ItemGroups.PortGroupRoundTrip | save/itemop.c:90-144 | the groups of ports 0 to 3 keep what is written to them |
| ItemGroups.StopBitsOfPort1AreThoseOfPort0 | save/para_term.c:459-481 | writing port 1's stop bits sets port 0's |
| ItemGroups.LastPortGroupIsUnreadable | save/para_term.c:459-481 | the group 0x878f can never be read, since its stop-bit member names a port that does not exist |
| ItemStore.MemberIsFound | save/itemop.c:302-309 | a member of a group is found by its own id, at its own place, and is not a group itself: the recursion is one level deep |
| ItemStore.GuardedIsKept | save/itemop.c:250-396 | whatever is written with a level that is too low for it, by its own id, through its group or by another item, an item that shares no memory with what may be written reads as before |
| ItemStore.OtherNumbersFail | save/itemop.c:271-300 | anything but number 0 is not read, and not written unless it is 0xFFFF for a group for special use |
| ItemStore.Store.ReadItem | save/itemop.c:398-537 | the bytes delivered, actlen and the result are those of the item or group on values; a failed group leaves actlen 0; nothing outside the maxlen bytes is written |
| ItemStore.Store.ReadGroup | save/itemop.c:452-481 | the member loop with its one saved operation joins the members' bytes, and the remaining length never goes below zero |
| ItemStore.Store.WriteItem | save/itemop.c:250-396 | the parameters and the result are those of writing the item or group on values |
| ItemStore.Store.WriteGroup | save/itemop.c:320-348 | the member loop writes each member from its part of the buffer, stops at an invalid one, and reports the last other failure |
| ItemStore.Store.WriteStopBit | save/para_term.c:459-481 | sets the one stop-bit entry of the port, or fails for a port out of range |
| ItemTables.WriteThenReadGroup | save/itemop.c:250-537 | in every table, writing a group of copied members and stop bits by its id and reading it by its id gives the same bytes, stop bits reduced |
| ItemTables.WriteAndReadBack | save/itemop.c:250-537 | `write_item` and then `read_item` on one operation leave in its buffer what was there, stop bits reduced, and actlen the members' total |
| ItemTables.PortTableOk | save/itemop.c:91-155 | the program's tables of the ports are well formed |
| ItemTables.PortsRoundTrip | save/itemop.c:91-155 | with these tables the groups of ports 0 to 3 are read as written, and the last group is never read, whatever is written |
| Decimals.BcdHoldsModulo | lib/bcd.c:10-51 | n bytes of BCD hold a number modulo 100^n |
| Decimals.BcdToUnsigned | lib/bcd.c:10-28 | the value of the digits, whatever the nibbles are, modulo 2^32 |
| Decimals.UnsignedToBcd | lib/bcd.c:30-51 | the digits, with overflow reported exactly if the number is at least 100^maxlen |
| Decimals.DigitPlaces | lib/bcd.c:30-51 | byte k holds digit 2k in its low half and digit 2k + 1 in its high half, counted from the units |
| Decimals.SignIsTopBit | lib/bcd.c:88-120 | the sign is the top bit of the last byte, as long as the digits leave it free, and the other bits are those of the magnitude |
| Decimals.SignedBcdRoundTrip | lib/bcd.c:53-120 | a signed number written and read in n bytes comes back if and only if its magnitude is below 8*10^(2n-1) |
| Decimals.ReadBack | lib/bcd.c:53-120 | and what comes back otherwise: the top digit's own high bit is taken for the sign |
| Decimals.IntToBcd | lib/bcd.c:88-120 | the signed digits, with overflow reported exactly if the magnitude is at least 100^maxlen |
| Decimals.BcdToInt | lib/bcd.c:53-86 | the signed value of the digits; 1 for an empty string |
| MeterFormats.PowerToSfloat02 | lib/datatype_gb.c:51-98 | the two bytes stand for the number with its sign kept and its magnitude cut to three digits |
| MeterFormats.Sfloat02ToPower | lib/datatype_gb.c:17-44 | the number that the two bytes stand for |
| MeterFormats.PairReadsBack | lib/datatype_gb.c:17-98 | digits, exponent and sign packed in two bytes are read back |
| MeterFormats.PairStandsFor | lib/datatype_gb.c:17-44 | which bits of two bytes are digits, sign and exponent, and the power of ten of each of the eight exponents |
| MeterFormats.CutIsClose | lib/datatype_gb.c:51-98 | below 10^9 the number read back is no larger in magnitude and loses less than one hundredth |
| MeterFormats.CutIsIdempotent | lib/datatype_gb.c:51-98 | writing a number that was read back changes it no more |
| MeterFormats.EnergyToSbcd03 | lib/datatype_gb.c:127-146 | the four bytes stand for the energy with its sign kept, exact or cut to whole thousands |
| MeterFormats.Sbcd03ToEnergy | lib/datatype_gb.c:105-120 | the energy that the four bytes stand for, whatever the digits are |
| MeterFormats.EnergyReadsBack | lib/datatype_gb.c:105-146 | digits, unit and sign packed in four bytes are read back, up to the limit |
| MeterFormats.EnergyStandsFor | lib/datatype_gb.c:105-120 | which bits of four bytes are digits, unit and sign, and that the other two do not count |
| MeterFormats.KeptIsClose | lib/datatype_gb.c:127-146 | an energy is kept exactly up to 9999999, and cut to the thousand below it up to 2000000999 |

## Left out

- Threads and locks: every locked section is one atomic step. Timer handlers are given by what they return, and do
  not touch timer state.
- Sockets, serial lines, GPIO, web pages, login, keepalive and mail conversations, and the send side of the uplink
  beyond `MakePacketG`.
- GetCRC16: its tables are not part of this model. The link layer is proved for every checksum function.
- utils/xzip.c: the wrappers that set the input and output pointers are not part of this model. That the output
  begins just behind a 4-byte length, and the decoder's input too, is the state that the constructors build, as are
  the values set by InitCompress. The counters for progress messages are left out, and the count of pending
  bits is not bounded.
- Lzari.CompressAndDecompress: inputs of 2^32 bytes or more, whose length the header cannot hold, are excluded.
- SlidingWindow.SearchFinds: the longest match is claimed for positions of the input in reach, not for the preset
  blanks before it, some of whose windows are never entered. For the nodes that are in the trees, blanks included,
  `MatchFinder.Dictionary.InsertNode` claims it without exception.
- AdaptiveModel.Tables.StartModel: the program never writes `sym_to_char[0]`; that it is 0, as static storage is, is
  a precondition.
- Framing.Receiver.UplinkRecvPkt: bytes must not be stored beyond the receive buffer. `Framing.RoomInRun` shows this
  for streams whose packets fit, and whose gaps fit or hold no head mark; what happens when a declared length exceeds
  the buffer is left out. Buffers are below 64K, as all those of the program are.
- Calendar.UTimeAdd: results outside 32 bits are excluded, and negative times for months.
- Calendar.UTimeToSysClock: times before the year 2000 are excluded.
- RTimers.RTimerTable.RTimerProc: a pass must not leave the 32-bit times with a due timer; `RTimers.NoOverflow` gives
  a condition that can be seen before the call.
- RTimers.RTimerTable.SysRecalRTimer: nor must the recalculation of the timer named; times before 2000 are excluded.
- RTimers.RTimerTable.SysRecalAllRTimer: nor that of the running timers.
- RTimers.RTimerTable.SysAddRTimer: nor the first slot of a timer that is accepted.
- RTimers.AddedOk: likewise.
- RTimers.EitherWay: both ways must stay within 32 bits.
- CTimers.CTimerTable.SysAddCTimer: the counter of additions is not bounded; the program's wraps after 2^32 of them,
  which keeps the low 16 bits that ids use.
- Other functions of sys/syscall/time.c: reading and setting the clock, formatting, time measurement.
- Md5.Context.MD5Update: an input length within 63 of 2^32 would wrap the block loop's index, and is excluded; the
  input must not be the context's own buffer.
- Md5.Context.MD5Transform: the wiping of the local word array, which nothing can observe, is left out.
- Files are byte strings with a position: failures to open, write or allocate, and the directory, are left out. So is
  ReadBinFileCache.
- GroupFile.Group.WriteGrpBinFileItem: the caller's buffer must hold an item.
- ConfigStore.Xin.FindVariable: the buffer holds records as the writing functions leave them, each with an equals
  sign, and the name asked for has no equals sign; buffers with other contents are left out.
- ConfigStore.Xin.XinReadInt: the same.
- ConfigStore.Xin.XinReadString: the same.
- ConfigStore.Xin.XinReadHex: the same.
- ConfigStore.ReadsBack: names without equals sign, and values that do not begin with one.
- ConfigStore.Xin.XinWriteInt: what is printed must fit the buffer and its 128 spare bytes, which the program does
  not check before printing.
- ConfigStore.Xin.XinWriteString: name and string must fit them in the same way.
- ConfigStore.Xin.XinWriteHex: so must the name.
- ConfigText.XinStrToInt: decimal numbers that overflow, for which `atoi` is undefined.
- Alarm pages on disk, GetCurrentAlarm, FormatAlarm and the run state file. The early returns for years other than
  2017 are left out: the clock is taken to be in that year.
- AlarmRing.Ring.UpdateAlarm: the end time written to the caller's record after the copy is left out.
- save/itemop.c: meter groups and the BCD kinds of items, which no table uses; the flags for saving parameters. The
  items' own handlers, except the one for stop bits, are functions of the parameters; a handler that writes reports
  the table's length.
- ItemStore.Store.ReadItem: in the tables a group item stands behind its members, which are plain items with ids of
  their own, as in all of the program's tables. The four copied members of group 0x8780 name a port behind the end of the port array; the
  model gives them a place of their own.
- Decimals.IntToBcd: the least 32-bit number, whose negation overflows, is excluded.
- MeterFormats.PowerToSfloat02: so it is here.
- MeterFormats.EnergyToSbcd03: and here.
- Decimals.BcdToInt: values outside 32 bits are excluded.
- Functions that only print, parse arguments or convert digits, and the floating-point helpers.
