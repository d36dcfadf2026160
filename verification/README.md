# Verified model of the Monocle firmware core

This project models in Dafny the parts of the Monocle firmware that keep intricate state or do exact
arithmetic, and proves what they are for.

* **SEGGER RTT** (`Rtt*.dfy`). `RttGeometry` is the ring layout. `RttProtocol` is the writer and the debug
  probe as a state machine whose steps interleave freely. `RttUpRing` is the up-buffer as a class over an
  array: every method is also a run of the protocol, recorded in ghost fields, and the probe may read
  before each stored byte. `RttPolicies` and `RttOverwrite` are the specifications of the ways of writing
  and the laws between them. `RttDownRing` is the target's reader with a host that posts meanwhile.
  `RttTerminal` is the terminal multiplexer against a demultiplexer. `RttFormat` is the text the formatter
  should put out and a reader for it, `RttDigits` what its digit loops put out in 32-bit arithmetic,
  `RttPrecision` when they have a defined result at all, `RttFormatString` the grammar of format strings,
  `RttLoads` what refused buffer loads leave behind, `RttRepeats` when one is offered twice, `RttTrim` when the
  bytes stored are then no prefix of the text, `RttPrintf` the buffered formatter in every mode.
* **Mirrored circular buffer** (`SampleWindow.dfy`, `CircularBuffer.dfy`). The class refines a window on an
  unbounded stream; every operation is one step of `SampleWindow.Apply`.
* **Integer square roots** (`SquareRoot.dfy`). Digit loops with fixed-width words against the nearest root,
  which is tied to real square roots.
* **Flash** (`Octets`, `FlashChip`, `FlashDriver`, `FlashWorld`, `FlashClients`). The chip is a state
  machine on its pins (chip select, write-enable latch, busy time, page program that wraps in its page and
  only clears bits, sector erase, sequential read). The driver is proved against it byte by byte, the
  FPGA-application and storage clients against a model of the memory, over whole runs, up to the boot decision.
* **Signal stages** (`OverlapAdd`, `FilterBank`, `SpectralSubtraction`).

`Words.dfy` holds word types, powers of two and runs of zeros, `Arithmetic.dfy` laws of products and
quotients, `Memory.dfy` ring positions and the memcpy, memmove and memset of the sources.

Code that changes state in place is a class or a method on arrays; its contract ties the new state to a
specification function, and the laws are lemmas about those functions. Signed additions and negations that
overflow, which the language of the sources leaves undefined, wrap around everywhere, as the target's words do. A long body of the source is
sometimes split into several methods.

## What the proofs show where code and documentation part

* `Sqrt64` is exactly one low for arguments strictly between 65535 * 65536 and 2^32, and right everywhere
  else up to its cap. The comment in the source speaks of numbers close to 2^32.
* The destructive RTT write claims multiple wrap-arounds; it keeps the newest bytes for all data exactly
  when `WrOff + NumBytes <= 2 * SizeOfBuffer - 2`. Longer data leave a stale byte in the last slot. In a ring
  of one slot the loop never ends for two bytes or more (`RttOverwrite.EndsIff`).
* `SEGGER_RTT_vprintf` is documented to return the number of bytes stored. When no full load is refused it
  returns the text length plus the length of the last partial load, whether or not that load was stored:
  the documented number exactly when the text is made of full loads.
* `SEGGER_RTT_WriteSkipNoLock` returns 1 or 0: the number of bytes stored exactly for a single byte and for a
  refusal. No bytes at all are answered with 1.
* A precision of more than ten decimal digits makes the formatter put out too few digits. From 33 on it divides
  by zero, and at 17 some numbers, 17 itself for one, make it read past its table of digits; these are the only
  decimal precisions without a defined result (`RttPrecision.DecimalPrintableIff`). More than eight hexadecimal
  digits always end in a division by zero.
* One digit is counted for -2^31, which is its own negation, so that its field can come out too wide.
* After a failed store the left-justified padding of the formatter offers the same load once more. In skip mode
  it may then go through, and the bytes in the ring still are a prefix of the text. In trim mode the front of
  the load is stored, and stored again when the probe has read meanwhile. The prefix law holds in all other
  modes; in trim mode, in a ring that can take a load, it holds if and only if no 64-byte load of the text ends
  on a digit of a left-justified number that padding follows (`RttTrim.PrefixLawIff`, with the exact condition
  for smaller rings). `RttTrim.SampleFails` is a format and a run that break it.
* The two compiled branches of the most-significant-bit functions differ for zero, which the roots never pass.
* A flash read of no bytes leaves chip select held; the next call ends it without harm.
* Storage block numbers are not checked against the object, and only the 32-bit sum of address and length is
  checked against the chip. Block -1 comes to the end of the application's area, block 0x93 of the default
  object to the chip's first sector, and a write to block -110 wraps around into it. The exact condition under
  which a call spares the application is proved for erases and writes, and the run theorem is stated for
  storage calls that meet it.
* A write without offset erases one sector only, so that it reads back for all data exactly up to 4096 bytes.
* The range check of a new storage object is passed by every signed sum that overflows.

## Model

| member | source | states |
|---|---|---|
| RttGeometry.TakeFront | segger/SEGGER_RTT.h:90-110 | advancing the read offset by `k` drops exactly the oldest `k` unread bytes, across the wrap too |
| RttGeometry.StoreFree | segger/SEGGER_RTT.h:90-97 | a byte stored into a free slot is invisible to the reader and becomes the last stored one |
| RttGeometry.Publish | segger/SEGGER_RTT.h:90-97 | moving the write offset over `k` free slots appends exactly the bytes in them to what is unread |
| RttGeometry.AppendPlaced | segger/SEGGER_RTT.c:407-447 | a block that fits the free slots, laid down with or without wrap and published, is appended to the unread bytes; before publication nothing changes |
| RttGeometry.StaleIsFront | segger/SEGGER_RTT.c:540-541 | what an older copy of the write offset shows is a front part of what is unread now |
| RttProtocol.StepKeepsInv | segger/SEGGER_RTT.c:335-448 | every step (probe reads any number of bytes, writer samples `RdOff`, stores one byte, publishes `WrOff`) keeps: stored and believed room stay within the free slots, published = consumed + unread, given = published + stored + still to store |
| RttProtocol.WriterNeverStuck | segger/SEGGER_RTT.c:349-356 | the step guards exclude no case of the code: in every reachable state the writer can sample, publish, and store while it has room, and the room computed is never negative |
| RttProtocol.RunKeepsInv | segger/SEGGER_RTT.c:335-448 | the same invariant after any sequence of steps |
| RttProtocol.EveryInterleavingIsFifo | segger/SEGGER_RTT.c:335-379 | under every interleaving from an empty ring, consumed bytes followed by unread ones are a prefix of the bytes given to the writer, all of them when nothing is left to do, and one slot always stays free |
| RttProtocol.WriterLeavesUnread | segger/SEGGER_RTT.c:335-379 | no writer step overwrites or takes back an unread byte, and a publication never makes the write offset meet the read offset |
| RttProtocol.FreeAccount | segger/SEGGER_RTT.c:485-501 | in every reachable state the free slots are the capacity less all that was published plus all that has gone |
| RttProtocol.Announced | segger/SEGGER_RTT.c:372-375 | publishing after `n` stored bytes adds exactly those `n` bytes to the stream, whatever the probe read meanwhile |
| RttProtocol.SampledRoom | segger/SEGGER_RTT.c:349-354 | a stale `RdOff` is safe: later reads only ever enlarge the free space |
| RttUpRing.UpRing.ProbeReads | segger/SEGGER_RTT.h:95-95 | the host consumes an arbitrary number of published bytes at any point and the state stays valid |
| RttUpRing.UpRing.StoreBlock | segger/SEGGER_RTT.c:366-366 | a memcpy done byte by byte, with the probe reading in between, is a run of store steps, and the array gets exactly that block |
| RttUpRing.UpRing.WriteNoCheck | segger/SEGGER_RTT.c:399-448 | data that fits is published once, in order, in one or two blocks; buffer, offset and remaining room are stated exactly |
| RttUpRing.UpRing.GetAvailWriteSpace | segger/SEGGER_RTT.c:485-501 | returns the number of free slots, one less than the empty ones, and the writer may rely on it from then on |
| RttUpRing.UpRing.WriteRound | segger/SEGGER_RTT.c:348-375 | one round writes min(free, to the wrap, left) bytes as they stand when `RdOff` is read, and publishes exactly them |
| RttUpRing.UpRing.WriteBlocking | segger/SEGGER_RTT.c:335-379 | what is published is the front of the data, the rest is still to come; with room at the start two rounds are enough whatever the probe does, and otherwise every watched round stores a byte unless it found no free slot |
| RttUpRing.UpRing.WriteWhole | segger/SEGGER_RTT.c:910-922 | all of the data if it fits at the moment it is looked at, or nothing, with the number stored |
| RttUpRing.UpRing.WritePart | segger/SEGGER_RTT.c:923-930 | the longest prefix that fits at that moment |
| RttUpRing.UpRing.WriteNoLock | segger/SEGGER_RTT.c:895-945 | skip stores all or nothing, trim the longest prefix that fits, blocking a growing prefix, other flags nothing; the number returned is what was published, and in the first two modes the array is that of the specification |
| RttUpRing.UpRing.WriteSkipNoLock | segger/SEGGER_RTT.c:751-870 | the fast form meets the very specification of skip mode: the same acceptance, the same array and write offset; the 1 or 0 returned is the number of bytes stored if and only if one byte was given or the data was refused |
| RttUpRing.UpRing.PutCharSkipNoLock | segger/SEGGER_RTT.c:1033-1060 | stores the byte exactly if a slot is free, as the one-byte specification says |
| RttUpRing.UpRing.WriteWithOverwriteNoLock | segger/SEGGER_RTT.c:655-725 | leaves the ring of the specification `Overwrite`, for every call that comes to an end; within the exact bound the stream gains the data and the ring holds exactly its newest bytes |
| RttUpRing.UpRing.OverwriteLoop | segger/SEGGER_RTT.c:687-724 | the copying loop with all its rounds equals the recursive description of what it lays down, and its control is the one of which `EndsIff` says when it ends |
| RttPolicies.SkipWrite | segger/SEGGER_RTT.c:910-922 | contents afterwards are the old ones followed by all of the data or by nothing |
| RttPolicies.TrimWrite | segger/SEGGER_RTT.c:923-930 | contents afterwards are the old ones followed by the longest prefix that fits |
| RttPolicies.PlacedFirst | segger/SEGGER_RTT.c:1044-1053 | laying down a block is laying down its first byte and then the rest, for every position and wrap |
| RttPolicies.TrimIsFoldOfPutChar | segger/SEGGER_RTT.c:923-930 | a trimming write leaves the same ring as the one-byte write folded over the data |
| RttPolicies.FullStaysFull | segger/SEGGER_RTT.c:1051-1057 | one-byte writes leave a full ring unchanged |
| RttOverwrite.ShortKeepsNewest | segger/SEGGER_RTT.c:671-725 | for data shorter than the ring the contents become exactly the newest bytes of old contents followed by data, as many as fit |
| RttOverwrite.LongKeepsNewest | segger/SEGGER_RTT.c:678-724 | the same for data as long as the ring or longer that does not reach the last slot twice |
| RttOverwrite.LongLosesOrder | segger/SEGGER_RTT.c:722-722 | beyond that bound, for every ring state and length there are data for which it fails |
| RttOverwrite.LastSlotKept | segger/SEGGER_RTT.c:722-722 | after a wrap no round writes the last slot again |
| RttOverwrite.NoSlotNoProgress | segger/SEGGER_RTT.c:687-724 | with no slot to copy to and bytes left, the state of the copying loop is the same after every number of rounds |
| RttOverwrite.SingleSlotRuns | segger/SEGGER_RTT.c:687-724 | in a ring of one slot the loop is not at its end after any number of rounds for two bytes or more |
| RttOverwrite.EndsIff | segger/SEGGER_RTT.c:687-724 | the copying loop comes to an end if and only if the ring has two slots or more, or at most one byte is given |
| RttOverwrite.OverwriteKeepsNewestIff | segger/SEGGER_RTT.c:655-725 | the newest bytes are kept for all data of length `n` if and only if `WrOff + n <= 2 * SizeOfBuffer - 2`, or the ring has a single slot and so holds nothing |
| RttDownRing.ChunksCoverWanted | segger/SEGGER_RTT.c:546-575 | the two chunks together are min(unread, wanted) bytes although `WrOff - RdOff` may underflow; it does exactly when the first chunk used up the caller's buffer, and then nothing more is wanted |
| RttDownRing.ChunksAreFront | segger/SEGGER_RTT.c:546-575 | the chunks are the front of the unread bytes, in order, and the read offset ends right behind them |
| RttDownRing.DownRing.HostPosts | segger/SEGGER_RTT.h:107-107 | the host appends any data that fits; a reader that works with an older write offset sees no change |
| RttDownRing.DownRing.AdvanceRead | segger/SEGGER_RTT.c:593-595 | assigning `RdOff` hands over exactly the bytes it moves past |
| RttDownRing.DownRing.ReadToWrap | segger/SEGGER_RTT.c:546-570 | copies the chunk up to the wrap-around, the host posting meanwhile |
| RttDownRing.DownRing.ReadRemaining | segger/SEGGER_RTT.c:574-592 | copies what is left, in the 32-bit arithmetic of the source |
| RttDownRing.DownRing.ReadNoLock | segger/SEGGER_RTT.c:526-598 | returns the first min(unread, BufferSize) bytes in order and keeps the remainder; posted = delivered + unread throughout, so any sequence of posts and reads loses and repeats nothing |
| RttTerminalStream.FeedConcat | segger/SEGGER_RTT.c:463-469 | demultiplexing does not depend on where the stream is cut |
| RttTerminalStream.FeedPayload | segger/SEGGER_RTT.c:463-469 | a payload without the escape byte goes to the current terminal unchanged |
| RttTerminalStream.FeedSwitch | segger/SEGGER_RTT.c:463-469 | the two bytes `0xFF <id>` select that terminal, for every id |
| RttTerminalStream.FeedFrame | segger/SEGGER_RTT.c:1702-1704 | switch, text, switch back puts the text on its terminal and restores the current one |
| RttTerminalStream.DemuxRecovers | segger/SEGGER_RTT.c:1618-1741 | for every run of calls with clean payloads every byte comes out on the terminal it was meant for and the reader ends on the active terminal |
| RttTerminalStream.DemuxOfPrefix | segger/SEGGER_RTT.c:1618-1741 | a reader in the middle of the stream has put out nothing it would not put out at the end |
| RttTerminal.Terminal.Write | segger/SEGGER_RTT.c:895-945 | a write that returns adds one plain event with exactly the bytes stored; one that waits has published a prefix; how many are stored, in each mode, from the free slots |
| RttTerminal.Terminal.SetTerminal | segger/SEGGER_RTT.c:1618-1649 | stores the two switch bytes whole or, outside blocking mode, not at all, as the free slots and the masked mode decide, with the return value saying which; the active terminal changes only on success |
| RttTerminal.Terminal.Framed | segger/SEGGER_RTT.c:1702-1704 | three blocking writes are one event; with room for text and four bytes each ends after at most two rounds whatever the probe does |
| RttTerminal.Terminal.TerminalOut | segger/SEGGER_RTT.c:1668-1741 | per masked mode and free slots: the whole text, the text trimmed to the space less four, or nothing, between its two switches; the active terminal and the reader's terminal are as before |
| RttTerminal.Terminal.StreamIsSorted | segger/SEGGER_RTT.c:1618-1741 | whatever valid calls came before, the published stream demultiplexes to the intended bytes and to `_ActiveTerminal`, and what the probe has read so far to a prefix of it |
| RttFormat.ParseUnsigned | segger/SEGGER_RTT_printf.c:147-231 | reading back what `_PrintUnsigned` puts out gives the value, under every flag, precision and width |
| RttFormat.ParseInt | segger/SEGGER_RTT_printf.c:237-307 | the same for `_PrintInt`, sign included |
| RttFormat.TextLength | segger/SEGGER_RTT_printf.c:147-307 | the field is exactly max(width, sign + max(precision, digits)) long |
| RttFormat.UnsignedTextAt | segger/SEGGER_RTT_printf.c:171-186 | character by character: the digits, and spaces or zeros, as the flags and the precision say, before or behind them |
| RttFormat.IntTextAt | segger/SEGGER_RTT_printf.c:258-306 | the same with the sign, minus or asked-for plus, before zeros and behind spaces |
| RttFormat.PointerText | segger/SEGGER_RTT_printf.c:447-450 | a pointer is eight hexadecimal digits that stand for it |
| RttFormat.DigitsOfTable | segger/SEGGER_RTT_printf.c:148 | the digits are those of the table 0-9, A-F |
| RttFormat.ValueOfFixed | segger/SEGGER_RTT_printf.c:207-215 | the digit string of fixed length stands for the number, by Horner evaluation |
| RttFormat.DigitCountFits | segger/SEGGER_RTT_printf.c:160-164 | the counted digits are enough, and one fewer is not |
| RttFormat.LeadingWeightFitsIff | segger/SEGGER_RTT_printf.c:193-203 | the leading weight fits 32 bits if and only if the precision is at most ten decimal or eight hexadecimal digits |
| RttFormat.WeightFits | segger/SEGGER_RTT_printf.c:193-203 | under that precision no weight the loop computes exceeds 32 bits, for every 32-bit value |
| RttFormat.SignedFieldInParts | segger/SEGGER_RTT_printf.c:261-305 | spaces, sign, zeros and the field of the number alone, as the source composes them, are the signed field, for any digits |
| RttDigits.WeightVanishes | segger/SEGGER_RTT_printf.c:193-203 | in 32 bits the weight is zero after 32 multiplications by ten, and after 8 by sixteen |
| RttDigits.TooPrecise | segger/SEGGER_RTT_printf.c:193-203 | a precision of more than 8 in base 16, or more than 32 in base 10, always ends in a division by zero |
| RttPrecision.NoDigitIff | segger/SEGGER_RTT_printf.c:207-215 | in base 10 a digit outside the table can only be the last: exactly when the last weight is one and what is left for it is 16 or more |
| RttPrecision.SearchEnds | segger/SEGGER_RTT_printf.c:193-203 | up to a precision of 32 the search in base 10 ends at some nonzero weight, which is that of 10^16 exactly for a precision of 17 |
| RttPrecision.DecimalWeightIff | segger/SEGGER_RTT_printf.c:193-203 | in base 10 the weight search divides by zero if and only if the precision is above 32 |
| RttPrecision.DecimalPrintableIff | segger/SEGGER_RTT_printf.c:188-215 | in base 10 the digit loops have no defined result if and only if the precision is above 32, or it is 17 and the number leaves 16 or more when reduced by the weights 1874919424 down to 18 |
| RttPrecision.SeventeenHasNoDigits | segger/SEGGER_RTT_printf.c:207-215 | 17 with a precision of 17 looks for digit 17 in the table of 16 |
| RttPrecision.PrintableIff | segger/SEGGER_RTT_printf.c:188-215 | a condition on number, base and precision alone that holds if and only if the digit loops have a defined result |
| RttDigits.WeightIsExact | segger/SEGGER_RTT_printf.c:193-203 | up to the precision a word has digits for, the wrapping loop finds the true weight of the leading digit, for every 32-bit value |
| RttDigits.EmittedIsExact | segger/SEGGER_RTT_printf.c:207-215 | from that weight the digit loop emits the fixed digits of the value |
| RttDigits.MachineDigitsIff | segger/SEGGER_RTT_printf.c:188-215 | the loops emit the number with the digits asked for, for every 32-bit value, if and only if the precision is at most ten decimal or eight hexadecimal digits |
| RttDigits.UnsignedOutputIff | segger/SEGGER_RTT_printf.c:147-231 | `_PrintUnsigned` puts out the text it should if and only if the precision is at most that, under every width and flags |
| RttDigits.IntOutputIff | segger/SEGGER_RTT_printf.c:237-307 | so does `_PrintInt`, if and only if besides, for -2^31, the field is left-justified, the precision is the limit itself, or the field is no wider than the digits counted |
| RttDigits.LeastNumber | segger/SEGGER_RTT_printf.c:241-253 | -2^31 is its own negation, so that one digit is counted for it; its field comes out right exactly under those conditions |
| RttFormatString.FlagsFound | segger/SEGGER_RTT_printf.c:357-368 | the longest run of flag characters is taken, and a flag is set exactly if its character occurs in it |
| RttFormatString.NumberFound | segger/SEGGER_RTT_printf.c:372-380 | the longest run of digits is taken, and the number is its value modulo 2^32 |
| RttFormatString.NumberReadsBack | segger/SEGGER_RTT_printf.c:385-397 | a number written in decimal is read back modulo 2^32 |
| RttFormatString.SpecReadsBack | segger/SEGGER_RTT_printf.c:354-409 | flags, width, precision and length modifiers written out are read back, up to the conversion character |
| RttFormatString.ConversionIsIntended | segger/SEGGER_RTT_printf.c:413-433 | up to the precision a word has digits for, a numeric conversion puts out the intended text |
| RttFormatString.TextInParts | segger/SEGGER_RTT_printf.c:347-461 | a conversion puts out its text and hands on the rest of the arguments, one less for the seven conversions that take one; any other character stands for itself |
| RttFormatString.TextOfString | segger/SEGGER_RTT_printf.c:434-446 | the text of %s and what follows it without a percent sign is the string and what follows |
| RttLoads.StuckFirst | segger/SEGGER_RTT_printf.c:134-137 | a load that is refused leaves the text cut at the load, in trim mode inside it, and then the ring had no room for all full loads from the start |
| RttLoads.StuckAgain | segger/SEGGER_RTT_printf.c:134-140 | the same load offered again continues the text outside trim mode; in trim mode its front comes again |
| RttLoads.AgainIsLoad | segger/SEGGER_RTT_printf.c:134-140 | what comes again in trim mode is the front of the very load in which the text was cut |
| RttLoads.HaltedFirst | segger/SEGGER_RTT_printf.c:134-137 | the load after the last accepted one is refused: the ring has got the loads before it and as much of it as the free slots took |
| RttLoads.HaltedAgain | segger/SEGGER_RTT_printf.c:134-140 | a second offer of the refused load adds its front, as much as is then free, whatever the ring has got of it already |
| RttLoads.PossibleIff | segger/SEGGER_RTT_printf.c:134-140 | what a row of offers finds in a ring, told from either end, is the same |
| RttLoads.PlaysAny | segger/SEGGER_RTT_printf.c:134-140 | whatever a row of offers can find in a ring, a run of the protocol makes it find |
| RttLoads.TakenOfCourse | segger/SEGGER_RTT_printf.c:134-140 | what the offers of a course take adds up to the text up to the refused load and one or two fronts of that load |
| RttLoads.CourseIsMet | segger/SEGGER_RTT_printf.c:134-140 | every course that offers can find in a ring is met by a run of the protocol |
| RttRepeats.LeftText | segger/SEGGER_RTT_printf.c:219-229 | a left-justified number is its sign, its digits and its padding |
| RttRepeats.SpaceFollows | segger/SEGGER_RTT_printf.c:207-229 | a character of the text on which a load would come again is no space, and a space follows it at most ten characters on |
| RttRepeats.DecidedPastChar | segger/SEGGER_RTT_printf.c:458-460 | a plain character is never such a one, and decides nothing for those after it |
| RttRepeats.DecidedPastConversion | segger/SEGGER_RTT_printf.c:413-456 | a conversion decides its own characters, exactly by the digits of a left-justified number that padding follows, and no others |
| RttTrim.CutBreaksLaw | segger/SEGGER_RTT_printf.c:219-229 | a load that ends on such a digit breaks the prefix law of trim mode with one slot free and then 63, or with 63 and then 64 |
| RttTrim.SmallPrefixLawIff | segger/SEGGER_RTT_printf.c:134-140 | in a ring too small for a load the law holds exactly if the first load is not so cut or the text begins with 2 * (slots - 1) equal characters |
| RttTrim.PrefixLawIff | segger/SEGGER_RTT_printf.c:134-140 | in trim mode the bytes a call stores are a prefix of its text, whatever the probe does, if and only if no buffer load of the text ends on a digit of a left-justified number that padding follows; smaller rings as above |
| RttTrim.LawFailsInRun | segger/SEGGER_RTT_printf.c:134-140 | where the law fails, a run of the protocol from any full ring of that size makes a call store what is no prefix of its text |
| RttTrim.SampleLawIff | segger/SEGGER_RTT_printf.c:219-229 | 63 letters and %-2u with the number 5: the law holds in a ring of at most 32 slots and fails in every larger one |
| RttTrim.SampleFails | segger/SEGGER_RTT_printf.c:219-229 | the run of the protocol that makes this call fail |
| RttPrintf.PrintfDesc.HandOver | segger/SEGGER_RTT_printf.c:134-140 | a full load is taken as far as the mode takes it, and the error value is set exactly when that is not all of it; the free slots it found are recorded; a blocking write that comes back took all |
| RttPrintf.PrintfDesc.StoreChar | segger/SEGGER_RTT_printf.c:122-141 | the books of the call are kept in every mode: as long as all loads went through, ring plus buffer are the text; after a refusal the ring holds what the free slots found say; a store after a refusal offers the same load again |
| RttPrintf.PrintfDesc.OfferFirst | segger/SEGGER_RTT_printf.c:134-140 | the first offer of a full buffer keeps the books, and a refusal is that of the load just filled |
| RttPrintf.PrintfDesc.OfferAgain | segger/SEGGER_RTT_printf.c:134-140 | so does a second offer of the same buffer, which cannot undo the error |
| RttPrintf.PrintfDesc.Pad | segger/SEGGER_RTT_printf.c:178-184 | pads up to the width, or stops at the first failed store with the rest accounted for; after a failed store it offers the load again exactly if there is something to pad |
| RttPrintf.PrintfDesc.LeadingDigit | segger/SEGGER_RTT_printf.c:193-203 | computes the weight in wrapping 32-bit arithmetic; it is base^(digits - 1) while the precision fits |
| RttPrintf.PrintfDesc.EmitDigits | segger/SEGGER_RTT_printf.c:207-215 | emits exactly the digits the division chain defines; a load refused meanwhile is offered once and ends on one of them |
| RttPrintf.PrintfDesc.ActualWidth | segger/SEGGER_RTT_printf.c:155-167 | max(precision, number of digits) |
| RttPrintf.PrintfDesc.PrintUnsigned | segger/SEGGER_RTT_printf.c:147-231 | for every printable number appends its output, whatever the stores do, and the intended text while the precision fits; a refused load comes again exactly if it ends on a digit, left-justified with padding behind |
| RttPrintf.PrintfDesc.PrintInt | segger/SEGGER_RTT_printf.c:237-307 | appends its signed output likewise, for every 32-bit number; the intended text exactly under the conditions above; a refused load comes again exactly as there, the digits counted from behind the sign |
| RttPrintf.PrintfDesc.PrintFromSign | segger/SEGGER_RTT_printf.c:275-306 | the part from the sign on, with the same account of a refusal |
| RttPrintf.PrintfDesc.PrintSign | segger/SEGGER_RTT_printf.c:276-283 | appends the sign the value and the flags ask for |
| RttPrintf.PrintfDesc.PrintString | segger/SEGGER_RTT_printf.c:434-446 | appends the string |
| RttPrintf.PrintfDesc.Convert | segger/SEGGER_RTT_printf.c:413-456 | appends the string for %s, the low byte for %c, a percent sign for %%, eight hexadecimal digits that stand for the pointer for %p, the outputs in base 10 for %d and %u, in base 16 for %x and %X, and nothing for any other character; a refused load comes again exactly if it ends on a digit of a left-justified number that padding follows |
| RttPrintf.PrintfDesc.Flush | segger/SEGGER_RTT_printf.c:463-471 | what was sent stays; only the last partial load is at stake, and as much of it goes in as the mode takes |
| RttPrintf.PrintfDesc.SendRest | segger/SEGGER_RTT_printf.c:467-469 | the last partial load goes in as far as the mode takes it |
| RttPrintf.ReadFlags | segger/SEGGER_RTT_printf.c:357-368 | takes the longest run of -, 0, + and #; each flag is set exactly if its character occurs in it |
| RttPrintf.ReadNumber | segger/SEGGER_RTT_printf.c:372-380 | takes the longest run of digits and its value modulo 2^32 |
| RttPrintf.ReadSpec | segger/SEGGER_RTT_printf.c:354-409 | reads back every specification that stands written out at its place |
| RttPrintf.FormatAll | segger/SEGGER_RTT_printf.c:347-461 | whatever the stores do, the text accounted for is that of the whole format, and a refused load is offered again exactly if it ends on a digit of a left-justified number that padding follows |
| RttPrintf.Finish | segger/SEGGER_RTT_printf.c:463-472 | what the call has stored and returns, from its mode, its text, the room and reads it met, and the free slots its loads found |
| RttPrintf.Vprintf | segger/SEGGER_RTT_printf.c:332-473 | in every mode, whatever the probe does, the bytes added are a prefix of the formatted text, except that in trim mode the front of the refused load may follow again if that load ends on a digit of a left-justified number that padding follows; outside blocking mode the bytes stored are exactly those that the free slots found by the loads determine, and those slots are ones that the ring can show; in skip mode the text is cut only at 64-byte loads; in skip and trim mode room for all full loads makes the call succeed, room for the text stores all of it, neither happens without that room plus what the probe reads, and the value returned is the number of bytes stored if and only if the text is made of full loads; in blocking mode a call that comes back has stored the whole text; the text of a sole %s is its string |
| RttPrintf.RttPrint | modules/rtt.c:31-37 | the string up to its first zero and a line end: outside blocking mode what is stored is a prefix of that, with room for it all of it, and so when a blocking call comes back |
| SampleWindow.RunMovesReader | signal/src/circular_buffer.cc:61-270 | for every run of operations the stream grows by exactly what was written and the contents are its suffix from where the samples taken less those given back leave the reader |
| SampleWindow.RewindRestores | signal/src/circular_buffer.cc:208-217 | rewinding by `n` after taking `n` restores those samples in front of all that is unread, with any writes and extensions in between |
| SampleWindow.CopiesRepeat | signal/src/circular_buffer.cc:157-184 | behind the old stream every sample of the copies is the one `count` before it |
| SampleWindow.ApplyAppend | signal/src/circular_buffer.cc:88-115 | appending adds exactly the block to the stream and its length to what is unread |
| CircularBuffers.StoredMirrors | signal/src/circular_buffer.cc:88-115 | writing a block into both halves keeps the array equal, in both halves, to the last `capacity` samples of the stream rotated by `write` |
| CircularBuffers.CountAfterWrite | signal/src/circular_buffer.cc:61-76 | the count from the two positions and the flag grows by exactly what is written, a full buffer included |
| CircularBuffers.TailStays | signal/src/circular_buffer.cc:163-180 | the source of an extension is undisturbed by all copies made so far, and no copy meets its own source |
| CircularBuffers.CircularBuffer.Reset | signal/src/circular_buffer.cc:27-33 | the stream is `capacity` zeros and nothing is readable |
| CircularBuffers.CircularBuffer.Available | signal/src/circular_buffer.cc:61-72 | between zero and the capacity, zero exactly if the flag is set, the capacity exactly if full |
| CircularBuffers.CircularBuffer.Add | signal/src/circular_buffer.cc:78-86 | appends one sample to the stream |
| CircularBuffers.CircularBuffer.StoreValues | signal/src/circular_buffer.cc:97-112 | the block stands in both halves, also when it is read from the buffer itself |
| CircularBuffers.CircularBuffer.StoreAround | signal/src/circular_buffer.cc:101-111 | the second half of a write that reaches the end, its source undisturbed by the first copies |
| CircularBuffers.CircularBuffer.StoreZeros | signal/src/circular_buffer.cc:125-140 | the same for zeros |
| CircularBuffers.CircularBuffer.Write | signal/src/circular_buffer.cc:88-115 | appends the block to the stream, also when the source is the buffer itself away from the copies |
| CircularBuffers.CircularBuffer.WriteZeros | signal/src/circular_buffer.cc:117-143 | appends zeros |
| CircularBuffers.CircularBuffer.Extend | signal/src/circular_buffer.cc:157-184 | appends exactly `n` copies of the last `count` samples, each sample the one `count` before it, and leaves the reader |
| CircularBuffers.CircularBuffer.ExtendContiguous | signal/src/circular_buffer.cc:168-172 | the same when the source lies in one piece |
| CircularBuffers.CircularBuffer.CopyWrappedTail | signal/src/circular_buffer.cc:176-179 | one copy of a tail that wraps around |
| CircularBuffers.CircularBuffer.ExtendWrapped | signal/src/circular_buffer.cc:173-181 | the same for all copies of it |
| CircularBuffers.CircularBuffer.Remove | signal/src/circular_buffer.cc:186-196 | takes and returns the oldest unread sample |
| CircularBuffers.CircularBuffer.Peek | signal/src/circular_buffer.cc:198-206 | the unread sample at the index |
| CircularBuffers.CircularBuffer.PeekDirect | signal/src/circular_buffer.cc:219-227 | from the place returned all remaining unread samples lie in one piece |
| CircularBuffers.CircularBuffer.PeekMax | signal/src/circular_buffer.cc:229-239 | the first `n` unread samples lie in one piece, `n` reaching to the wrap or to the end |
| CircularBuffers.CircularBuffer.Get | signal/src/circular_buffer.cc:241-258 | copies the first `n` unread samples in order, across the wrap |
| CircularBuffers.CircularBuffer.Discard | signal/src/circular_buffer.cc:260-270 | drops the oldest `n` |
| CircularBuffers.CircularBuffer.Rewind | signal/src/circular_buffer.cc:208-217 | gives back the last `n` samples taken |
| CircularBuffers.CircularBuffer.ReadableAt | signal/src/circular_buffer.cc:198-206 | an unread sample stands in both halves |
| CircularBuffers.CircularBuffer.ContiguousFrom | signal/src/circular_buffer.cc:219-227 | the mirrored half makes any unread rest contiguous |
| CircularBuffers.DrainInTwoRounds | signal/src/circular_buffer.cc:229-270 | alternating PeekMax and Discard yields the whole contents in order in at most two rounds |
| Msb.LeadingZerosComplement | signal/src/msb_32.cc:24-28 | leading zeros and bit length add up to the word width |
| Msb.GnuBranchAgrees | signal/src/msb_32.cc:23-36 | the compiled branches agree if and only if the argument is not zero |
| Msb.MostSignificantBit32 | signal/src/msb_32.cc:30-35 | the number n with 2^(n-1) <= x < 2^n, zero for zero |
| Msb.MostSignificantBit64 | signal/src/msb_64.cc:29-34 | the same for 64 bits |
| SquareRoot.NearestRootMeaning | signal/src/square_root_32.cc:40-42 | the integer condition used says exactly that the root lies strictly within one half, and that no tie occurs |
| SquareRoot.NearestRootMonotone | signal/src/square_root_64.cc:22-46 | the nearest root is monotone |
| SquareRoot.DigitStep | signal/src/square_root_32.cc:32-37 | one digit keeps the square bounds, the remainder and the scaled root, and the compared sum cannot overflow |
| SquareRoot.LoopStep | signal/src/square_root_32.cc:31-39 | the same for one pass, with the test bit of that pass |
| SquareRoot.StartCovers | signal/src/square_root_32.cc:27-30 | start bit and iteration count cover every argument |
| SquareRoot.LastDigit | signal/src/square_root_32.cc:40-42 | after the loop the remainder decides between the floor and the next integer exactly as rounding to nearest does |
| SquareRoot.Start32 | signal/src/square_root_32.cc:27-30 | establishes the loop invariant |
| SquareRoot.Start64 | signal/src/square_root_64.cc:30-33 | establishes the loop invariant |
| SquareRoot.Sqrt32 | signal/src/square_root_32.cc:22-43 | the nearest integer to the root up to 65535 * 65536, and 65535 beyond, with every intermediate value inside 32 bits |
| SquareRoot.Sqrt64 | signal/src/square_root_64.cc:22-46 | the nearest integer to the root, but 65535 strictly between 65535 * 65536 and 2^32, and 2^32 - 1 beyond (2^32 - 1) * 2^32, with every intermediate value inside 64 bits |
| SquareRoot.Root64Exact | signal/src/square_root_64.cc:23-28 | up to its cap it is the nearest root if and only if the argument is not strictly between 65535 * 65536 and 2^32, and there it is exactly one low |
| SquareRoot.Root64Monotone | signal/src/square_root_64.cc:26-28 | monotone over all 64-bit arguments, across the shortcut |
| FlashChip.PageProgramInside | monocle-core/monocle-drivers.c:391-400 | inside one page the wrap of the page program does not show |
| FlashChip.ProgrammedConcat | monocle-core/monocle-drivers.c:388-422 | programming in pieces is programming the whole |
| FlashChip.ProgrammedAt | monocle-core/monocle-drivers.c:380-423 | in range each byte is ANDed in its place and no other byte changes |
| FlashChip.WriteThenRead | monocle-core/monocle-drivers.c:346-423 | data written into an erased range is what is read from it, everywhere in the chip, and all else is unchanged |
| FlashChip.ReadsOn | monocle-core/monocle-drivers.c:365-377 | successive transfers under a held chip select yield consecutive memory |
| FlashChip.PollReleased | monocle-core/monocle-drivers.c:332-344 | a poll of a released chip tells whether it is busy |
| FlashChip.PollHeld | monocle-core/monocle-drivers.c:332-344 | a poll of a chip still held in a read ends the read and disturbs nothing |
| FlashDriver.ReversalCancels | monocle-core/monocle-drivers.c:272-309 | the driver's bit reversal undoes the order of the wire, in both directions |
| FlashDriver.AddressRoundTrip | monocle-core/monocle-drivers.c:410-413 | the chip sees the low 24 bits of the address in the three command bytes |
| FlashDriver.MonocleFlash.SpiWrite | monocle-core/monocle-drivers.c:282-330 | in one transfer of at most 255 bytes the chip receives exactly the caller's bytes; the caller's slice is left reversed |
| FlashDriver.MonocleFlash.ReverseInPlace | monocle-core/monocle-drivers.c:275-278 | exactly the slice is reversed byte by byte |
| FlashDriver.MonocleFlash.SpiRead | monocle-core/monocle-drivers.c:243-280 | in one transfer of at most 255 bytes the caller's slice gets exactly the bytes the chip put out |
| FlashDriver.MonocleFlash.FlashIsBusy | monocle-core/monocle-drivers.c:332-344 | one poll in terms of the chip |
| FlashDriver.MonocleFlash.WaitReady | monocle-core/monocle-drivers.c:354-357 | ends with a ready, released chip and unchanged memory from every state a call leaves behind |
| FlashDriver.MonocleFlash.WriteEnable | monocle-core/monocle-drivers.c:407-408 | sets the latch and nothing else |
| FlashDriver.MonocleFlash.FlashPageErase | monocle-core/monocle-drivers.c:425-446 | erases exactly the sector, or refuses a misaligned address without touching the chip |
| FlashDriver.MonocleFlash.ReadChunk | monocle-core/monocle-drivers.c:368-376 | one transfer delivers the next bytes of the range |
| FlashDriver.MonocleFlash.ReadTransfers | monocle-core/monocle-drivers.c:354-377 | the transfers under one chip select deliver the whole range |
| FlashDriver.MonocleFlash.FlashRead | monocle-core/monocle-drivers.c:346-378 | delivers exactly the range, the memory unchanged and chip select released unless the length is zero; refused calls touch nothing |
| FlashDriver.MonocleFlash.ProgramChunk | monocle-core/monocle-drivers.c:402-418 | one page program does what a program of that range is meant to do |
| FlashDriver.MonocleFlash.ProgramCopy | monocle-core/monocle-drivers.c:414-419 | the same from a copy, so that the caller's buffer is not reversed |
| FlashDriver.MonocleFlash.WritePieces | monocle-core/monocle-drivers.c:388-422 | no piece crosses a page or exceeds a transfer, and together they program the whole range |
| FlashDriver.MonocleFlash.FlashWrite | monocle-core/monocle-drivers.c:380-423 | the memory is that of programming the whole range at once, for every address and length, chip select released, the caller's buffer unchanged |
| FlashDriver.WriteAndReadBack | monocle-core/monocle-drivers.c:346-423 | what the driver writes to an erased range it reads back from it, all other memory and the caller's data unchanged, chip select released |
| FlashWorld.SectorsErasedAt | modules/update.c:85-88 | erasing the sectors one by one erases exactly the application area |
| FlashWorld.StorageLeavesApp | modules/storage.c:65-141 | a storage call that meets the exact condition below changes no byte below 0x6D000 nor the programmed count |
| FlashWorld.AppLeavesStorage | modules/update.c:64-93 | the application never changes a byte from 0x6D000 on |
| FlashWorld.DeleteHolds | modules/update.c:83-93 | a delete establishes the image invariant from any memory |
| FlashWorld.WriteHolds | modules/update.c:64-80 | an accepted write extends the image by exactly its bytes |
| FlashWorld.StepHolds | modules/update.c:64-93 | every call keeps the image invariant |
| FlashWorld.RunHolds | modules/update.c:64-93 | so does every run |
| FlashWorld.BootNeedsWholeImage | monocle-core/monocle-critical.c:369-384 | under the invariant the magic word is found if and only if all 0x6C812 bytes were accepted and they end in it |
| FlashWorld.FromEraseOn | modules/update.c:64-93 | from a delete on, after any application calls and any storage calls that spare the application, the flash begins with the concatenation of the accepted writes, and SPI boot is chosen if and only if that is a whole image with the magic word |
| FlashWorld.BlockInRange | modules/storage.c:51-57 | blocks inside the object come to the expected addresses, and calls for them spare the application |
| FlashWorld.AddressInWord | modules/storage.c:51-57 | the 32-bit address is congruent to start + 4096 * block + offset, for every block and offset |
| FlashWorld.SectorOfBlock | modules/storage.c:126-131 | an erase is aligned exactly if the start of the object is, for every block |
| FlashWorld.BlockWritten | modules/storage.c:74-86 | a write into a block ANDs the data in, over 0xFF in the sector erased for it, and changes no other byte |
| FlashWorld.EraseSparesAppIff | modules/storage.c:124-136 | an erase spares the application over all memories if and only if it is refused as misaligned or the address modulo the chip size is not below 0x6D000 |
| FlashWorld.BlockBeforeFirst | modules/storage.c:68-84 | block -1 comes to 0x6C000: its erase, also for a write, changes a byte of the application |
| FlashWorld.BlockPastLast | modules/storage.c:126-134 | block 0x93 of the default object comes to the chip's size: its erase changes byte 0 of the application |
| FlashWorld.BlockFarBefore | modules/storage.c:68-86 | block -110 comes to 0xFFFFF000: 0x2000 bytes wrap the 32-bit sum, the write is accepted and clears byte 0 of the application |
| FlashWorld.BlockReadsBackIff | modules/storage.c:81-86 | an in-range write without offset reads back over all memories for all data of its length if and only if it has at most 4096 bytes |
| FlashWorld.WriteSparesAppIff | modules/storage.c:65-89 | a write, with or without erase, spares the application for all data and memories if and only if it is refused, or the sector erased is storage's and the range programmed, if any, lies in the storage area of the chip without rolling over |
| FlashClients.FpgaApp.Write | modules/update.c:64-80 | refused exactly when it would pass 0x6C812, and then without effect; else the data are ANDed in from the counter on, no other byte changes, and the counter moves on |
| FlashClients.FpgaApp.Read | modules/update.c:48-61 | the requested bytes, or a refusal; for a negative address the 32-bit sum decides, and an overflow of the signed sum makes no difference |
| FlashClients.FpgaApp.Delete | modules/update.c:83-93 | every byte below 0x6D000 is 0xFF, every other as before, and the counter is zero |
| FlashClients.Storage.MakeNew | modules/storage.c:158-190 | the check refuses exactly the ranges outside the storage area if and only if it fails before the sum or the sum does not overflow; every range inside is accepted, every one outside without overflow refused |
| FlashClients.Storage.ReadBlocks | modules/storage.c:42-62 | inside the object the buffer is the memory from start + 4096 * block + offset on; in general that of the 32-bit address, or a refusal; memory unchanged |
| FlashClients.Storage.WriteBlocks | modules/storage.c:65-89 | inside the object exactly the range from start + 4096 * block + offset on is programmed, without an offset in its sector erased before, and no byte below 0x6D000 changes; a misaligned erase refuses the call; in general the storage-write step of the 32-bit address |
| FlashClients.Storage.EraseBlock | modules/storage.c:124-136 | inside the object exactly the sector from start + 4096 * block on is 0xFF and no byte below 0x6D000 changes; an input-output error exactly if the start is misaligned |
| FlashClients.Storage.Ioctl | modules/storage.c:92-141 | value per operation; only the block erase touches the flash, as said for it |
| FlashClients.BootMode | monocle-core/monocle-critical.c:369-383 | the mode pin says whether the bytes from 0x6C80E on are those of done |
| OverlapAdds.MixIn | signal/src/overlap_add.cc:24-33 | the in-place loop adds with 16-bit saturation: the sum, 32767 above it, -32768 below |
| OverlapAdds.OverlapAdd | signal/src/overlap_add.cc:22-38 | outputs the front of the saturating sums and keeps the rest followed by zeros, in place |
| OverlapAdds.BufferHoldsSums | signal/src/overlap_add.cc:22-38 | after any frames the buffer holds the saturating sums so far of the samples still to come |
| OverlapAdds.OutputsAreSums | signal/src/overlap_add.cc:22-38 | output sample `t` is the in-order saturating sum of every frame sample that covers `t` |
| OverlapAdds.UnsaturatedIsPlain | signal/src/overlap_add.cc:22-38 | when no partial sum saturates it is the plain sum |
| OverlapAdds.OverlapAddFrames | signal/src/overlap_add.cc:22-38 | the method itself on frame after frame puts out these outputs |
| FilterBank.AccumulateMod | signal/src/filter_bank.cc:41-44 | 64-bit accumulation with signed weights stays congruent to the true sum |
| FilterBank.FilterbankAccumulateChannels | signal/src/filter_bank.cc:21-50 | the one pass with carried accumulators gives, modulo 2^64, the two-pass definition: own band weighted plus previous band unweighted |
| FilterBank.Band | signal/src/filter_bank.cc:40-45 | both accumulators of one band |
| FilterBank.ChannelResponds | signal/src/filter_bank.cc:35-49 | a change of one bin changes a channel by that times the weight the bin has in its own band plus the unweight it has in the band before |
| FilterBank.SilenceIsZero | signal/src/filter_bank.cc:35-49 | a spectrum of zeros gives zero in every channel |
| FilterBank.EnergyIsConserved | signal/src/filter_bank.cc:35-49 | when the two weights add up to one total everywhere, all channels plus the last unweighted band are that total times the input energy |
| FilterBank.OutputsConserveEnergy | signal/src/filter_bank.cc:35-49 | the same for the words put out: always modulo 2^64, exactly when no channel leaves a word |
| SpectralSubtraction.FilterbankSpectralSubtraction | signal/src/filter_bank_spectral_subtraction.cc:21-61 | in place, also when the input array is the output array, every channel keeps the weighted mean of its scaled input and old estimate with the coefficients of its parity, at most the input when clamping, and puts out the input less it, not below the floor, for coefficients that add up to one and inputs that survive the shift; the exact words in every case |
| SpectralSubtraction.SmoothedBetween | signal/src/filter_bank_spectral_subtraction.cc:40-44 | nothing is truncated, and the new estimate lies between the old one and the scaled signal |
| SpectralSubtraction.MeanWordBetween | signal/src/filter_bank_spectral_subtraction.cc:41-44 | the 64-bit mean cut to 32 bits is the true weighted mean and lies between its values |
| SpectralSubtraction.EstimateBounds | signal/src/filter_bank_spectral_subtraction.cc:46-53 | the kept estimate is at most the larger of old estimate and signal, with clamping at most the signal |
| SpectralSubtraction.OutputBounds | signal/src/filter_bank_spectral_subtraction.cc:54-59 | every output lies between the floor and the input |
| SpectralSubtraction.OutputIsSignalLessNoise | signal/src/filter_bank_spectral_subtraction.cc:46-59 | the output is the input less the estimate in the input's scale, rounded up, but not below the floor |
| SpectralSubtraction.EstimatesStayBounded | signal/src/filter_bank_spectral_subtraction.cc:21-61 | over any frames an estimate never exceeds the largest initial estimate or scaled signal seen, with clamping not even the last signal |

## Left out

- RttUpRing.UpRing.WriteBlocking: a call may wait forever when the probe stops reading, so `patience` bounds how many rounds are watched; safety holds for every bound, and the contract says when two rounds are enough.
- RttUpRing.UpRing.WriteNoLock: `patience` as for WriteBlocking, in blocking mode only.
- RttUpRing.UpRing.WriteWithOverwriteNoLock: no probe reads meanwhile, as the source demands, and calls for which the copying loop of the source never ends are excluded.
- RttTerminal.Terminal.Write: `patience` as for WriteBlocking; the flag `returned` says whether the call came back.
- RttTerminal.Terminal.SetTerminal: `patience` likewise; terminal numbers are unsigned bytes, as `char` is on the target.
- RttTerminal.Terminal.Framed: `patience` likewise, at least two rounds.
- RttTerminal.Terminal.TerminalOut: `patience` likewise, at least two rounds.
- RttPrintf.PrintfDesc.PrintUnsigned: calls without a defined result are excluded, by a condition on number, base and precision that is exact (`PrintableIff`).
- RttPrintf.PrintfDesc.PrintInt: the same.
- RttPrintf.PrintfDesc.StoreChar: the overflow of the int return value for texts of 2^31 bytes is not modelled.
- RttPrintf.Vprintf: formats that do not end inside a conversion, which the source reads past; arguments fit their conversions, and every number is printable. In blocking mode `patience` as for WriteBlocking.
- RttPrintf.RttPrint: `patience` likewise.
- CircularBuffers.CircularBuffer.Reset: capacity above zero; the placement of the structure in raw memory and its size assertion are not modelled.
- CircularBuffers.CircularBuffer.PeekMax: a position stands for the returned pointer, zero for none.
- CircularBuffers.CircularBuffer.Write: a source inside the buffer itself must lie clear of the copies, as memcpy demands.
- FlashDriver.MonocleFlash.SpiWrite: only the flash as device; the copy made for data outside RAM does not show.
- FlashDriver.MonocleFlash.SpiRead: only the flash as device.
- FlashDriver.MonocleFlash.WaitReady: the busy time is an arbitrary finite number of polls; the poll hook does nothing.
- OverlapAdds.OverlapAdd: array lengths equal to the input size; the floating-point variant is not modelled.
- FilterBank.FilterbankAccumulateChannels: tables and spectrum are large enough for the bands, which the source takes for granted.
- SpectralSubtraction.FilterbankSpectralSubtraction: shift amounts below the word widths; the estimates in an array of their own.
- `CircularBufferShift` moves the read position without the flag, and `CircularBufferReserveForWrite` leaves the mirror unfilled; both break the invariant by design.
- RTT locks, initialisation, buffer naming and configuration, and the byte-loop build.
- The Python object layer above the flash clients: argument parsing, exceptions (shown as a false result or no object) and heap.
- The receive and transmit rings of `main.c`, Bluetooth, interrupts, power management, display, camera, touch, LED, microphone and bootloader.
- `log.cc`, `filter_bank_log.cc` and the FFT wrappers, whose errors need real analysis; `fft_auto_scale.cc`, `max_abs.cc`, `window.cc`, `energy.cc` and `filter_bank_square_root.cc`, which are simpler.
