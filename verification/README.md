# Verified model of the radio link

The repository carries a video and telemetry stream over lossy radio. A sender packs a stream of bytes
into packets, groups packets into blocks, adds the packets of a systematic erasure code and sends them
under running sequence numbers. A receiver collects the packets of one block, replaces what is missing
and hands the bytes on. Around this there are two parsers for radiotap headers, two checksums, a
publisher in shared memory and a log in shared memory. This project models that logic in Dafny and
proves what it is for.

Verify everything with `dafny verify dfyconfig.toml`.

## The parts

- **The field** (`Field`, `Polynomial`, `Tables`). Multiplication of bytes is the product of
  polynomials modulo x^8 + x^4 + x^3 + x^2 + 1, which is shown to be a field generated by x. The loops
  that fill the tables of the source are proved to fill them with powers, logarithms, inverses and
  products.
- **The kernels** (`Kernels`): the unrolled loops for `dst ^= c * src` and `dst = c * src`, for every
  length.
- **Matrix inversion** (`LinearAlgebra`, `Exchange`, `Inversion`). The in-place elimination, with its
  pivot search, row swaps, identity-row shortcut and final column swaps. The invariant says that the
  current matrix maps a mixture of arguments and results to the complementary mixture; every pivot
  exchanges one argument with one result.
- **The code** (`Cauchy`, `Erasure`, `Fec`). The parity of a block is a product with a matrix of the
  inverses of sums of distinct points. All its square parts, and all their leading minors, are
  nonsingular, so decoding succeeds and never leaves the diagonal. Encoding and then decoding restores
  every data block.
- **The stream** (`Interleave`, `Packets`, `Sender`, `Reception`, `Receiver`, `Delivery`, `EndToEnd`,
  `Restarts`, `Buffering`, `Counters`).
  The sender and the receiver are classes over arrays. The receiver implements a state machine over
  values; that machine refines a much simpler one which only remembers which packets of the newest
  block have arrived. So what is delivered of a block depends only on which of its packets arrive before
  a newer block begins: the whole block, or, with too many losses, the payloads that were received. What
  the buffer and the counters hold, and when the receiver takes the sender to have restarted and begins
  again itself, is told from the packets that arrive.
- **Radiotap** (`Radiotap`, `RadiotapIterators`, `RadiotapExamples`). A parse of the whole header, with its chain of bitmap
  words and vendor namespaces, as a function of the header; the two iterators of the source, proved to
  return its fields one by one; the fields that both know as a simple fold; and headers with their parse.
- **Checksums** (`Crc`, `Bursts`, `Mavlink`). The byte updates against division of polynomials, the
  detection of bursts, the mirror image, the seal of a MAVLink message, and exactly which damage within 16
  bits the seal does not show.
- **Shared memory** (`SharedMemory`). Writers and readers interleave freely, byte by byte.
- **The log** (`LogRing`). Messages are cut into records of a ring and put together again.

`Arithmetic` holds two facts about quotients, and `Machine` the sizes of machine words. Field operations and
similar functions are hidden inside most proofs, so that no proof about matrices or memory reasons about
bits.

## What is assumed

- Data and FEC packets per block are parameters, up to 32 each, as the buffers of the source allow; the
  source sets them to 8 and 4. The receiver has one block buffer, as in the source.
- For the end-to-end theorem, sequence numbers do not exceed 32 bits. A block stays together for the
  receiver exactly if its first number is a multiple of the size of a block and the block does not run over
  2^32 (`EndToEnd.StaysTogetherExactly`); so, as 12 does not divide 2^32, the assumption says exactly that no
  block falls apart (`EndToEnd.NoWrapExactly`). The first that does is block 357913941
  (`EndToEnd.BlockAtWrap`), and the next one begins with number 8. The sender itself is modelled with the wrap.
- The checksum flag of an arriving packet is a parameter; the source always passes true
  (`libwfb/wfb_rx_rawsock.c:688`). The theorems about what is delivered assume true.
- The clock of the sender is an arbitrary choice after each block, so FEC packets may be withheld at any
  time.
- Pointers have 8 bytes, and the machine is little-endian.
- The alignments of registered vendor namespaces are powers of two, as aligning with a mask requires.
- Log messages are shorter than 512 bytes, the length of the buffer in which they are formatted.

Five places where the code does not keep a promise are pinned down exactly, each with an input.

- Printing the log ends if and only if nothing is pending or the last message in the ring is complete
  (`LogRing.PrintingEnds`): otherwise every lap steps over the head. That happens whenever the log is
  printed between two records of one message (`LogRing.PrintingDuringPut`), for example after the first
  record of a message of 33 bytes (`LogRing.FirstRecordOnly`).
- The loop of `vt_crc16` ends if and only if the message is shorter than 65536 bytes (`Crc.LoopEnds`); for
  65536 bytes it does not (`Crc.LoopDoesNotEnd`).
- The extended radiotap iterator uses a pointer that its `init` never sets. `Radiotap.ComesToBit18` says
  for which headers, from the bits of the bitmap words and the length alone: some word in which the field
  numbers begin again has bit 18; no earlier word has bit 30, an unknown field, or bit 18 there itself;
  and all fields before that bit fit into the length. `Radiotap.UnsetExactly` proves that this is exact
  for every header, and `Radiotap.UnsetInput` gives a header of eight bytes. The model returns a result of
  its own, `UNSET`, in that place.
- The `init` of the plain radiotap iterator reads outside of the packet if and only if `RunsOutAtInit`: the
  fixed part of the header is cut off before something that is read, or the bitmap words within the stated
  length promise another one and the memory ends first (`RadiotapIterators.PlainIterator.Init`). So it is
  for the bytes 00 00 08 00 00 00 00 80 (`RadiotapIterators.RunsOutInput`).
- The seal of a MAVLink message does not show every burst of 16 bits, because the extra byte goes into the
  checksum but is not sent. A sealed message stays sealed under damage within 16 bits in a row if and only
  if it changes the four bytes around the end of the payload in one of seven ways (`Mavlink.DamageBreaksSeal`,
  for every message): the last two bytes before the checksum and the two of the checksum, by exclusive or
  with 88 51 01 00, 98 f2 03 00, 10 a3 02 00, 40 ac 29 00, 00 91 85 00, 00 64 35 02 or 00 c8 6a 04. Damage
  within 13 bits always shows. `Mavlink.ElusiveInput` gives two sealed messages 14 bits apart.

## Model

| member | source | states |
|---|---|---|
| `Polynomial.MulIsRemainder` | libwfb/fec.c:111-134 | field multiplication is the remainder of the polynomial product modulo the primitive polynomial of the table |
| `Field.MulAddLeft` | libwfb/fec.c:172-195 | multiplication distributes over exclusive or |
| `Field.MulComm` | libwfb/fec.c:172-195 | multiplication is commutative |
| `Field.MulAssoc` | libwfb/fec.c:172-195 | multiplication is associative |
| `Field.XIsPrimitive` | libwfb/fec.c:209-218 | the powers of x return to 1 after 255 steps and not before |
| `Field.ExpSurjective` | libwfb/fec.c:233-236 | every nonzero byte is a power of x, so every entry of the logarithm table is set |
| `Field.InvUnique` | libwfb/fec.c:147-148 | whatever multiplies to 1 is the inverse |
| `Tables.ModNn` | libwfb/fec.c:150-162 | the folding loop ends, and gives x modulo 255 for every x >= 0; a negative argument is only truncated to a byte |
| `Tables.ModulusIsExp8` | libwfb/fec.c:231-252 | the sum of the terms of the polynomial string is the eighth power of x |
| `Tables.NextPower` | libwfb/fec.c:259-266 | the shift with the two branches is multiplication by x |
| `Tables.ProductByLogs` | libwfb/fec.c:197-203 | adding logarithms modulo 255 multiplies, for nonzero factors |
| `Tables.InverseByLog` | libwfb/fec.c:275-283 | the power at 255 minus the logarithm is the inverse |
| `Tables.Galois.GeneratePowers` | libwfb/fec.c:223-273 | the loops fill both tables with all powers and all logarithms, doubled so that sums need no reduction |
| `Tables.Galois.GenerateInverses` | libwfb/fec.c:275-284 | every entry is the inverse of its index, and 0 for 0 |
| `Tables.Galois.InitMulTable` | libwfb/fec.c:197-207 | every entry is the product of its row and its column, also in the row and column of 0 |
| `Tables.Galois.FecInit` | libwfb/fec.c:676-688 | after it all tables are what the code needs |
| `Kernels.SlowAddMul1` | libwfb/fec.c:305-342 | the unrolled loop adds c times the source, byte for byte, for every length including those below 16, and changes nothing else |
| `Kernels.AddMulBlock` | libwfb/fec.c:408-414 | the same with the shortcut for c = 0 |
| `Kernels.SlowMul1` | libwfb/fec.c:435-472 | the unrolled loop stores c times the source, for every length, and changes nothing else |
| `Kernels.MulBlock` | libwfb/fec.c:538-546 | the same with the shortcut for c = 0, which clears |
| `LinearAlgebra.ExchangeIsInverse` | libwfb/fec.c:545-552 | a matrix that undoes another in both directions is its two-sided inverse |
| `Exchange.ExchangeSwapRows` | libwfb/fec.c:610-619 | a row swap keeps the exchange invariant, with the results permuted alike |
| `Exchange.ExchangePivot` | libwfb/fec.c:620-655 | a pivot step exchanges one argument with one result |
| `Exchange.ExchangeSwapColumns` | libwfb/fec.c:658-668 | a column swap takes back one row swap of the permutation |
| `Exchange.NoPivotIsSingular` | libwfb/fec.c:587-607 | if no pivot is left in some column, the original matrix maps a nonzero vector to zero |
| `Exchange.ExchangeEnd` | libwfb/fec.c:658-669 | when everything is exchanged and the permutation undone, the matrix is the inverse of the original |
| `Exchange.ZeroDiagonalIsSingularMinor` | libwfb/fec.c:577-586 | leaving the diagonal would show that a leading minor of the original is singular |
| `Inversion.FindPivot` | libwfb/fec.c:577-607 | finds a nonzero element outside the pivoted rows and columns exactly if there is one, and the diagonal one if it is nonzero |
| `Inversion.SwapRows` | libwfb/fec.c:610-619 | the two rows change places |
| `Inversion.NormalizeRow` | libwfb/fec.c:622-638 | the pivot row is divided by the pivot, and holds its inverse in the place of the pivot |
| `Inversion.EliminateUnlessUnit` | libwfb/fec.c:640-656 | every other row loses its multiple of the pivot row, and leaving that out for an identity row makes no difference |
| `Inversion.Pivot` | libwfb/fec.c:622-656 | the three together are one pivot step |
| `Inversion.UnscrambleColumns` | libwfb/fec.c:658-668 | the swaps in reverse order undo the whole permutation |
| `Inversion.InvertMat` | libwfb/fec.c:551-672 | for every k and every matrix: an error is reported exactly if the matrix is singular; otherwise the array holds the two-sided inverse, and the pivots were nonzero elements in unused rows and columns of the matrix as eliminated so far, on the diagonal where possible; if no leading minor is singular all are on the diagonal |
| `Cauchy.CauchyIsNotSingular` | libwfb/fec.c:753-761 | a matrix of inverses of sums of distinct points is not singular |
| `Cauchy.CauchyMinorsAreNotSingular` | libwfb/fec.c:753-761 | nor is any of its leading minors |
| `Erasure.DecodingMatrixIsNotSingular` | libwfb/fec.c:871-888 | every matrix that a decoding builds, from distinct FEC numbers and erased indices below 128, is not singular, nor are its leading minors |
| `Erasure.ParityDetermines` | libwfb/fec.c:690-705 | data blocks that agree outside the erased ones and have the same parities are the same |
| `Erasure.InverseSolves` | libwfb/fec.c:854-916 | what the inverse makes of the reduced FEC blocks satisfies the parity equations |
| `Fec.CoefficientIndex` | libwfb/fec.c:799-804 | the three ways of indexing the table of inverses mean the same coefficient |
| `Erasure.ParityOfExample` | libwfb/fec.c:690-705 | the first two FEC blocks of two data blocks, in numbers |
| `Fec.FecEncode` | libwfb/fec.c:783-806 | column by column, every FEC block becomes its parity of all data blocks; nothing else changes, and nothing at all without data blocks |
| `Fec.Reduce` | libwfb/fec.c:808-838 | each FEC block is left with the contribution of the erased data blocks only |
| `Fec.BuildMatrix` | libwfb/fec.c:865-883 | the matrix holds the coefficients of the erased blocks in the FEC blocks at hand |
| `Fec.InvertedMatrix` | libwfb/fec.c:871-905 | the matrix built is inverted; the failing branch cannot be reached |
| `Fec.Resolve` | libwfb/fec.c:907-916 | writes only the erased blocks: the product of the inverse with the reduced FEC blocks |
| `Fec.FecDecode` | libwfb/fec.c:918-944 | only the erased data blocks and the FEC blocks change; afterwards the parity equations of all FEC blocks used hold; and if the FEC blocks were the parities of some data, the result is that data byte for byte |
| `Interleave.OrderOfBlock` | libwfb/wfb_tx_rawsock.c:443-483 | the order in which the loop goes through a block is the closed form, position by position |
| `Interleave.OrderOfEightAndFour` | libwfb/wfb_tx_rawsock.c:443-483 | that order for a block of 8 data and 4 FEC packets |
| `Sender.TransmissionFollowsOrder` | libwfb/wfb_tx_rawsock.c:443-483 | what is sent for a block is its packets in that order: data and FEC packets alternate, and the rest of the longer kind follows |
| `Interleave.SlotsAreBijective` | libwfb/wfb_rx_rawsock.c:233-269 | slots and packets of a block determine each other, for all numbers of data and FEC packets |
| `Interleave.SequenceNumberSplits` | libwfb/wfb_rx_rawsock.c:153-158 | quotient and remainder recover block and slot |
| `Interleave.SequenceNumberIsInjective` | libwfb/wfb_rx_rawsock.c:506-507 | a sequence number determines block, kind and index |
| `Packets.LengthRoundTrip` | libwfb/wfb_tx_rawsock.c:667-678 | the length field is read back as it was written |
| `Packets.EncodedBytes` | libwfb/wfb_tx_rawsock.c:667-678 | byte i of the length field is the length divided by 256^i, modulo 256 |
| `Packets.DecodedIsEncoded` | libwfb/wfb_rx_rawsock.c:430-440 | any four bytes are the encoding of the length that is read from them |
| `Sender.PacketBuffer.Append` | libwfb/wfb_tx_rawsock.c:644-661 | as many bytes are taken as there are, or as fit behind the length field, whichever is less, and the payload grows by exactly those |
| `Sender.CutIsFull` | libwfb/wfb_tx_rawsock.c:644-693 | n bytes at hand make as many packets with a payload of 1020 bytes as possible, and one more of the rest if that has 20 bytes |
| `Sender.WithheldInRun` | libwfb/wfb_tx_rawsock.c:436-551 | with blocks of at least four rounds, every block of a stream is sent whole, or without its FEC packets 1 and 3 |
| `Sender.PacketBuffer.WriteLength` | libwfb/wfb_tx_rawsock.c:666-678 | a finished packet has a payload of 20 to 1020 bytes, the ones gathered |
| `Sender.TxStream.EncodeBlock` | libwfb/wfb_tx_rawsock.c:410-431 | the FEC packets are the parities of the packets of the block |
| `Sender.TxStream.SendInterleaved` | libwfb/wfb_tx_rawsock.c:436-483 | what is sent is the block in slot order; withheld FEC packets keep their numbers |
| `Sender.TxStream.TransmitBlock` | libwfb/wfb_tx_rawsock.c:406-551 | one block is sent, the sequence number advances modulo 2^32, and the buffers are free again |
| `Sender.TxStream.WfbTxStream` | libwfb/wfb_tx_rawsock.c:638-694 | for every way to cut the input into calls: payloads of finished blocks, finished packets and the pending bytes together are the input; the packets finished in a call have the sizes into which the pending bytes and those of the call are cut, all full but the last; the rest, less than 20 bytes, is pending; everything sent is that of the finished blocks; the loop ends |
| `Receiver.RxStream.Split` | libwfb/wfb_rx_rawsock.c:229-269 | the loop finds every packet of the block in its slot, and counts the missing ones of each kind |
| `Reception.PairingIsDecodable` | libwfb/wfb_rx_rawsock.c:281-286 | for every pattern of losses the pairs ascend in both components, are as many as the decoder may use, and replace bad packets by received ones |
| `Reception.AsManyPairsAsPossible` | libwfb/wfb_rx_rawsock.c:317-402 | also for a damaged block: the number of pairs is the smaller of the numbers of bad data packets and of received FEC packets, and the pairs are the first of both |
| `Receiver.RxStream.PairUp` | libwfb/wfb_rx_rawsock.c:317-402 | the loop ends and pairs the first bad data packets with the first received FEC packets, min(bad, received) of them |
| `Receiver.RxStream.Decode` | libwfb/wfb_rx_rawsock.c:425-427 | leaves all other packets alone and satisfies the parity equations |
| `Receiver.Deliver` | libwfb/wfb_rx_rawsock.c:430-446 | appends the payload, cut off at the packet length if the length field is too large |
| `Receiver.RxStream.FlushBlock` | libwfb/wfb_rx_rawsock.c:217-478 | counts, repairs, delivers and empties the buffer |
| `Receiver.RxStream.Store` | libwfb/wfb_rx_rawsock.c:499-522 | a packet fills its slot unless a correct one is there |
| `Receiver.RxStream.StartBlock` | libwfb/wfb_rx_rawsock.c:174-482 | a newer block delivers the old one; a restart gives it up and clears the counters |
| `Receiver.RxStream.ProcessPayload` | libwfb/wfb_rx_rawsock.c:138-523 | one arriving packet is one step of the state machine `Reception.Step`, and appends to the output exactly what the step emits |
| `Delivery.RepairableIsDecoded` | libwfb/wfb_rx_rawsock.c:404-427 | with no fewer FEC packets received than data packets missing, every data packet is restored |
| `Delivery.DeliversFlushOutput` | libwfb/wfb_rx_rawsock.c:404-466 | a block delivers its whole payload if it is repairable, and otherwise exactly the payloads of the data packets received, in order |
| `Delivery.ReceiverRefinesSimple` | libwfb/wfb_rx_rawsock.c:138-523 | over a channel that drops, repeats and reorders, the receiver agrees at every time with the machine that only remembers which packets arrived |
| `Delivery.InOrderOutput` | libwfb/wfb_rx_rawsock.c:163-217 | without overtaking, the output is that of the blocks before the newest, each from the set of packets that arrived of it |
| `Delivery.TimelyIsEnough` | libwfb/wfb_rx_rawsock.c:484-522 | for all arrivals: leaving out every packet of a block that had been overtaken changes neither the state nor the output, and what is left is in order |
| `Delivery.OnlyTheSetMatters` | libwfb/wfb_rx_rawsock.c:509-521 | for all arrivals: the state and the output depend only on the set of timely packets of each block, not on order or repetition |
| `Delivery.SameSetsSameBytes` | libwfb/wfb_rx_rawsock.c:138-523 | two runs of the receiver, over any two channels inside the restart window, deliver the same bytes if the timely packets of each block are the same |
| `Delivery.LateOrRepeatedChangesNothing` | libwfb/wfb_rx_rawsock.c:484-522 | one step: a packet of an older block inside the restart window, or a second copy, leaves the whole state as it is |
| `Delivery.RunDelivers` | libwfb/wfb_rx_rawsock.c:138-523 | in every run inside the restart window, each block before the newest is delivered as its timely packets allow: whole, or the payloads received |
| `Delivery.RepairableRunDeliversStream` | libwfb/wfb_rx_rawsock.c:138-523 | if every block before the newest is repairable from its timely packets, exactly their bytes are delivered |
| `Counters.RunInvariant` | libwfb/wfb_rx_rawsock.c:172-218 | in every reachable state, whatever arrives: the buffer holds the newest block; since the last restart blocks were delivered at most once, in ascending order; the counters tell how many they were, how many of them had fewer packets than data packets, how many packets of them arrived, and how many did not |
| `Counters.RunCounts` | libwfb/wfb_rx_rawsock.c:270-296 | for every run of genuine packets inside the restart window, told from the arrivals alone: received is, modulo 2^32, the sum of the numbers of timely packets of the blocks before the newest, and lost the number of the other places of those of them that were heard of |
| `Counters.CountsOfBlock` | libwfb/wfb_rx_rawsock.c:270-296 | one block adds to received the number of places that hold a packet, to lost the number of the others, and counts as damaged exactly if there are fewer than data packets |
| `Counters.RepairableIsEnough` | libwfb/wfb_rx_rawsock.c:404-417 | a block can be repaired exactly if as many of its packets arrive, of either kind, as it has data packets |
| `Counters.WhatIsDelivered` | libwfb/wfb_rx_rawsock.c:430-446 | whatever the packets contain: all of them are delivered if enough arrived, and otherwise those that did, each with at most 1024 bytes |
| `Counters.DamagedIsDecoded` | libwfb/wfb_rx_rawsock.c:317-427 | data packets with wrong checksums are repaired like missing ones, if there are as many FEC packets |
| `Counters.CountersAfterFlush` | libwfb/wfb_rx_rawsock.c:288-296 | delivering a block adds the packets that arrived to one counter and the others to the other |
| `Restarts.NewestIsCurrent` | libwfb/wfb_rx_rawsock.c:172-218 | in every run, whatever arrives: the block in the buffer is the newest, where a packet with a right checksum more than 128 blocks behind begins anew; and the restart counter is the number of such packets, modulo 2^32 |
| `Restarts.NotFarBehind` | libwfb/wfb_rx_rawsock.c:172-174 | a packet at most 128 blocks behind, or with a wrong checksum, never restarts; if it is behind it changes nothing |
| `Restarts.RestartBeginsAgain` | libwfb/wfb_rx_rawsock.c:172-200 | a packet with a right checksum more than 128 blocks behind: the counters are cleared, nothing of the old block is delivered, and from then on the states are those of a new receiver that sees this packet first, but for the number of restarts |
| `Restarts.StreamArrivesAgain` | libwfb/wfb_rx_rawsock.c:172-523 | so what the sender sends after a restart arrives like a first stream, behind what had been delivered before |
| `Buffering.BufferTells` | libwfb/wfb_rx_rawsock.c:499-522 | in every run, whatever arrives: a place of the buffer holds a packet exactly if one came for it since the newest block began; it counts as correct exactly if one of these had a right checksum; it holds the first such, or the last packet if there is none |
| `Buffering.OnlyOneKept` | libwfb/wfb_rx_rawsock.c:509-521 | which packet that is, is determined by what arrived |
| `EndToEnd.SentMembers` | libwfb/wfb_tx_rawsock.c:443-483 | the packets on the air are exactly those of the finished blocks that are not withheld, each under its number |
| `EndToEnd.StreamArrives` | libwfb/wfb_rx_rawsock.c:419-466 | from the bytes given to the sender to the bytes delivered, over a channel that loses, repeats, reorders and mixes blocks inside the restart window: each block of the sender as its timely packets allow; and with enough of them for every block before the newest, the input up to the end of those blocks |
| `EndToEnd.StreamArrivesInOrder` | libwfb/wfb_rx_rawsock.c:163-217 | over a channel in which no block overtakes another, everything that arrives of a block counts; with enough of every block before the newest, the bytes given to the sender up to that block are delivered |
| `EndToEnd.StaysTogetherExactly` | libwfb/wfb_rx_rawsock.c:153-158 | the receiver sees the packets of a block as one block if and only if its first number, modulo 2^32, is a multiple of the size of a block and the block does not run over 2^32 |
| `EndToEnd.NoWrapExactly` | libwfb/wfb_rx_rawsock.c:153-158 | unless the size of a block divides 2^32, all of the first blocks stay together if and only if their numbers fit into 32 bits |
| `EndToEnd.BlockAtWrap` | libwfb/wfb_rx_rawsock.c:153-158 | with 8 data and 4 FEC packets block 357913941 is the first to fall apart, and the next one does too |
| `Radiotap.AllInside` | libwfb/radiotap_rc.c:388-432 | every field shown lies behind the bitmaps and within the stated length, and is aligned |
| `Radiotap.HitsBounded` | libwfb/radiotap_rc.c:319-481 | a whole parse shows at most 31 fields for each bitmap word |
| `Radiotap.AdvanceAdvances` | libwfb/radiotap_rc.c:455-476 | every turn uses up a bit, and a further bitmap word is only entered if it exists |
| `Radiotap.UnsetExactly` | libwfb/radiotap_rc.c:352-371 | for every header: the pointer that was never set is used if and only if the bitmap words come to a bit 18 in the way `ComesToBit18` says |
| `Radiotap.UnsetInOneWord` | libwfb/radiotap_rc.c:352-371 | with one bitmap word: if and only if bit 18 is set and the set fields below it fit into the length |
| `Radiotap.UnsetInput` | libwfb/radiotap_rc.c:181-250 | the bytes 00 00 08 00 00 00 04 00 are a header that is accepted, and on which it is used |
| `Radiotap.SetWithoutBit18` | libwfb/radiotap_rc.c:352-371 | with bit 18 clear in every word it is never used |
| `Radiotap.ParseWalks` | libwfb/radiotap_rc.c:319-481 | the fields below 14 of the first bitmap word are those of align-up and advance, and so is a length error among them |
| `Radiotap.FirstFields` | libwfb/radiotap_rc.c:319-481 | so every header begins with the fields of that simple fold; all others come later, and with one bitmap word they are numbers from 14 on |
| `Radiotap.RtapSizes` | libwfb/radiotap_rc.c:21-135 | the alignments and sizes of the fields 0 to 22, in numbers |
| `Radiotap.BitsOfWord` | libwfb/radiotap_rc.c:201-221 | for every header: the bits of a bitmap word are those of its four bytes, the first byte first and the least significant bit first |
| `Radiotap.RateInput` | libwfb/radiotap_rc.c:319-481 | the whole parse of the bytes 00 00 09 00 04 00 00 00 16: field 2 at offset 8 |
| `RadiotapExamples.UnknownVendor` | libwfb/radiotap_rc.c:319-481 | the whole parse of a header of three bitmap words with a vendor namespace that is not registered |
| `RadiotapExamples.KnownVendor` | libwfb/radiotap_rc.c:319-481 | the same header, with two namespaces of that vendor registered |
| `RadiotapExamples.VendorWithoutFields` | libwfb/radiotap_rc.c:352-371 | the same header, with the namespace registered without fields |
| `RadiotapExamples.TooShort` | libwfb/radiotap_rc.c:431-439 | a field beyond the stated length is an error |
| `RadiotapExamples.NotKnown` | libwfb/radiotap_rc.c:352-360 | an unknown field number ends the parse without an error |
| `RadiotapExamples.NumbersGoOn` | libwfb/radiotap_rc.c:455-467 | without a change of the namespace the numbers go on in the next word |
| `Radiotap.TablesAgree` | libwfb/radiotap.c:135-154 | the nibbles of the plain iterator's table are the alignments and sizes of the other iterator's table |
| `RadiotapIterators.IteratorsAgree` | libwfb/radiotap.c:114-237 | for every header that both accept, both iterators show the same fields at the same places up to the last one that the plain iterator knows, and the same length error among them |
| `RadiotapIterators.FindNamespace` | libwfb/radiotap_rc.c:252-271 | the first registered namespace that matches |
| `RadiotapIterators.SkipBitmaps` | libwfb/radiotap_rc.c:216-243 | succeeds exactly if the chain of bitmap words ends within the stated length, and finds its end |
| `RadiotapIterators.ExtendedIterator.Init` | libwfb/radiotap_rc.c:181-250 | accepts exactly the version-0 headers that fit and have such a chain, and starts behind it |
| `RadiotapIterators.ExtendedIterator.NextBitmap` | libwfb/radiotap_rc.c:455-467 | the word read is one of those that were checked in the beginning |
| `RadiotapIterators.ExtendedIterator.FindVendor` | libwfb/radiotap_rc.c:393-412 | reads the name only if it lies within the length |
| `RadiotapIterators.ExtendedIterator.OneTurn` | libwfb/radiotap_rc.c:319-481 | one turn of the loop is one move of the parse, for every bit, namespace and error |
| `RadiotapIterators.ExtendedIterator.Next` | libwfb/radiotap_rc.c:319-481 | ends, and returns the next field of the parse, inside the header, or the error in which the parse ends |
| `RadiotapIterators.SkipBitmapsLoosely` | libwfb/radiotap.c:65-90 | succeeds exactly if all bitmap words but the second and the last end within the length, and says exactly when the chain runs out of memory |
| `RadiotapIterators.PlainIterator.Init` | libwfb/radiotap.c:44-95 | accepts exactly the version-0 headers that fit and have such a chain, starts behind it, and says exactly when something outside of memory is read |
| `RadiotapIterators.RunsOutInput` | libwfb/radiotap.c:44-95 | the bytes 00 00 08 00 00 00 00 80 are such a header |
| `RadiotapIterators.PlainIterator.Next` | libwfb/radiotap.c:114-237 | ends, and returns the next field of the simple walk, or its error |
| `Crc.FoldIsSerial` | rhex_air/control/crc.c:11-37 | a byte at once is eight steps of one bit, the highest bit first |
| `Crc.Worker` | rhex_air/control/crc.c:11-37 | the byte shuffling computes those eight steps |
| `Crc.VtCrc16` | rhex_air/control/crc.c:39-53 | the register after all bits of the message, for every seed and every length below 65536 |
| `Crc.LoopEnds` | rhex_air/control/crc.c:42-50 | some number of turns brings the 16-bit index of the loop to the end exactly of the messages shorter than 65536 |
| `Crc.LoopDoesNotEnd` | rhex_air/control/crc.c:42-50 | for 65536 bytes no number of turns does |
| `Crc.SerialIsRemainder` | rhex_air/control/crc.c:39-53 | that register is the remainder of m x^16 + seed x^n on division by x^16 + x^12 + x^5 + 1 |
| `Crc.SerialConcat` | rhex_air/control/crc.c:47-50 | the register of a concatenation is that of the second part, started with that of the first |
| `Crc.ByteBurstDetected` | rhex_air/control/crc.c:39-53 | different messages that agree outside a window of 16 bits have different checksums |
| `Crc.UpwardBurstDetected` | rhex_ground/include/private/mavlink_defs.h:175-192 | the same for the X.25 checksum |
| `Crc.MirrorReverses` | rhex_ground/include/private/mavlink_defs.h:153-163 | the mirror image has the bits in reverse order |
| `Crc.AccumulateIsMirrored` | rhex_ground/include/private/mavlink_defs.h:153-163 | the update of the accumulator is the mirror image of eight serial steps, the lowest bit first |
| `Crc.MessageMirrored` | rhex_ground/include/private/mavlink_defs.h:144-163 | lowest bit first is highest bit first on bit-reversed bytes |
| `Crc.Checksum.Accumulate` | rhex_ground/include/private/mavlink_defs.h:153-163 | one byte |
| `Crc.Checksum.AccumulateBuffer` | rhex_ground/include/private/mavlink_defs.h:193-209 | all bytes, from any start value |
| `Crc.Checksum.Calculate` | rhex_ground/include/private/mavlink_defs.h:175-192 | the mirror image of the other checksum on bit-reversed bytes with seed 0xFFFF |
| `Mavlink.Seal` | rhex_ground/rhex_control.c:38-43 | the three calls in a row give the checksum of fields, payload and extra byte, stored low byte first behind the payload |
| `Mavlink.Transmitter.MessageBuffer` | rhex_ground/rhex_control.c:27-44 | the fields are set, the length field to the length as a number (`Mavlink.IndexOfByte`), the sequence number advances, the message is sealed and nothing else changes; a reader who knows only the bytes finds the seal by the length field |
| `Bursts.OnlySevenElusive` | rhex_ground/include/private/mavlink_defs.h:153-163 | only seven changes of two bytes fit into 16 bits together with what they make of the register one byte later |
| `Bursts.PairAbsorbed` | rhex_ground/include/private/mavlink_defs.h:153-163 | two bytes and a third: the register is that of the third and the rest, plus the two bytes times x^24 |
| `Mavlink.SealAfterChange` | rhex_ground/rhex_control.c:38-43 | whether a change of the last two bytes and the checksum keeps the seal depends on the change alone: that of the checksum has to be x^24 times the other |
| `Mavlink.DamageBreaksSeal` | rhex_ground/rhex_control.c:38-43 | for every sealed message and all damage within 16 bits of fields, payload and checksum: it stays sealed if and only if the damage is one of the seven changes; damage within 13 bits always breaks the seal |
| `Mavlink.ElusiveInput` | rhex_ground/rhex_control.c:38-43 | two sealed messages that differ in 14 bits in a row only |
| `SharedMemory.AlignSize` | libsvc/sharedmem.c:38-42 | the least multiple of 8 that is large enough |
| `SharedMemory.SlotsFit` | libsvc/sharedmem.c:44-48 | slots do not overlap, fit into the map and begin on whole words |
| `SharedMemory.SlotOf` | libsvc/sharedmem.c:162-164 | value n is in slot n + 2 modulo 4, also when the index wraps at 2^32 |
| `SharedMemory.SharedMap.constructor` | libsvc/sharedmem.c:76-90 | an initial state of the protocol, whatever the memory holds |
| `SharedMemory.StepInv` | libsvc/sharedmem.c:149-207 | every step of writer and readers keeps the invariant about the last four values |
| `SharedMemory.PublishedSlotUntouched` | libsvc/sharedmem.c:184-202 | copying never touches the slot that readers are sent to |
| `SharedMemory.PointerKeepsValue` | libsvc/sharedmem.c:149-174 | whatever happens after a read, its pointer denotes the value that was current until the writer begins its fourth later write |
| `SharedMemory.AllPointersGood` | libsvc/sharedmem.c:149-174 | the same for all pointers ever handed out, at any time of any run |
| `SharedMemory.FourthWriteOverwrites` | libsvc/sharedmem.c:176-202 | four is the limit: the first byte of the fourth later write changes the value |
| `SharedMemory.Handle.Open` | libsvc/sharedmem.c:95-147 | succeeds exactly for the right magic number |
| `SharedMemory.Handle.Read` | libsvc/sharedmem.c:149-174 | one read step of the protocol, or -1 and no effect for a bad guard |
| `SharedMemory.Handle.Write` | libsvc/sharedmem.c:176-207 | one undisturbed write is begin, copy every byte, publish; or -1 and no effect for a bad guard |
| `LogRing.ChunkCount` | liblog/put_record.c:33-52 | a message needs one record for each 32 bytes begun, and one if it is empty; all but the last have 32 bytes, and all have its level and its date |
| `LogRing.LogBuffer.PutChunk` | liblog/put_record.c:34-41 | one record is written and the head moves on |
| `LogRing.LogBuffer.PutRecord` | liblog/put_record.c:21-56 | the chunks of the message are appended in order exactly if the ring has room for them, one record always staying free; nothing else is written |
| `LogRing.MessagesRead` | liblog/print.c:61-89 | the chunks of any messages are read back as those messages, in order, with their levels |
| `LogRing.LogBuffer.PrintMessage` | liblog/print.c:71-86 | one message is put together from its records across the end of the ring |
| `LogRing.LogBuffer.Print` | liblog/print.c:55-90 | ends with head = tail, and prints exactly the messages that were put |
| `LogRing.PrintingDuringPut` | liblog/put_record.c:33-44 | after some but not all records of a message the log is not complete, and no number of printed messages reaches the head |
| `LogRing.FirstRecordOnly` | liblog/put_record.c:33-44 | so it is after the first record of a message of 33 bytes in a new log |
| `LogRing.PrintingEnds` | liblog/print.c:55-90 | printing ends if and only if nothing is pending or the last message is complete |

## Left out

- The sockets, packet capture, `select`, the wifi and radiotap headers of outgoing packets, and the choice
  between adapters: a packet on the air is its sequence number and its bytes.
- The statistics that depend on the clock (`kbitrate`, `lost_per_block_cnt`, signal strength, injection
  time) and the counters of single adapters.
- More than one block buffer: the source fixes the number to one.
- Block numbers as 32-bit integers: with at least two packets in a block they fit, and the source has
  twelve.
- A failing write to a socket: the source logs it and goes on, and the packet counts as lost on the
  channel.
- Receiver.RxStream.Store: a packet longer than its buffer, which the source copies without checking; the
  model requires that an arriving packet fits.
- Receiver.RxStream.ProcessPayload: likewise; and the output has to have room for the payloads of a block,
  which the source takes for granted.
- Allocation, `assert` and the messages on standard error in the code of the erasure code; the assembler,
  profiling and test sections of `libwfb/fec.c`.
- Kernels.SlowAddMul1: the loop over pointers is a loop over indices of one array, and the table row of the
  constant is an index into the whole table.
- RadiotapIterators.PlainIterator.Init: what the source does with bytes outside of memory; the model returns
  a result of its own, `OUTSIDE`, exactly in those cases.
- RadiotapIterators.ExtendedIterator.Init: registered vendor namespaces with an alignment that is not a power
  of two, for which aligning with a mask does not align.
- RadiotapIterators.PlainIterator.Next: the step to a further bitmap word cannot be reached, because the
  iterator stops at field 14, and is left out.
- RadiotapIterators.ExtendedIterator.Next: overrides, a compile-time option that is not used, are not
  modelled.
- Crc.VtCrc16: messages of 65536 bytes and more, for which the loop does not end (`Crc.LoopEnds`).
- SharedMemory.Handle.Write: a value larger than the declared size would run into the next slot; the source
  does not check, and the model requires that it fits. Opening and mapping the file, and the fields of a
  slot that are never used after they are set, are not part of the protocol.
- SharedMemory.AlignSize: sizes are natural numbers; the wrap of a 64-bit size is not modelled.
- LogRing.LogBuffer.PutRecord: formatting, with messages of 512 bytes and more, which the source cuts off
  but counts in full; and printing directly when there is no log.
- LogRing.LogBuffer.Print: a log whose last message is incomplete, for which printing does not end
  (`LogRing.PrintingEnds`); the name of the service, colours and line ends: a line is its level and its
  text.
- Services, telemetry, motion, sensors and the netlink and I/O wrappers.
