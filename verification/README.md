# MICO firmware components: models and proofs

This project models twelve components of the MICO firmware (MXCHIP Inc.) in Dafny and proves what each of them is
for. `dafny verify dfyconfig.toml` checks all of it.

**Curve25519.** `Field25519` and `Rfc7748` are the definitions of section 5 of RFC 7748: the field of integers modulo
p = 2^255 - 19, the Montgomery ladder with deferred swaps, clamping, and X25519. `Felem64`, `Encoding64` and
`Curve25519c64` are the 64-bit code: five unsigned 51-bit limbs in arrays that are overwritten in place, 64- and
128-bit intermediates that must not overflow, delayed carries, the 256-turn loop with its pointer swaps, the addition
chain, and the canonical encoding. The loop runs 256 turns where the standard runs 255; `LeadingZero` shows what the
additional turn does to the coordinates. `Felem32` and `Inverse32` are the multiplication, squaring and inversion of
the 32-bit code: ten signed limbs of 26 and 25 bits in turn. The comment above the 64-bit fmul allows limbs of 2^55
for both operands. The model follows the code on all of them: the result is the product exactly when no carry
outgrows 64 bits (`Felem64.FMul`), which holds up to 1.16 * 2^54 in every limb, more than the 2^54 + 2^51 that sums
and differences of earlier results reach, and fails at 2^55 - 1 (`Felem64.DocumentedLimitFails`).

**Power-fail safety.** `FlashDriver` is NOR flash: erasing sets whole sectors to 0xFF, programming only clears bits,
and the supply may fail before any erase or write. `OtaUpdate` is the boot loader's installer and `ParaStorage` the
two-copy configuration store; `SharedFlash` puts the two on the partition they share. All are proved over any number
of runs, each cut at any point. Three limits come out of the code. The installer accepts a record whose image is longer
than the staging area when the CRC field is 0xFFFF or the length is 2^31 or more; such an update never completes
(`OtaUpdate.AcceptedOversize`, `OtaUpdate.OversizeRecord`). A boot loader that replaces itself is lost if the supply
fails while it is being copied (`OtaUpdate.BootloaderCut`). The store leaves the backup alone when both copies are good
and their CRCs agree, even if their contents differ; then a cut save can bring back a configuration that is two saves
old (`ParaStorage.TwinsFallBack`). `ParaStorage.SaveExact` says exactly which saves can lead there, and
`ParaStorage.AlwaysATwin` that every configuration has one. A store whose erased copy would pass its CRC is the other
exception (`ParaStorage.StepExact`).

**Protocols.** `YmodemPackets` and `Ymodem` are the YMODEM sender and receiver, first each on its own, then as two
state machines on a first-in first-out line that loses packets and replies. The receiver answers a repeated packet
with NAK, so a run is stuck exactly from the loss of an acknowledgement on (`Ymodem.LostAckIsFatal`); the transfer
then never finishes, but it is never corrupted. `Ymodem.AdvancePossible` gives the exact states from which the sender
can still advance. `HttpLines`, `HttpDecoder`, `HttpRun` and `HttpChunked` are the reader of chunked HTTP bodies on a
socket that hands over any number of bytes at a time. If the network never splits off a single byte it succeeds
exactly on well-formed bodies. The two-byte read of CR LF does not check that both bytes came, and looks at what an
earlier read left in the buffer: a short read makes it reject some well-formed bodies
(`HttpChunked.WellFormedRejected`) and accept some malformed ones (`HttpChunked.MalformedAccepted`); on well-formed
bodies it succeeds exactly when every short read found a stale LF (`HttpDecoder.FollowEncode`). How each of these
reads ends is a function of the buffer, the input and the split (`HttpRun.EndsFrom`). A size line that starts with `0`
is taken for the last chunk whatever its value is (`HttpLines.LeadingZero`).

**Checksums and ciphers.** `Crc16` gives the bitwise CRC its meaning as a polynomial remainder, over the algebra in
`Gf2`; `Crc8` relates the table to shifting bit by bit. `Sha1`, `Sha512`, `Keccak` and `Sha3` are the block functions
against FIPS 180-4 and FIPS 202, the buffering of a message given in pieces, and the padding. The SHA-3 code pads
without a domain suffix, as Keccak did before FIPS 202. `AesModes` is counter mode and CBC frames over any block
cipher with an inverse.

**Text and queues.** `WordSearch` is STRCHR and MEMCHR a word at a time, `UrlParse` the URL splitter, `RingBuffer` the
byte queue.

`Arithmetic` and `Buffers` hold what the others share. Code that changes state keeps that form: classes with the
source's fields, arrays overwritten in place, loops with invariants. Each such method is tied to a function of its
inputs or its old state, and lemmas state what that function means. Inputs from outside (bytes from a socket or a
serial line, the moment power fails) are parameters or free choices. Machine integers are written out wherever they
can wrap.

## Model

| member | source | states |
|---|---|---|
| Felem64.FMul | MICO/security/Curve25519/curve25519-donna-c64.c:128-175 | for all operands with limbs below 2^55, and any aliasing of output and operands: the result is the field product if and only if no carry outgrows 64 bits, which holds for all limbs up to 20909152935566814; result limbs are at most 2^51 in any case |
| Felem64.DocumentedLimitFails | MICO/security/Curve25519/curve25519-donna-c64.c:120-127 | operands within the documented limit whose carries do not fit: all limbs 2^55 - 1, and all limbs less than 2^21 above the proved bound |
| Felem64.LossShows | MICO/security/Curve25519/curve25519-donna-c64.c:161-168 | what a carry loses is never a multiple of p, so every loss shows in the result |
| Felem64.Schoolbook | MICO/security/Curve25519/curve25519-donna-c64.c:145-159 | for limbs below 2^55 the five sums with their factors 19 are the columns of the product modulo x^5 = 19 and represent the product modulo p within 128 bits |
| Felem64.Carry | MICO/security/Curve25519/curve25519-donna-c64.c:161-168 | the carry chain keeps the value modulo p if and only if every carry fits 64 bits, and leaves limbs at most 2^51 in any case |
| Felem64.FSquareTimes | MICO/security/Curve25519/curve25519-donna-c64.c:177-217 | for limbs below 2^55, also when output is the input: in^(2^count) if the carries of the first squaring fit 64 bits, and for one squaring exactly then; limbs at most 2^51 in any case |
| Felem64.SquareColumns | MICO/security/Curve25519/curve25519-donna-c64.c:190-200 | for limbs below 2^55 the doubled columns of the squaring are the columns of the product with itself |
| Felem64.FSum | MICO/security/Curve25519/curve25519-donna-c64.c:69-76 | limb-wise sum without overflow, value is the field sum |
| Felem64.FDifferenceBackwards | MICO/security/Curve25519/curve25519-donna-c64.c:84-95 | the difference in - out with 8p added so that no limb goes below zero |
| Felem64.FScalarProduct | MICO/security/Curve25519/curve25519-donna-c64.c:98-118 | for all limbs and all scalars the product with the scalar, if and only if no carry outgrows 64 bits; always for limbs below 2^55 and 32-bit scalars, with bounded limbs |
| Encoding64.FExpand | MICO/security/Curve25519/curve25519-donna-c64.c:220-227 | for all 32 bytes the limbs represent the little-endian number modulo 2^255, each below 2^51 |
| Encoding64.FContract | MICO/security/Curve25519/curve25519-donna-c64.c:232-285 | for any limbs at all the 32 bytes are the little-endian form of the representative in [0, p) |
| Encoding64.Canonical | MICO/security/Curve25519/curve25519-donna-c64.c:242-279 | two carry rounds, adding 19 and dropping the carry at 2^255 leave exactly the representative in [0, p) |
| Encoding64.SecondRoundSettles | MICO/security/Curve25519/curve25519-donna-c64.c:242-252 | after the second carry round the value is below 2^255 whatever the limbs were |
| Encoding64.PackWords | MICO/security/Curve25519/curve25519-donna-c64.c:281-284 | shifting and joining five 51-bit limbs gives four 64-bit words of the same number |
| Encoding64.ReadLittle64 | MICO/security/Curve25519/curve25519-donna-c64.c:33-42 | shifts and ORs of eight bytes spell their little-endian number |
| Encoding64.WriteLittle64 | MICO/security/Curve25519/curve25519-donna-c64.c:44-56 | eight bytes of a word, least significant first, and nothing else changes |
| Rfc7748.DeferredSwaps | MICO/security/Curve25519/curve25519-donna-c64.c:366-396 | swapping back at once, as the code does, and deferring the swap, as section 5 of RFC 7748 does, give one state |
| Rfc7748.LadderMultiples | MICO/security/Curve25519/curve25519-donna-c64.c:355-400 | if the doubling and addition formulas are right, the pair after each bit is (kQ, (k+1)Q) for the scalar prefix k |
| Rfc7748.ClampValue | MICO/security/Curve25519/curve25519-donna-c64.c:444-447 | the three masks put the scalar into 2^254 + 8 * {0, ..., 2^251 - 1} |
| LeadingZero.FirstStep | MICO/security/Curve25519/curve25519-donna-c64.c:366-396 | the turn for a leading zero bit multiplies the second point's coordinates by 4u and leaves the first |
| LeadingZero.RunsDifferByScale | MICO/security/Curve25519/curve25519-donna-c64.c:366-396 | the 256- and the 255-turn run differ at every turn only by powers of 4u as scale factors |
| LeadingZero.TopBitIgnored | MICO/security/Curve25519/curve25519-donna-c64.c:355-400 | the 256-turn ladder gives the standard's X25519 for every scalar below 2^255 |
| LeadingZero.SameProjectivePoint | MICO/security/Curve25519/curve25519-donna-c64.c:355-400 | without any assumption on p the two runs end on the same projective point |
| Curve25519c64.FMonty | MICO/security/Curve25519/curve25519-donna-c64.c:296-328 | the Montgomery step is the section 5 step, and the limb bound 2^51 holds again after it |
| Curve25519c64.DifferentialAddition | MICO/security/Curve25519/curve25519-donna-c64.c:312-319 | the differential addition half of the step |
| Curve25519c64.Doubling | MICO/security/Curve25519/curve25519-donna-c64.c:321-327 | the doubling half of the step |
| Curve25519c64.StepOrder | MICO/security/Curve25519/curve25519-donna-c64.c:296-328 | the code's operand orders and sign of the difference give the standard's formulas |
| Curve25519c64.MaskedXor | MICO/security/Curve25519/curve25519-donna-c64.c:342-346 | the masked XOR exchanges two limbs for 1 and keeps them for 0 |
| Curve25519c64.SwapConditional | MICO/security/Curve25519/curve25519-donna-c64.c:337-347 | two elements are exchanged exactly when the flag is 1 |
| Curve25519c64.LadderTurn | MICO/security/Curve25519/curve25519-donna-c64.c:369-392 | one turn with its swaps and pointer exchange is one eager ladder step; arrays stay distinct and bounded |
| Curve25519c64.LadderByte | MICO/security/Curve25519/curve25519-donna-c64.c:367-395 | the eight turns for one scalar byte, highest bit first |
| Curve25519c64.CMult | MICO/security/Curve25519/curve25519-donna-c64.c:355-400 | over all 256 turns the bound is inductive and the result is the ladder on the whole scalar |
| InversionChain.ExtendRun | MICO/security/Curve25519/curve25519-donna-c64.c:406-432 | squaring b times and multiplying turns z^(2^a-1) and z^(2^b-1) into z^(2^(a+b)-1) |
| InversionChain.LastExponent | MICO/security/Curve25519/curve25519-donna-c64.c:430-431 | the last two lines reach the exponent 2^255 - 21 = p - 2 |
| Curve25519c64.CRecip | MICO/security/Curve25519/curve25519-donna-c64.c:406-432 | out = z^(p-2) for every z within the limb bound, also when out is z |
| Curve25519c64.Curve25519Donna | MICO/security/Curve25519/curve25519-donna-c64.c:434-454 | for every secret and base point the output is the canonical encoding of the divided ladder result on the clamped scalar, and X25519 of RFC 7748 |
| Felem32.FProduct | MICO/security/Curve25519/curve25519-donna.c:149-250 | for limbs up to 2^27 the nineteen sums are the mixed-radix product and stay within 64 bits |
| Felem32.ProductLimbsConvolve | MICO/security/Curve25519/curve25519-donna.c:149-250 | each of the nineteen sums is the convolution coefficient, doubled where both limbs are odd-numbered |
| Felem32.ProductValue | MICO/security/Curve25519/curve25519-donna.c:149-250 | the weighted sum of the nineteen coefficients is the product of the two numbers |
| Felem32.SquareIsProduct | MICO/security/Curve25519/curve25519-donna.c:384-440 | the squaring's shorter formulas equal the product's on equal operands, coefficient by coefficient |
| Felem32.FSquareInner | MICO/security/Curve25519/curve25519-donna.c:384-440 | the squaring stores the same nineteen limbs as the product |
| Felem32.FReduceDegree | MICO/security/Curve25519/curve25519-donna.c:253-282 | folding limbs 10 to 18 with factor 19 keeps the value modulo p without overflow |
| Felem32.DivBy2To26 | MICO/security/Curve25519/curve25519-donna.c:289-300 | for every 64-bit value the shift with sign correction divides by 2^26 and truncates towards zero, and the corrected value never overflows |
| Felem32.DivBy2To25 | MICO/security/Curve25519/curve25519-donna.c:303-314 | the same for 2^25 |
| Felem32.DivS32By2To25 | MICO/security/Curve25519/curve25519-donna.c:316-321 | the same for every 32-bit value and 2^25 |
| Felem32.FReduceCoefficients | MICO/security/Curve25519/curve25519-donna.c:327-368 | from nineteen wide coefficients to limbs of at most 26 and 25 bits in magnitude, same value modulo p |
| Felem32.FMul | MICO/security/Curve25519/curve25519-donna.c:375-382 | for limbs of magnitude up to 2^27 the field product, with limbs of magnitude at most 2^26 |
| Felem32.FSquare | MICO/security/Curve25519/curve25519-donna.c:442-449 | the field square under the same bounds |
| Inverse32.SquareRun | MICO/security/Curve25519/curve25519-donna.c:769-771 | the alternating pair of squarings in a loop is in^(2^n), whichever array it ends in |
| Inverse32.CRecip | MICO/security/Curve25519/curve25519-donna.c:740-805 | the 32-bit chain gives z^(p-2) with bounded limbs |
| FlashDriver.EraseAll | Platform/MCU/mico_platform_common.c:572-603 | erasing a whole partition blanks it |
| FlashDriver.WriteBlank | Platform/MCU/mico_platform_common.c:605-637 | programming blank cells stores the data exactly and touches nothing else |
| FlashDriver.Flash.Erase | Platform/MCU/mico_platform_common.c:572-603 | range check, whole sectors become 0xFF, other partitions unchanged, or nothing happens when power fails |
| FlashDriver.Flash.Write | Platform/MCU/mico_platform_common.c:605-637 | range check, bits are only cleared, the offset advances, or nothing happens when power fails |
| FlashDriver.Flash.Read | Platform/MCU/mico_platform_common.c:639-671 | the bytes at the offset, which advances |
| OtaUpdate.CheckCrc | Bootloader/Update_for_OTA.c:58-96 | only a read beyond the staging area is an error; a CRC mismatch is not, and a length that is negative as a signed 32-bit number reads nothing |
| OtaUpdate.UpdateLogCheck | Bootloader/Update_for_OTA.c:98-131 | the first check that fails, in the code's order, and the destination partition |
| OtaUpdate.CopyBlock | Bootloader/Update_for_OTA.c:215-223 | one block is read, programmed, read back and compared; the destination holds one more block of the image |
| OtaUpdate.InstallImage | Bootloader/Update_for_OTA.c:197-224 | the destination ends as the image followed by 0xFF, no other partition changes |
| OtaUpdate.ClearRecord | Bootloader/Update_for_OTA.c:228-238 | the record becomes 0xFF and the rest of the partition is kept; cut short, the partition is untouched or blank |
| OtaUpdate.DiscardStaging | Bootloader/Update_for_OTA.c:164-189 | without a valid record the staging area ends blank and nothing else changes |
| OtaUpdate.Update | Bootloader/Update_for_OTA.c:134-250 | for a well-formed record, at every cut either record and image are intact or the image is in place and the record cleared, and the destination holds exactly the blocks the supply lasted for; uncut, destination, record and staging area are exactly as promised; with enough supply an accepted update completes if and only if the image lies inside the staging area |
| OtaUpdate.AcceptedOversize | Bootloader/Update_for_OTA.c:58-131 | a record that is right in every other respect but whose image runs past the staging area is accepted if and only if its CRC field is 0xFFFF or its length is 2^31 or more |
| OtaUpdate.OversizeRecord | Bootloader/Update_for_OTA.c:69-70 | such a record, built for any flash whose application partition is the larger one |
| OtaUpdate.OversizeBoots | Bootloader/Update_for_OTA.c:134-250 | such an update never completes: over any number of boots with any supply it stays accepted, every boot fails, and only the destination changes |
| OtaUpdate.PendingThenSafe | Bootloader/Update_for_OTA.c:134-250 | restarting after a cut leads back to the same promise about the original record and image |
| OtaUpdate.InstalledStays | Bootloader/Update_for_OTA.c:164-189 | once installed, the record reads as absent and later runs only clean the staging area |
| OtaUpdate.Boot | Bootloader/Update_for_OTA.c:134-250 | one boot with any supply keeps the promise and leaves a boot loader to run the next; with enough supply for every operation it completes; an update of the boot loader itself must not be cut while it is copied |
| OtaUpdate.Boots | Bootloader/Update_for_OTA.c:134-250 | the same over any number of boots, each cut anywhere |
| OtaUpdate.BootloaderCut | Bootloader/Update_for_OTA.c:115-116 | a boot loader that replaces itself is lost if and only if the cut falls into the copying and what is copied by then is neither program; right after the erase, unless one of the two is blank |
| SharedFlash.ClearExact | Bootloader/Update_for_OTA.c:228-238 | clearing the record, cut anywhere, keeps the configuration that will be loaded if and only if the backup is good and holds it |
| SharedFlash.UpdateKeepsConfiguration | Bootloader/Update_for_OTA.c:134-250 | at every instant of every update that starts from a store the firmware has brought up to date, the next read loads the same configuration |
| SharedFlash.BootsKeepConfiguration | Bootloader/Update_for_OTA.c:134-250 | the same after every run of boots |
| ParaStorage.WriteCopy | MICO/system/mico_system_para_storage.c:86-101 | erase, system part, user part, CRC last: complete, or untouched, or torn before the CRC |
| ParaStorage.ComputeCrc | MICO/system/mico_system_para_storage.c:79-83 | two Update calls give the CRC of both parts joined |
| ParaStorage.Context.InternalUpdateConfig | MICO/system/mico_system_para_storage.c:68-126 | main copy first, read back, then the backup: every way the two copies can be left |
| ParaStorage.Context.ContextRestore | MICO/system/mico_system_para_storage.c:128-153 | the default configuration with magic number and seed is saved |
| ParaStorage.Context.ContextUpdate | MICO/system/mico_system_para_storage.c:318-331 | the seed advances by one in 32 bits and the configuration is saved |
| ParaStorage.Context.LoadCopies | MICO/system/mico_system_para_storage.c:200-234 | both copies and both computed and stored CRCs |
| ParaStorage.Context.RecoverMain | MICO/system/mico_system_para_storage.c:245-270 | a bad main copy is rebuilt from the backup's system part, leaving the backup alone |
| ParaStorage.Context.RecoverBackup | MICO/system/mico_system_para_storage.c:272-300 | a bad or differing backup is rewritten from the main copy, leaving the main copy alone |
| ParaStorage.Context.ReadConfiguration | MICO/system/mico_system_para_storage.c:178-316 | which copy is taken, how both copies can be left at any cut, and defaults when neither is good or the magic number is wrong |
| ParaStorage.ImagePasses | MICO/system/mico_system_para_storage.c:57-66 | a completely written copy is good exactly when its CRC is not zero |
| ParaStorage.TornPasses | MICO/system/mico_system_para_storage.c:57-66 | a torn copy is taken for good exactly when the CRC of what it holds is 0xFFFF |
| ParaStorage.UpdateSafe | MICO/system/mico_system_para_storage.c:68-126 | from a good backup, a save cut anywhere leaves the old or the new configuration to be loaded and some copy good, unless the erased main copy passes; a CRC of zero never replaces the backup |
| ParaStorage.ReadSafe | MICO/system/mico_system_para_storage.c:178-316 | a read, cut anywhere, never changes what the next read loads, unless the erased main copy passes; finished, the backup holds it too, unless the copies are twins |
| ParaStorage.TwinsFallBack | MICO/system/mico_system_para_storage.c:272-275 | from twins, a read and a save cut right after its erase load neither the configuration in force nor the new one, but the backup's |
| ParaStorage.SaveExact | MICO/system/mico_system_para_storage.c:68-316 | a save can lead there, after one cut and one read, if and only if it shares its CRC with the different configuration it replaces |
| ParaStorage.AlwaysATwin | MICO/system/mico_system_para_storage.c:79-83 | every configuration has such a twin with the magic number: the CRC generator added to its first three bytes |
| ParaStorage.StepExact | MICO/system/mico_system_para_storage.c:68-316 | a read or save keeps a good copy and leaves exactly the old or the new configuration, wherever it is cut, if and only if before it no erased copy would pass and a read does not meet twins |
| ParaStorage.RunSafe | MICO/system/mico_system_para_storage.c:68-316 | over any run of reads and saves with cuts anywhere some copy is good and each step leaves the old or the new configuration, as long as the erased copy does not pass and no save shares its CRC with the different configuration it replaces |
| YmodemPackets.WholeFile | Bootloader/ymodem.c:478-541 | the packets together carry the file and fewer than 128 fill bytes, a whole number of 128-byte units |
| YmodemPackets.PrefixStep | Bootloader/ymodem.c:478-541 | the next packet's payload follows what the earlier ones carry |
| YmodemPackets.PrefixGrows | Bootloader/ymodem.c:478-541 | what the first k packets carry is a prefix of the filled file |
| YmodemPackets.PreparePacket | Bootloader/ymodem.c:327-354 | start byte by size, number, complement, file bytes, fill 0x1A, CRC-16 |
| YmodemPackets.ReceivePacket | Bootloader/ymodem.c:89-138 | what arrives is classified as a packet, end of file, abort or fault |
| YmodemPackets.ParseFrame | Bootloader/ymodem.c:89-138 | the reader recovers number and payload of every framed packet |
| Ymodem.Transmit | Bootloader/ymodem.c:471-560 | whatever the line answers, the nested loops send the packets and end in the state of the step-by-step sender |
| Ymodem.ReceiveLoop.Turn | Bootloader/ymodem.c:156-265 | one turn of the receive loop: replies, counters, errors and the flash written in place |
| Ymodem.NoAlias | Bootloader/ymodem.c:171-177 | of everything that can be on the line only the awaited packet has the awaited number modulo 256 |
| Ymodem.StepKeeps | Bootloader/ymodem.c:145-560 | every send, receipt, timeout or loss keeps the protocol invariant |
| Ymodem.TransferSafe | Bootloader/ymodem.c:145-560 | over every run the flash holds whole packets of the filled file, the two counts differ by at most one, and a sender that left its data loop without error means the whole filled file is stored |
| Ymodem.AckMeansStored | Bootloader/ymodem.c:513-528 | an acknowledgement the sender takes is always for the packet in hand, which is already in flash |
| Ymodem.LostAckIsFatal | Bootloader/ymodem.c:173-176 | a run is stuck if and only if it lost the acknowledgement of a data packet, and from that loss on the sender never advances and never finishes |
| Ymodem.StuckStep | Bootloader/ymodem.c:145-560 | only the loss of an acknowledgement leads into this state and no event leads out |
| Ymodem.LostFirstAck | Bootloader/ymodem.c:145-560 | such a run for every non-empty file: the first packet is stored and its acknowledgement lost |
| Ymodem.AdvancePossible | Bootloader/ymodem.c:145-560 | some future takes the sender to its next packet if and only if an acknowledgement is under way, or the receiver waits for the packet in hand and that packet is under way or may be sent again |
| HttpLines.FindCrlf | libraries/utilities/HTTPUtils.c:794-833 | the scan finds the first CR LF exactly when the buffer holds one |
| HttpLines.ParseHex | libraries/utilities/StringUtils.c:752-844 | "%x" with leading space, sign and prefix, stored in 32 bits; unchanged when nothing matches |
| HttpChunked.HttpBody.constructor | libraries/utilities/HTTPUtils.c:62-79 | the buffer holds the bytes that came with the header and is at least 1500 bytes |
| HttpChunked.HttpBody.FindLength | libraries/utilities/HTTPUtils.c:136-149 | reading goes on until a size line is complete, and fails exactly when none ends within the buffer or the stream; no byte is lost |
| HttpChunked.HttpBody.TakeWhole | libraries/utilities/HTTPUtils.c:170-187 | a chunk that is all in the buffer is delivered and the rest moved down |
| HttpChunked.HttpBody.TakeAllButLf | libraries/utilities/HTTPUtils.c:190-210 | a chunk without its last LF is delivered and the LF read |
| HttpChunked.HttpBody.TakePart | libraries/utilities/HTTPUtils.c:211-256 | a partial chunk is delivered as it arrives; the two bytes behind it are read and compared in the buffer, whatever the read returned, as the split determines |
| HttpChunked.HttpBody.Turn | libraries/utilities/HTTPUtils.c:134-258 | one turn of the loop moves buffer, input and split to the next state of the run and delivers one chunk |
| HttpChunked.HttpBody.ReadBody | libraries/utilities/HTTPUtils.c:133-259 | for every input and every split by read(), callbacks have contiguous positions and deliver what the code makes of that input under that split, a function of where it starts: all of it on success and a prefix on failure; if the network never splits off a single byte, that is the decoded body and the loop succeeds if and only if the body is well formed |
| HttpRun.OutcomeDecodes | libraries/utilities/HTTPUtils.c:133-259 | if the network never splits off a single byte, the code does what the reference decoder of section 4.1 of RFC 7230 does |
| HttpRun.AcceptedExactly | libraries/utilities/HTTPUtils.c:133-259 | from any buffer, input and split, a body is accepted if and only if the end of its next chunk passes as that split delivers it and the rest is accepted from there |
| HttpRun.MissingLfTaken | libraries/utilities/HTTPUtils.c:245-256 | a chunk that ends in CR and no LF is taken if and only if this split delivers the CR alone before a stale LF and the rest is accepted from the byte after the CR on |
| HttpRun.CompleteChunkTaken | libraries/utilities/HTTPUtils.c:245-256 | a complete chunk is refused if and only if this split delivers its CR alone before a stale byte other than LF, or the rest is refused |
| HttpRun.ChunkGone | libraries/utilities/HTTPUtils.c:170-256 | a chunk whose end passes takes exactly its data and one or two bytes more from the input, in each of the three branches |
| HttpDecoder.FollowEncode | libraries/utilities/HTTPUtils.c:245-256 | on a well-formed body, for all ends of its CR LF reads, the code succeeds if and only if every short one found a stale LF, and then with the right data |
| HttpDecoder.DriftedSize | libraries/utilities/HTTPUtils.c:812-824 | after a short read the left-over LF is skipped before the next size, and a leading zero no longer ends the body |
| HttpChunked.WellFormedRejected | libraries/utilities/HTTPUtils.c:245-254 | a well-formed body and a split at which it is rejected |
| HttpChunked.MalformedAccepted | libraries/utilities/HTTPUtils.c:245-254 | a malformed body and a split at which it is accepted |
| HttpDecoder.DecodeEncode | libraries/utilities/HTTPUtils.c:133-259 | every well-formed sequence of chunks decodes to its data, whatever follows it |
| HttpLines.SizeRoundTrip | libraries/utilities/HTTPUtils.c:794-833 | a size written in hexadecimal is read back |
| HttpLines.LeadingZero | libraries/utilities/HTTPUtils.c:812-824 | a plain hexadecimal size line is read as its value if and only if it does not start with '0' or is worth zero |
| HttpLines.LeadingZeroExample | libraries/utilities/HTTPUtils.c:812-818 | "0a" is taken for the last chunk |
| HttpChunked.ReadEncoded | libraries/utilities/HTTPUtils.c:133-259 | a well-formed body arrives unchanged if and only if, in the split it arrives in, every CR LF read that comes back short meets a stale LF; always if the network never splits off a single byte |
| Sha1.SelectForm | libraries/utilities/SHAUtils.c:143 | the three-operation form of Ch |
| Sha1.MajorityForm | libraries/utilities/SHAUtils.c:145 | the four-operation form of Maj |
| Sha1.Step | libraries/utilities/SHAUtils.c:147-150 | one macro call is one round of section 6.1.2 of FIPS 180-4 with renamed registers |
| Sha1.CompressInPlace | libraries/utilities/SHAUtils.c:152-224 | eighty macro calls with rotating names compute the block function of FIPS 180-4 |
| Sha1.Context.Update | libraries/utilities/SHAUtils.c:58-88 | the absorbed message grows by the data, however it falls on block boundaries |
| Sha1.Context.Final | libraries/utilities/SHAUtils.c:94-123 | the digest of the whole message with the padding of section 5.1.1 |
| Sha1.DigestInPieces | libraries/utilities/SHAUtils.c:42-123 | however the message is cut across Update calls, the digest is that of the whole |
| Sha1.FewestZeroBits | libraries/utilities/SHAUtils.c:99-113 | the padding has the fewest zero bits that leave room for the length |
| Sha1.PaddingInjective | libraries/utilities/SHAUtils.c:99-113 | different messages under 2^64 bits have different padded forms |
| Sha1.RoundConstants | libraries/utilities/SHAUtils.c:147-150 | the four constants are 2^30 times the square roots of 2, 3, 5, 10, cut to integers |
| Sha512.SelectForm | libraries/utilities/SHAUtils.c:367 | the short form of Ch |
| Sha512.MajorityForm | libraries/utilities/SHAUtils.c:368 | the short form of Maj |
| Sha512.Step | libraries/utilities/SHAUtils.c:375-379 | one macro call is one round of section 6.4.2 with renamed registers |
| Sha512.EightRounds | libraries/utilities/SHAUtils.c:406-416 | the eight macro calls of an iteration are eight rounds and bring the names back in order |
| Sha512.CompressInPlace | libraries/utilities/SHAUtils.c:381-421 | the block function of FIPS 180-4 |
| Sha512.Context.Update | libraries/utilities/SHAUtils.c:281-311 | the absorbed message grows by the data, however it falls on block boundaries |
| Sha512.Context.Final | libraries/utilities/SHAUtils.c:317-347 | the digest of the message padded with a 64-bit length behind 64 zero bits |
| Sha512.ShortPadding | libraries/utilities/SHAUtils.c:329-338 | that padding is the one of section 5.1.2 if and only if the message is under 2^64 bits |
| Sha512.DigestInPieces | libraries/utilities/SHAUtils.c:262-347 | however the message is cut, the FIPS 180-4 digest of the whole, under 2^64 bits |
| Sha512.ConstantsAreCubeRoots | libraries/utilities/SHAUtils.c:232-254 | the eighty table entries are the fractional parts of the cube roots of the first eighty primes |
| Sha512.InitialStateIsSquareRoots | libraries/utilities/SHAUtils.c:262-275 | the initial state is the fractional parts of the square roots of the first eight primes |
| Keccak.ThetaInPlace | libraries/utilities/SHAUtils.c:571-590 | the in-place column sums and additions are theta of section 3.2.1 of FIPS 202 |
| Keccak.RhoPiInPlace | libraries/utilities/SHAUtils.c:592-617 | the single cycle of rotating assignments is rho followed by pi |
| Keccak.ChiInPlace | libraries/utilities/SHAUtils.c:619-654 | the in-place rows with two saved lanes are chi |
| Keccak.Rounds | libraries/utilities/SHAUtils.c:569-658 | twenty-four rounds are the permutation |
| Keccak.OffsetsFollowWalk | libraries/utilities/SHAUtils.c:592-617 | the rotation amounts are the triangular numbers along the walk of section 3.2.2 |
| Keccak.ConstantsFollowRegister | libraries/utilities/SHAUtils.c:431-445 | the round constants are the output of the shift register of section 3.2.5 |
| Sha3.Context.Block | libraries/utilities/SHAUtils.c:535-685 | a block added to the first nine lanes and permuted |
| Sha3.Context.Update | libraries/utilities/SHAUtils.c:463-495 | the absorbed message grows by the data, whatever was left over before |
| Sha3.Context.Final | libraries/utilities/SHAUtils.c:501-515 | the digest of the whole message under the padding 10*1 |
| Sha3.DigestInPieces | libraries/utilities/SHAUtils.c:453-515 | however the message is cut, the digest is that of the whole |
| Sha3.PaddingIsPad101 | libraries/utilities/SHAUtils.c:505-507 | the padding bytes are, bit by bit, a one, the fewest zeros and a one, with no suffix |
| Sha3.PaddingInjective | libraries/utilities/SHAUtils.c:505-507 | different messages have different padded forms |
| Crc16.UpdateCRC16 | libraries/utilities/CheckSumUtils.c:59-77 | the shift loop with its marker bit feeds eight message bits, high bit first |
| Crc16.DigestIsRemainder | libraries/utilities/CheckSumUtils.c:79-98 | Init, Update and Final give the remainder of M(x) x^16 modulo x^16 + x^12 + x^5 + 1 |
| Crc16.RegisterUnique | libraries/utilities/CheckSumUtils.c:79-98 | no other word completes the division |
| Crc16.DigestLinear | libraries/utilities/CheckSumUtils.c:79-98 | the CRC of the XOR of two messages of one length is the XOR of their CRCs |
| Crc16.SelfCheck | libraries/utilities/CheckSumUtils.c:79-98 | feeding a message and its own CRC, high byte first, leaves 0 |
| Crc16.BurstDetected | libraries/utilities/CheckSumUtils.c:79-98 | messages of one length that differ only within sixteen adjacent bits have different CRCs |
| Crc16.MultipleCollides | libraries/utilities/CheckSumUtils.c:79-98 | messages of one length whose difference is a multiple of the generator have one CRC |
| Crc16.GeneratorInvisible | libraries/utilities/CheckSumUtils.c:79-98 | adding the generator to the first three bytes gives a different message with the same CRC |
| Crc16.Context.Update | libraries/utilities/CheckSumUtils.c:84-90 | the register after all bytes |
| Crc16.Context.Final | libraries/utilities/CheckSumUtils.c:92-98 | sixteen zero bits follow the message |
| Crc16.DigestInPieces | libraries/utilities/CheckSumUtils.c:79-98 | however the message is cut across Update calls, the CRC is that of the whole |
| Crc8.TableIsBitwise | libraries/utilities/CheckSumUtils.c:24-41 | each of the 256 entries is eight shifts with the reflected polynomial 0x8C |
| Crc8.ByteAtOnce | libraries/utilities/CheckSumUtils.c:43-51 | shifting in a byte bit by bit equals one table look-up |
| Crc8.Composes | libraries/utilities/CheckSumUtils.c:43-51 | the CRC-8 of a concatenation continues from the CRC-8 of its front |
| Crc8.Crc8Table | libraries/utilities/CheckSumUtils.c:43-51 | for every message and starting value the table method equals the bitwise CRC-8 |
| AesModes.Increment | libraries/utilities/AESUtils.c:79-92 | the byte loop adds one modulo 2^128 to a big-endian counter |
| AesModes.CtrConcat | libraries/utilities/AESUtils.c:98-193 | counter mode on a concatenation continues where its first part stopped |
| AesModes.CtrInverse | libraries/utilities/AESUtils.c:98-193 | running it again from the same start restores the input |
| AesModes.CtrContext.constructor | libraries/utilities/AESUtils.c:45-73 | the counter starts at the nonce with no key stream left over |
| AesModes.CtrContext.Update | libraries/utilities/AESUtils.c:98-193 | output and next state for every length, position and aliasing: left-over key stream first, whole blocks, a partial block; legacy mode drops the rest of the block |
| AesModes.CryptPieces | libraries/utilities/AESUtils.c:45-193 | any sequence of chunks gives the output of one call on the concatenation |
| AesModes.CryptTwice | libraries/utilities/AESUtils.c:45-193 | decrypting in other chunks gives the message back |
| AesModes.CbcInverse | libraries/utilities/AESUtils.c:457-523 | CBC decryption inverts CBC encryption on whole blocks (the OpenSSL-style build; the header selects MICOAES) |
| AesModes.CbcRoundTrip | libraries/utilities/AESUtils.c:457-523 | decrypting what AES_cbc_encrypt encrypted gives the data back, for any length, a partial last block included (the OpenSSL-style build) |
| AesModes.CbcEncryptConcat | libraries/utilities/AESUtils.c:457-523 | chaining to the last ciphertext block continues the encryption |
| AesModes.CbcDecryptConcat | libraries/utilities/AESUtils.c:457-523 | chaining to the last ciphertext block continues the decryption |
| AesModes.EncryptBlocks | libraries/utilities/AESUtils.c:466-485 | the encrypting loop, in place or not (the OpenSSL-style build) |
| AesModes.DecryptApart | libraries/utilities/AESUtils.c:486-502 | the decrypting loop for separate buffers computes CBC decryption and the next chaining block (the OpenSSL-style build) |
| AesModes.DecryptInPlace | libraries/utilities/AESUtils.c:503-521 | the in-place loop computes the same, saving each block before it is overwritten (the OpenSSL-style build) |
| AesModes.EncryptTail | libraries/utilities/AESUtils.c:476-483 | a partial last block is encrypted as if zeros followed it (the OpenSSL-style build) |
| AesModes.DecryptTail | libraries/utilities/AESUtils.c:495-520 | a partial last block is decrypted from a whole ciphertext block and nothing behind it changes, in place or not (the OpenSSL-style build) |
| AesModes.CbcCrypt | libraries/utilities/AESUtils.c:457-523 | for any length and any permitted aliasing: CBC of the data filled with zeros to encrypt, the front of the decrypted blocks to decrypt, and the next chaining block (the OpenSSL-style build) |
| AesModes.FrameContext.Update | libraries/utilities/AESUtils.c:255-310 | whole blocks in CBC mode, the tail copied, the context's vector unchanged (the OpenSSL-style build) |
| AesModes.FrameContext.Update2 | libraries/utilities/AESUtils.c:317-436 | on two buffers of any lengths exactly the frame of their concatenation, tail included, also when the first buffer is the destination (the OpenSSL-style build) |
| AesModes.FrameInverse | libraries/utilities/AESUtils.c:255-310 | decrypting an encrypted frame gives it back |
| WordSearch.HoleTest | Platform/RVMDK/Retarget.c:171-223 | STRCHR's word test fires if and only if some byte is zero or the top byte is 0x80 |
| WordSearch.BorrowTest | Platform/RVMDK/Retarget.c:324-361 | MEMCHR's word test fires if and only if some byte is zero |
| WordSearch.XorFinds | Platform/RVMDK/Retarget.c:205-229 | XOR with the repeated character turns exactly its occurrences into zero bytes |
| WordSearch.StrChr | Platform/RVMDK/Retarget.c:121-269 | for every string, character and alignment the result of searching byte by byte |
| WordSearch.MemChr | Platform/RVMDK/Retarget.c:272-383 | for every block, length, character and alignment the result of searching byte by byte |
| WordSearch.CharAbsent | Platform/RVMDK/Retarget.c:121-269 | nothing is found if and only if the character does not occur before the terminator |
| WordSearch.ByteAbsent | Platform/RVMDK/Retarget.c:272-383 | nothing is found if and only if the byte does not occur, and what is found is the first |
| UrlParse.ParseComponents | libraries/utilities/URLUtils.c:35-185 | the scanning loops find the reference components, in order and without overlap |
| UrlParse.ComposeParse | libraries/utilities/URLUtils.c:35-185 | recomposing the components of any string gives exactly the string |
| UrlParse.ParseCompose | libraries/utilities/URLUtils.c:35-185 | any well-formed components are found again in the string composed from them |
| UrlParse.ParseWellformed | libraries/utilities/URLUtils.c:35-185 | the components of any string are well formed: each is free of the delimiters that would end it |
| UrlParse.SegmentRange | libraries/utilities/URLUtils.c:181-182 | the path without its outer slashes is a proper range if and only if the path is not a single slash |
| RingBuffer.Ring.constructor | libraries/utilities/RingBufferUtils.c:29-36 | an empty queue |
| RingBuffer.Ring.FreeSpace | libraries/utilities/RingBufferUtils.c:44-48 | free and used space add up to the size if and only if the queue is not empty |
| RingBuffer.Ring.UsedSpace | libraries/utilities/RingBufferUtils.c:50-54 | the number of queued bytes |
| RingBuffer.Ring.GetData | libraries/utilities/RingBufferUtils.c:56-64 | the oldest bytes that lie side by side, all of them unless the queue wraps |
| RingBuffer.Ring.Consume | libraries/utilities/RingBufferUtils.c:66-70 | the oldest bytes leave the queue, across the end of the buffer, if so many are queued; more, up to the size, and old bytes are queued again |
| RingBuffer.Ring.Write | libraries/utilities/RingBufferUtils.c:72-92 | as many bytes as fit are appended in order; taking the last slot empties the queue |
| RingBuffer.Ring.Drain | libraries/utilities/RingBufferUtils.c:56-70 | two rounds of reading yield the whole queue in order |
| RingBuffer.Appended | libraries/utilities/RingBufferUtils.c:72-92 | laying bytes around the end of the ring appends them exactly while a slot stays free |

## Left out

- LeadingZero.TopBitIgnored: assumes u = 0 or (4u)^(p-1) = 1 modulo p, because that p = 2^255 - 19 is prime (and Fermat's theorem) is not proved here. `LeadingZero.SameProjectivePoint` needs no assumption.
- Rfc7748.LadderMultiples: takes the correctness of the doubling and differential-addition formulas on the curve as its hypothesis, because elliptic-curve group theory is not part of this model.
- The 32-bit fexpand, fcontract, fmonty, swap_conditional, cmult and curve25519_donna: the ladder would repeat the 64-bit proof, and this fcontract does not produce a canonical encoding.
- Constant-time execution of the curve code.
- FlashDriver.Flash.Write: an erase or a write either happens as a whole or not at all, because the driver gives no order in which cells change within one call. Address wrap at 2^32 and write protection are not modelled.
- OtaUpdate.CheckCrc: the computed CRC has no effect in the code, so it is not part of the contract.
- OtaUpdate.Boots: after a boot loader has replaced itself, the next boot is taken to run the same update code.
- ParaStorage.ReadSafe: only the system part of the configuration; the user part of the backup is read but never copied back by the code. The copies of the static IP settings after a read, the manufacturing mode, allocation failures and locking are left out.
- ParaStorage.RunSafe: a store that starts with a wrong magic number is not part of the runs; `ParaStorage.Context.ReadConfiguration` gives its outcomes. A power cut while code only reads flash changes nothing and is not a separate step.
- Ymodem.TransferSafe: packets are lost whole and are not corrupted, because the receiver never checks the packet CRC. The header packet's text, the header retry loop, the closing empty packet and abort bytes from an operator in the middle of a packet are left out; the header is taken as received. The receiver stops at end of file; the outer loop of the code, which then starts over and acknowledges a repeated end-of-file byte, is left out. Counters are unbounded, so transfers of 2^31 packets are not covered.
- HttpChunked.HttpBody.ReadBody: ends at the last chunk's size line; the trailer bytes that the code passes to the callback after it, the content-length branch and the TLS copy of the loop are left out. Where the code reads CR LF into the buffer behind a size line, the buffer must have room for two bytes. A Content-Length header of 2^32 or more next to chunked coding, and the wrap of the 32-bit fill count for chunks within a buffer's length of 2^32, are left out.
- Sha512.DigestInPieces: only messages under 2^64 bits, because the code stores a 64-bit length; `Sha512.ShortPadding` shows the bound is exact.
- Clearing the SHA and AES contexts after use.
- AesModes.FrameContext.Update2: the second buffer is the destination only if the first is empty, because otherwise its front is overwritten before it is read.
- The AES block cipher itself, and the builds that delegate CBC to other libraries. The header selects a library (MICOAES) that is not part of this model; the model follows the code for the OpenSSL-style interface, which keeps a local copy of the initialization vector.
- WordSearch.StrChr: 32-bit little-endian words; the memory holds whole words, as the code reads up to three bytes behind the terminator.
- RingBuffer.Ring.constructor: the size is at most 2^31, so that sums of two positions fit 32 bits.
- memmem and the other string helpers, the remaining cipher modes, and the peripheral, RTOS, Wi-Fi and socket layers.
