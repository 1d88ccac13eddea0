# Verified models of the secure SDK's self-contained algorithms

This project models, in Dafny, the logic of the SDK that does not depend on the operating system or on hardware, and
proves what it is for. `dafny verify dfyconfig.toml` checks everything.

| module (file) | what it models |
|---|---|
| `Numerals` | positional notation in any base, used wherever a number becomes digits |
| `Base58`, `Base58Tables`, `Base58Sizes` | the base58 codec of `lib_standard_app/base58.c` (sections 3 and 4 of draft-msporny-base58-02) |
| `Exceptions` | the TRY/CATCH/FINALLY macros of `include/exceptions.h` with `os_longjmp` |
| `Crc32`, `Crc32Table`, `Crc32Period`, `Divisors` | the table-driven CRC-32 of `src/cx_wrappers.c` (section 8 of RFC 1952), the period of its generator, and the divisors of 2^32 - 1 |
| `HidTransport`, `HidInterruptions`, `HidPorts` | the HID transport of `src/os_io_usb.c`: functions and theorems, packets that come in between, and the object in place |
| `BleTransport`, `LedgerProtocols` | the chunked transport of `src/ledger_protocol.c`, in the same two parts |
| `BerTlv`, `TlvEncoding` | `os_parse_bertlv` of `src/os.c`, and the encoder of `install_params.py` (section 8.1.3 of ITU-T X.690) |
| `Conversion`, `Printf`, `PrintfDirectives`, `CStrings` | the two printf interpreters of `src/os_printf.c`, the conversion they share, and what each directive stands for |
| `Format`, `FixedPoint` | the decimal printers of `lib_standard_app/format.c` |
| `Bip32`, `Bip32Elements` | derivation paths: `lib_standard_app/bip32.c`, their parser in `install_params.py`, and their elements as texts and bytes |
| `Circle` | the stepping of `bagl_draw_circle_helper` in `lib_bagl/src/bagl.c` |

## How the models are built

Loops over buffers are methods over arrays, and objects with fields are classes; each is proved against a function,
and the theorems are about the functions. Fixed-width arithmetic is written out where the code depends on it
(`CTypes`): the base58 loop indices, the 16-bit packet length, the printf counters and products, TLV lengths and
addresses, the 16-bit exception variable. Everywhere else mathematical integers are used and the ranges are proved or
required. Random bytes, what a port sends and the address of a buffer are parameters or fields. Characters stand for
bytes. Variable arguments are a list; a format whose arguments do not match has no meaning (`Printf.Stream` is `None`).

The exception machine is a function on machine states, because a long jump has no counterpart among Dafny's
statements. A block's context is named by the slot of the stack frame that it occupies; the macros' labels and the
two arms of every `if` are addresses.

## What the code does that its descriptions do not say

* Base58: an encoding of one character (an input of one byte below 58) is rejected by the decoder, so the round trip
  holds exactly for the other non-empty inputs (`Base58.RoundTrip`).
* Exceptions: `os_longjmp` takes 32 bits and `ex` keeps 16, so a `THROW(x)` with a zero low half (other than 0 itself,
  which is delivered as 1) is delivered as "no exception". When one comes to a TRY, the block is entered again. The
  machine may then run for ever (`Exceptions.ThrowNeedsLowBits`), or end with the dead block's context active
  (`Exceptions.ContextLeftActive`); it never ends as it should. The programs that the machine leaves with the context
  they were started with are exactly those whose structured run ends without this happening
  (`Exceptions.ReturnsIff`).
* HID: the comments say that a version, channel or ping packet does not reset a reception under way; the code jumps to
  the reset. So an APDU arrives exactly if no such packet comes between its first and its last packet
  (`HidInterruptions.ArrivesIffUninterrupted`, `HidInterruptions.OneInterruption`,
  `HidInterruptions.ServiceKeepsIffIdle`). A packet of unknown kind changes nothing, but is answered "received" when
  nothing is under way, although no APDU has been completed (`HidInterruptions.UnknownIsTransparent`).
* BLE: when the data ends where a chunk ends, the sender adds a chunk without data, for which the receiver, already
  complete, changes its status to "waiting" (`BleTransport.StatusAtTheEnd`).
* BER-TLV: an empty value at the very end is not found; a comparison with a value that is cut off compares only what is
  there (`TlvEncoding.ComparisonIsPartial`). Of memory that reaches the end of the address space no value is used
  (`BerTlv.AddressChecksAreExact`).
* printf: numbers are padded exactly when at most 14 characters are missing, and `pcBuf` is large enough exactly for
  widths up to 16 or beyond the last padded one (`Conversion.RenderingLength`, `Conversion.ScratchSuffices`). The
  comment says that `%X` uses lower case; the code uses upper case. For `%*s` with an empty text `mcu_usb_printf` sends
  one blank more than it is asked for and `snprintf` does not (`Printf.BlanksDiffer`); a width in front of it is
  reduced by the number of ordinary characters in front of the directive, since `ulIdx` still holds that
  (`Printf.WidthIsReduced`). A percent sign at the end takes the terminator for its letter, and the format goes on
  behind it.
* `format_u64` takes a size of 1 for a one-digit number and writes the terminator behind it (`Format.FormatU64`).
* `format_fpu64` accepts some destinations that are too small when there is no digit before the point
  (`FixedPoint.CompleteIff`), and otherwise rejects some that are large enough (`FixedPoint.RejectedIff`).
  `bip32_path_format` may succeed with the last number cut (`Bip32.AcceptedButCut`).
* Circle: row y is drawn to the nearest column exactly if r^2 - y^2 is not of the form m(m - 1), for instance not at
  height 4 of radius 6 (`Circle.Rows`, `Circle.RowsOfSix`).

## Model

| member | source | states |
|---|---|---|
| Base58.DecodingOfEncoding | lib_standard_app/base58.c:45-157 | decoding the base58 text of any byte string gives the byte string, leading zeros included |
| Base58.EncodingOfDecoding | lib_standard_app/base58.c:45-157 | encoding what any readable text decodes to gives the text, leading '1's included |
| Base58.RoundTrip | lib_standard_app/base58.c:53-55 | with the decoder's length checks, exactly the inputs of at most 120 bytes that are neither empty nor one byte below 58 come back |
| Base58.EncodingLength | lib_standard_app/base58.h:10-14 | an input of at most 120 bytes has at most 164 characters, so the decoder's limit rejects no encoding |
| Base58.EncodingLengthIsTight | lib_standard_app/base58.h:10-14 | 120 bytes of 255 have exactly 164 characters |
| Base58.LimitsAgree | lib_standard_app/base58.h:10-14 | the encoder's limit is the largest size all of whose encodings the decoder can take |
| Base58.AcceptedIff | lib_standard_app/base58.c:53-70 | the decoder takes texts of 2 to 164 digits and letters other than 0, O, I and l |
| Base58.EncodingDenotes | lib_standard_app/base58.c:108-157 | an encoding denotes the number of its input in base 58, with as many leading '1's as there are leading zeros |
| Base58Tables.AlphabetIs | lib_standard_app/base58.c:24-36 | the table knows exactly the digits and letters other than 0, O, I and l |
| Base58Tables.CharOrder | lib_standard_app/base58.c:38-43 | the alphabet is in the order of the character codes |
| Base58Sizes.RoomSuffices | lib_standard_app/base58.c:124 | n * 138 / 100 + 1 digits hold every n-byte number: 256^n < 58^room for all n |
| Base58.MulAddSplit | lib_standard_app/base58.c:126-138 | multiply-and-add over digits splits at any place, the carry of the right part going into the left one |
| Base58.MulAddValue | lib_standard_app/base58.c:126-138 | multiply-and-add and its carry conserve the number: 256 times the value plus the byte |
| Base58.NextPassFits | lib_standard_app/base58.c:124-138 | each further byte still fits the digits reserved for the bytes so far, so every pass has a zero digit to stop at |
| Base58.CarryPass | lib_standard_app/base58.c:127-137 | the carry loop with its early exit does what the full multiply-by-256-and-add over all digits does, digits left of the new stop are zero, and the stop stays at least 1 so stop - 1 never wraps |
| Base58.ToBase58 | lib_standard_app/base58.c:124-138 | after all passes the buffer holds base-58 digits with the value of the input |
| Base58.Encode | lib_standard_app/base58.c:108-157 | fails exactly for inputs over 120 bytes or an output too small, leaving the output alone; otherwise writes the encoding, returns its length and touches nothing behind it |
| Base58.LongDivision | lib_standard_app/base58.c:79-84 | one pass divides the base-58 number by 256 and clears exactly the leading digit; all digits stay below 58 |
| Base58.DigitMoved | lib_standard_app/base58.c:77-91 | a pass moves one base-256 digit from the remaining number to the result without changing the total |
| Base58.DivPass | lib_standard_app/base58.c:79-84 | the inner loop in place computes that quotient and remainder |
| Base58.ToBase256 | lib_standard_app/base58.c:75-91 | the in-place long division ends with the write index at the number of leading zeros and the same value in base 256 |
| Base58.Decode | lib_standard_app/base58.c:45-106 | fails exactly for texts outside 2..164 characters, with a character outside the alphabet, or an output too small; otherwise writes zero bytes for the leading '1's and the minimal base-256 form of the rest |
| Exceptions.MachineRefinesStructure | include/exceptions.h:59-143 | every nest of blocks, handlers, loops and throws behaves on the expanded macros as structured exceptions do: same effects, same outcome, a throw in a handler skips its FINALLY, an uncaught one runs FINALLY and goes on; the active context at the end is that at entry; a throw that is delivered as "no exception" opens its block again, after the same effects |
| Exceptions.ReturnsIff | src/os.c:98-112 | the machine leaves a program with the context it was started with exactly if the structured run ends and no throw delivered as "no exception" has come to a TRY |
| Exceptions.ReturnsUnlessLost | src/os.c:98-112 | for a structured run that is not cut short, it does so exactly if no such throw has come to a TRY |
| Exceptions.LostNeverReturns | include/exceptions.h:59-143 | after such a throw the contexts lead only to each other: whatever the rest of the program does, the machine never gets out with the context it was started with |
| Exceptions.DeliverableIsNotLost | src/os.c:98-112 | a program without any such THROW in its text never is in that case |
| Exceptions.ContextLeftActive | include/exceptions.h:66-143 | a program that throws so only once ends normally after 13 steps, having done its action twice, with the context of its dead block active |
| Exceptions.ThrowNeedsLowBits | src/os.c:98-112 | a block that always throws x, with a CATCH_ALL, stops exactly if x is 0 or has a non-zero low half |
| Exceptions.SimTry | include/exceptions.h:66-143 | one BEGIN_TRY..END_TRY block, in any frame and any context, ends as the structured TRY does and restores the context, or is entered again for a throw delivered as "no exception" |
| Exceptions.SimHandler | include/exceptions.h:77-110 | a handler clears the exception and closes its block first, so what it throws goes to the enclosing context |
| Exceptions.CaughtNumber | src/os.c:98-112 | what CATCH_OTHER(e) binds, and THROW(e) throws on, is 1 for 0 and the low 16 bits otherwise |
| Exceptions.CatchTakesIff | include/exceptions.h:79-87 | CATCH(y) takes THROW(x) exactly if y is that number; FINALLY runs in both cases, and an exception that is not taken goes on |
| Exceptions.HandlerThrows | include/exceptions.h:79-87 | a throw in a handler goes outward without FINALLY and is not taken by the same block |
| Exceptions.FinallyThrows | include/exceptions.h:119-143 | a throw in FINALLY takes the place of the exception that was on its way |
| Exceptions.FirstClauseTakes | include/exceptions.h:79-110 | of several clauses the first one for the exception takes it; without one a CATCH_OTHER or CATCH_ALL does |
| Crc32Table.TableCorrect | src/cx_wrappers.c:66-98 | all 256 table entries are eight steps of division by 0xEDB88320 |
| Crc32.StepIsShifts | src/cx_wrappers.c:105-107 | one table step is eight bit-serial steps on the register with the byte added |
| Crc32.RegisterIsRemainder | src/cx_wrappers.c:100-110 | for every buffer and start value the register is the remainder of the message polynomial, the start value added to its front, divided by the generator over GF(2) |
| Crc32.Update | src/cx_wrappers.c:100-110 | the loop computes the complement of that remainder |
| Crc32.Checksum | src/cx_wrappers.c:112-115 | cx_crc32 is the update from all ones |
| Crc32.CheckValue | src/cx_wrappers.c:112-115 | the checksum of the characters "123456789" is 0xCBF43926 |
| Crc32.UpdateInParts | src/cx_wrappers.c:100-110 | updating over a, complementing again and updating over b is one update over a followed by b |
| Crc32.StepInjective | src/cx_wrappers.c:105-107 | a step never maps two registers to one |
| Crc32.RegisterInjective | src/cx_wrappers.c:100-110 | neither does any buffer |
| Crc32.RegisterFeeds | src/cx_wrappers.c:100-110 | the bytewise register is a shift register fed with the bits of the message one by one |
| Crc32.BitBurst | src/cx_wrappers.c:112-115 | two different buffers of equal length that agree outside 32 consecutive bits, at any bit offset, have different checksums |
| Crc32.LongBurst | src/cx_wrappers.c:112-115 | two buffers that agree outside 33 consecutive bits have equal checksums exactly if they are equal or differ there by the generator polynomial |
| Crc32.BurstDetected | src/cx_wrappers.c:112-115 | replacing at most four consecutive bytes by different ones changes the checksum |
| Crc32.BurstInPlace | src/cx_wrappers.c:112-115 | two different buffers of equal length that agree outside four consecutive bytes have different checksums |
| Crc32Period.TwoBits | src/cx_wrappers.c:112-115 | two messages that differ in exactly two bits have equal checksums exactly if the distance of the bits is a multiple of 2^32 - 1; so below 2^29 bytes they never have |
| Crc32Period.PeriodIff | src/cx_wrappers.c:66-98 | the generator is primitive: x^k is 1 modulo the generator exactly for the multiples of 2^32 - 1 |
| Crc32Period.Product | src/cx_wrappers.c:100-110 | multiplication modulo the generator adds exponents, so a register is multiplied by x^k by shifting k times |
| HidTransport.ReceiveKeepsConsistent | src/os_io_usb.c:113-244 | any packet, with any bytes and any length that may wrap around, keeps the receiver's invariant |
| HidTransport.RunsAreSafe | src/os_io_usb.c:136-232 | over every run of packets: while an APDU is under way, written plus remaining is the announced total, which fits the buffer, something remains, and the buffer begins with the accepted payloads; on completion it begins with exactly those |
| HidTransport.ResetIff | src/os_io_usb.c:136-243 | a packet gives the reception up exactly if it is a version, channel or ping packet, has another sequence number than the next, or announces more than there is room for; the buffer is left alone then |
| HidTransport.PacketTaken | src/os_io_usb.c:138-232 | any other APDU packet, of any length that may wrap around: which bytes of it go where, channel, total, position, sequence number and answer |
| HidTransport.PacketBytes | src/os_io_usb.c:254-288 | every byte of a sent packet: channel, tag, sequence number, total length in the first, data, zero filler |
| HidTransport.PacketCount | src/os_io_usb.c:249-308 | how many packets an APDU takes: 57 bytes in the first one and 59 in each of the others |
| HidTransport.Reassembly | src/os_io_usb.c:249-308 | every APDU of 1 to 65535 bytes that fits arrives at a fresh receiver: "more data" for all packets but the last, "received" on the last, same length, channel and bytes |
| HidTransport.LatePacketsIgnored | src/os_io_usb.c:140-144 | an idle receiver is left as it is by the packets of a transmission whose beginning it has missed |
| HidTransport.ReadyAfterTransmission | src/os_io_usb.c:140-144 | whatever state it was in, a receiver is idle after a whole transmission |
| HidTransport.SecondTransmissionArrives | src/os_io_usb.c:140-144 | so an APDU sent twice arrives the second time, whatever the receiver was doing |
| HidInterruptions.ArrivesIffUninterrupted | src/os_io_usb.c:200-222 | an APDU sent with any number of version, channel and ping packets in between arrives exactly if its packets follow each other without interruption; the buffer then holds it |
| HidInterruptions.OneInterruption | src/os_io_usb.c:200-222 | a single such packet leaves the reception alone exactly in front of the first packet and behind the last |
| HidInterruptions.ServiceKeepsIffIdle | src/os_io_usb.c:200-222 | it leaves the receiver as it was exactly if nothing was under way, and is answered with a reset |
| HidInterruptions.UnknownIsTransparent | src/os_io_usb.c:136-232 | a packet of unknown kind anywhere in a run changes no state and no other answer; its own answer is "received" exactly if nothing is under way |
| HidPorts.HidPort.Accept | src/os_io_usb.c:113-237 | the method on the global variables and buffers does exactly the receiver's step and sends exactly the reply |
| HidPorts.ReplyBytes | src/os_io_usb.c:200-222 | a version request is answered with version 0, a channel request with the random channel, a ping with itself, each as one packet of 64 bytes; nothing else is answered |
| HidPorts.HidPort.AcceptChunk | src/os_io_usb.c:138-199 | the same for APDU packets |
| HidPorts.HidPort.Sent | src/os_io_usb.c:249-296 | sends the next packet and advances, or resets everything and reports idle when nothing remains |
| HidPorts.HidPort.Send | src/os_io_usb.c:298-308 | starts a transmission with its first packet; an empty APDU changes nothing |
| HidPorts.HidPort.Transmit | src/os_io_usb.c:249-308 | io_usb_hid_send, and io_usb_hid_sent until nothing remains, send exactly the packets of the APDU and leave the port idle |
| BleTransport.ReceiveKeepsConsistent | src/ledger_protocol.c:54-103 | any chunk keeps the receiver's invariant |
| BleTransport.RunsAreSafe | src/ledger_protocol.c:54-103 | over every run of chunks: the buffer begins with the accepted data, less than the announced length, which fits; when complete it holds exactly the accepted data |
| BleTransport.OtherChunk | src/ledger_protocol.c:113-164 | chunks of other kinds and short ones do nothing to the reception |
| BleTransport.RefusedChunk | src/ledger_protocol.c:54-80 | a chunk that is cut off or has another sequence number only sets the status to waiting; one that announces too much also sets the length |
| BleTransport.AcceptedChunk | src/ledger_protocol.c:54-103 | every other chunk: which bytes of it go where, length, offset, sequence number and status |
| BleTransport.AdvanceKeepsSending | src/ledger_protocol.c:192-211 | the sequence number counts full chunks and never wraps around, and the buffer pointer becomes NULL exactly when what remains does not fill a chunk |
| BleTransport.ChunkBytes | src/ledger_protocol.c:166-214 | every byte of a sent chunk and its length, for every mtu from 7 to 158 |
| BleTransport.ChunkCount | src/ledger_protocol.c:166-214 | how many chunks an APDU takes: mtu - 7 bytes in the first one and mtu - 5 in each of the others, the last one never full |
| BleTransport.Reassembly | src/ledger_protocol.c:166-214 | for every mtu from 7 to 158 and every APDU the receiver can hold, the empty one included, the chunks with data bring exactly the APDU, "need more data" until the last, then "complete"; a chunk without data follows exactly if the data ends where a chunk ends |
| BleTransport.StatusAtTheEnd | src/ledger_protocol.c:56-60 | behind the last chunk the bytes are those of the APDU, and the status is "complete" exactly if there was no trailing chunk |
| LedgerProtocols.LedgerProtocol.Initialise | src/ledger_protocol.c:106-111 | whatever the fields were, the receiver is idle with sequence number 0 and everything else stays as it was |
| LedgerProtocols.LedgerProtocol.Rx | src/ledger_protocol.c:113-164 | does exactly the receiver's step for APDU chunks and prepares the version, channel, ping and MTU answers; NULL and short chunks change nothing |
| LedgerProtocols.AnswerBytes | src/ledger_protocol.c:119-158 | every byte of the answers to version, channel, ping and MTU chunks |
| LedgerProtocols.AnswerLengths | src/ledger_protocol.c:119-158 | and how many of them are to be sent |
| LedgerProtocols.LedgerProtocol.ProcessApduChunk | src/ledger_protocol.c:54-103 | the reception of an APDU chunk in place |
| LedgerProtocols.LedgerProtocol.Tx | src/ledger_protocol.c:166-214 | writes the next chunk of a new or the current APDU and advances; with neither it changes nothing |
| LedgerProtocols.LedgerProtocol.Transmit | src/ledger_protocol.c:166-214 | LEDGER_PROTOCOL_tx with an APDU, and without one until the buffer pointer is NULL, gives exactly the chunks of the APDU and keeps the channel |
| BerTlv.ReadLength | src/os.c:153-176 | reads the length field inside the memory, 32-bit overflow included, and stops exactly if it is cut off, indefinite or followed by nothing |
| BerTlv.LengthField | src/os.c:153-176 | the length is one byte up to 127, or as many base-256 digits as that byte less 128 says, of which 32 bits are kept; 128, a cut-off length and one with nothing behind it end the search |
| BerTlv.Search | src/os.c:150-233 | the search loop finds the first value with the tag that does not start before the requested offset; cursor plus remaining length is the memory's length |
| BerTlv.FindIsFirst | src/os.c:150-233 | in the list of the values in memory, the search finds the first one with the tag not before the requested offset; the reported TLV offset is its position, or that of the last one with the tag if there is none |
| BerTlv.AddressChecksAreExact | src/os.c:202-213 | the wrapping address comparisons hold exactly if the bytes lie inside the memory and the memory does not reach the end of the address space |
| BerTlv.OsParseBerTlv | src/os.c:121-239 | the whole parser in place: return value, copied bytes, address, TLV offset; nothing else in the target changes |
| BerTlv.FindBounds | src/os.c:179-190 | a value found lies inside the memory, not before the requested offset, and its position is the reported TLV offset |
| TlvEncoding.EncoderDomain | install_params.py:47-67 | the encoder fails exactly for values of 65536 bytes or more and tags of more than one byte |
| TlvEncoding.ShortestLength | install_params.py:47-67 | the length is written in the shortest form, with its base-256 digits |
| TlvEncoding.HeaderRead | install_params.py:47-67 | the parser reads back tag, length and value of every encoded record, except an empty value at the very end |
| TlvEncoding.FirstRecordAnswers | src/os.c:179-229 | on any encoded list, copying, comparing and getting the length are answered from the first record with the tag, trimmed to offset and maxlength |
| TlvEncoding.NotServed | src/os.c:134-137 | a request about no memory, without a buffer, or with a null pointer unless an address is asked for, changes nothing |
| TlvEncoding.PointerDoesNotMatter | src/os.c:134-137 | when an address is asked for, a null pointer serves as well as any other |
| TlvEncoding.RequestParts | src/os.c:130-132 | bit 31 of the offset asks for a comparison and bit 30 for the address; the others are the offset |
| TlvEncoding.TlvOffsetIs | src/os.c:179-190 | the stored TLV offset is the position of the value found, used or not, or of the last one with the tag if none is found; nothing is stored without a place for it |
| TlvEncoding.Enumeration | src/os.c:180-189 | calls with *tlvoffset + 1 give the values with the tag in order up to the first empty one: all of them exactly if none is empty |
| TlvEncoding.CopyIsSlice | src/os.c:197-228 | on arbitrary bytes, what is copied is a contiguous slice of the memory, at the reported position, at most maxlength long |
| TlvEncoding.CopyIff | src/os.c:179-228 | on arbitrary bytes, exactly what is copied: the part asked for if it lies inside the memory, all that is there of a cut-off value from its first byte on, or nothing |
| TlvEncoding.AddressIff | src/os.c:179-222 | in the same cases an address is given, with the rest of the length, or all that is there of the value if that is less |
| TlvEncoding.ComparisonIsPartial | src/os.c:195-226 | exactly when the parser reports equality, for any memory and comparing request: there is a buffer, and the first value with the tag has the length asked for and what there is of it is equal, from its first byte on if it is cut off |
| TlvEncoding.ComparisonOfCutOffValue | src/os.c:195-226 | a concrete cut-off value that compares equal to a longer one |
| Conversion.NumeralReadsBack | src/os_printf.c:30-65 | the digits written denote the number, without superfluous leading zeros |
| Conversion.DigitCharIs | src/os_printf.c:30-65 | the sixteen digits, with and without capitals |
| Conversion.PowerTest | src/os_printf.c:996-1000 | the wrapping test that ends the power search is the true comparison |
| Conversion.FindPower | src/os_printf.c:996-1000 | the search ends at the highest power not above the value and takes one from the count for every further digit |
| Conversion.EmitDigits | src/os_printf.c:1048-1058 | dividing by the powers in turn writes the numeral |
| Conversion.EmitFront | src/os_printf.c:1002-1046 | zeros are put behind the sign, blanks in front of it, as many as the count says |
| Conversion.Convert | src/os_printf.c:996-1058 | the conversion in place is the field's rendering |
| Conversion.RenderingDenotes | src/os_printf.c:996-1058 | for every 32-bit value, sign, base, width and fill the rendering denotes the number |
| Conversion.RenderingLength | src/os_printf.c:1027-1035 | the length is max(width, digits and sign) exactly if at most 14 characters are to be filled in |
| Conversion.RenderingText | src/os_printf.c:996-1058 | the rendering in full: zeros behind the sign or blanks in front of it, as many as are missing, at most 14 |
| Conversion.ScratchSuffices | src/os_printf.c:575 | the 16 bytes of pcBuf suffice exactly for widths up to 16 or too large to be filled |
| Printf.ScanSpec | src/os_printf.c:137-172 | the loop through `again` reads count, fill and letter |
| PrintfDirectives.ReadFlags | src/os_printf.c:138-172 | digits and minus signs behind the percent sign are a width of 32 bits, and ask for zeros if a 0 comes while the width is zero |
| PrintfDirectives.NumberDirective | src/os_printf.c:194-244 | %d writes a two's complement number and %u an unsigned one in base 10, %x and %p base 16, %X base 16 with capitals, with the width and filling asked for; the text denotes the number |
| PrintfDirectives.TextDirective | src/os_printf.c:296-385 | %s writes a text up to its terminator, and blanks behind it up to the width |
| PrintfDirectives.GivenTextDirective | src/os_printf.c:249-261 | %.*s writes as many characters as the argument in front of the text says |
| PrintfDirectives.HexDirective | src/os_printf.c:287-366 | %H and %h write two hexadecimal digits for each byte, with and without capitals |
| PrintfDirectives.GivenHexDirective | src/os_printf.c:249-261 | %.*H and %.*h for as many bytes as the argument in front says |
| PrintfDirectives.CharDirective | src/os_printf.c:177-192 | %c writes the low byte of a number, and %% a percent sign |
| PrintfDirectives.BlanksDirective | src/os_printf.c:267-330 | %*s with an empty text writes blanks, one more to a stream than to memory, and more for a width beyond the preceding run of ordinary characters; with another text it is an error |
| PrintfDirectives.OtherDirective | src/os_printf.c:541-558 | any other letter is an error that takes no argument, reported as "ERROR" or not at all |
| Printf.McuUsbPrintf | src/os_printf.c:73-566 | what is sent is exactly what the format and its arguments stand for |
| Printf.Snprintf | src/os_printf.c:572-1133 | the destination holds a prefix of what the format stands for, all of it exactly if it fits, at least n - 2 characters otherwise (n - 1 without %H and %h), then zeros; nothing outside is written |
| Printf.HeldCharacters | src/os_printf.c:572-1133 | the contents of the memory character by character after snprintf: how far the text gets, zeros, and the rest as before |
| Printf.NoPairsWithoutHex | src/os_printf.c:876-904 | without an H or h in the format, the text is cut only where the buffer ends |
| Printf.PutHex | src/os_printf.c:876-904 | bytes in hexadecimal are written as far as whole pairs fit, and cut only between bytes |
| Printf.SameStream | src/os_printf.c:267-558 | the two interpreters write the same stream exactly if no directive is an error that only one reports and none asks for blanks by "*s" and an empty text |
| Printf.BlanksDiffer | src/os_printf.c:317-330 | for "*s" with an empty text and a number n, n + 1 blanks are sent and n are written to memory |
| Printf.WidthIsReduced | src/os_printf.c:318-326 | of five blanks that are asked for behind an empty text, two are missing when two characters stand in front of the directive |
| Printf.BoundedIsPrefix | src/os_printf.c:572-1133 | so for such formats the bounded interpreter leaves a prefix of what the streaming one sends, the whole exactly if it is shorter than the destination, zeros behind it, and nothing else changed |
| Printf.HexReadsBack | src/os_printf.c:342-366 | each byte can be read back from its two hexadecimal digits |
| Format.FormatU64 | lib_standard_app/format.c:65-99 | succeeds exactly if the number and its terminator fit, or a one-digit number is given one character; writes them and nothing else, in the latter case one character behind the destination |
| Format.FormatI64 | lib_standard_app/format.c:24-63 | the same for signed numbers, the smallest included, and leaves the destination alone otherwise |
| Format.SignedDenotes | lib_standard_app/format.c:24-63 | the printed text denotes the number |
| FixedPoint.FormatFpu64 | lib_standard_app/format.c:101-135 | succeeds exactly for the accepted sizes and writes the text, cut or filled up as strncpy does |
| FixedPoint.FixedDenotes | lib_standard_app/format.c:101-135 | the text denotes exactly value / 10^decimals, with `decimals` digits behind the point |
| FixedPoint.FixedParts | lib_standard_app/format.c:101-135 | in front of the point is the quotient without superfluous zeros, behind it the remainder |
| FixedPoint.CompleteIff | lib_standard_app/format.c:112-121 | a zero-filled, accepted destination holds the whole terminated text exactly if a digit is before the point or there is room for decimals + 3 |
| FixedPoint.RejectedIff | lib_standard_app/format.c:124-126 | the sizes that have room for the text and its terminator and are rejected are exactly n + 2 to n + 1 + decimals, for n digits of which one is before the point |
| FixedPoint.AcceptedTooSmallIff | lib_standard_app/format.c:112-114 | the sizes that are accepted although text and terminator do not fit: decimals - n + 3 to decimals + 2, for n digits all behind the point |
| FixedPoint.LeftChars | lib_standard_app/format.c:101-135 | the memory character by character after format_fpu64 |
| FixedPoint.FormatFpu64Trimmed | lib_standard_app/format.c:137-154 | whatever was in the destination: fails exactly as format_fpu64 does, and otherwise puts one terminator where the string that is there, trimmed, ends |
| FixedPoint.LeftComplete | lib_standard_app/format.c:137-154 | in a zero-filled destination with room for the whole text, that string is the text, and the trimmed text is what remains |
| FixedPoint.ShortestDenotes | lib_standard_app/format.c:137-154 | the trimmed text denotes the same number |
| FixedPoint.ShortestForm | lib_standard_app/format.c:137-154 | it ends neither in a point nor in a zero behind the point, and the whole part is untouched |
| Bip32.Bip32PathFormat | lib_standard_app/bip32.c:45-86 | succeeds exactly for 1 to 10 words if the last use of snprintf has room, and then the buffer holds the path's text, cut to the buffer; otherwise it is cleared; nothing behind it is written |
| Bip32.AcceptedButCut | lib_standard_app/bip32.c:57-62 | exactly when success is reported for a cut text; never when the buffer is larger than the text |
| Bip32.Bip32PathRead | lib_standard_app/bip32.c:26-43 | fails exactly for 0 or more than 10 words or too short an input, and otherwise gives the words |
| Bip32.ParseBip32Path | install_params.py:93-102 | the loop packs the number of elements and the elements in order, and fails exactly if one of them is not a number that fits or there are more than 255 |
| Bip32.RoundTrip | install_params.py:93-102 | parsing a printed path gives its length and bytes from which reading recovers the path, hardened steps included |
| Bip32.PrintParseRead | lib_standard_app/bip32.c:26-86 | the three routines one after the other return the path exactly for 1 to 10 words and a buffer larger than the text; a text that was cut never reads back as the path |
| Bip32Elements.StepTextIs | lib_standard_app/bip32.c:54-74 | a step is printed in decimal without its highest bit, with a quote exactly if that is set |
| Bip32Elements.PathTextIs | lib_standard_app/bip32.c:76-83 | a path is its steps with slashes in between |
| Bip32Elements.WordIs | lib_standard_app/bip32.c:32-41 | a word is read most significant byte first |
| Bip32Elements.PackIs | install_params.py:93-102 | and packed so |
| Bip32Elements.SplitIs | install_params.py:93-94 | a path is cut at every slash, and nothing is lost |
| Bip32Elements.ReadsNumber | install_params.py:96-100 | a number may have blanks around it, a sign, and underscores between its digits |
| Bip32Elements.NumberParts | install_params.py:96-100 | nothing else is read as a number |
| Bip32Elements.ElementIs | install_params.py:96-101 | an element is a number of 32 bits; a quote behind it sets the highest bit |
| Bip32Elements.ParsedIs | install_params.py:93-102 | the bytes are the number of elements and their words in order; there are none exactly if an element is no such number or there are more than 255 |
| Circle.DecisionStep | lib_bagl/src/bagl.c:520-527 | the incremental updates keep (y+1)^2 + x^2 - x - r^2 |
| Circle.StaysOnCircle | lib_bagl/src/bagl.c:436-528 | each drawn row keeps x^2 - x + y^2 <= r^2 < x^2 + x + y^2, until the diagonal is passed |
| Circle.Rows | lib_bagl/src/bagl.c:430-528 | for every radius up to 2^30 + 32770 the loop terminates, no part of its expressions overflows, it draws row y exactly if 2y^2 - y <= r^2, each at its column, and to the nearest column exactly if r^2 - y^2 is not m(m - 1) for any m > 0 |
| Circle.ColumnUnique | lib_bagl/src/bagl.c:436-528 | at most one column satisfies the bounds at a height, so they determine what is drawn |
| Circle.OverflowsBeyond | lib_bagl/src/bagl.c:520-527 | for every larger radius twice the difference of the coordinates is below the int range when x decreases for the first time |
| Circle.NearestIff | lib_bagl/src/bagl.c:520-527 | a column within the bounds is the nearest integer to the square root of r^2 - y^2 exactly if that number is not m(m - 1) for any m > 0 |
| Circle.OneTooFar | lib_bagl/src/bagl.c:520-527 | otherwise the nearest column is the one before |
| Circle.RowsOfSix | lib_bagl/src/bagl.c:520-527 | for radius 6 the loop draws five rows, and row 4 at column 5 although 4 is nearer |

## Left out

- Exceptions.Step: is a function on machine states, not methods on the context's fields, because long jumps have no counterpart in Dafny; each block has a stack slot of its own, so contexts that overlap in memory are not modelled.
- Jumping out of TRY blocks with return, goto or break, which include/exceptions.h rules out, and the registers that longjmp may clobber.
- HidTransport.RunsAreSafe: states completion for APDU packets only, because the code also answers "received" to a packet of unknown kind when idle.
- HID sending and receiving interleaved; both directions share their variables, and the model runs one at a time.
- The HID sequence number and lengths are not reduced to 32 bits: at 65535 bytes an APDU has fewer than 1200 packets.
- LedgerProtocols.LedgerProtocol.Tx: is for mtu 7 to 158, below and above which the source copies a negative length or past its chunk buffer.
- LedgerProtocols.LedgerProtocol.Rx: the received chunk is not itself the protocol's chunk or APDU buffer.
- BerTlv.OsParseBerTlv: takes memory of at most 3 * 2^30 bytes, above which the sum of an offset and a length may wrap around.
- Conversion.Convert: is for widths whose rendering fits the 16 bytes of pcBuf, behind which the source writes otherwise; ScratchSuffices says which these are.
- Printf.McuUsbPrintf: formats that are read beyond their memory, numbers that overflow pcBuf and arguments of the wrong kind have no meaning in the model.
- Printf.Snprintf: has the same restrictions; %u is taken to be enabled (HAVE_SNPRINTF_FORMAT_U), and HAVE_SNPRINTF_DEBUG is a parameter.
- FixedPoint.FormatFpu64Trimmed: takes memory with a terminator somewhere in what format_fpu64 leaves, since the source measures the string.
- Bip32.Bip32PathFormat: a destination of size zero is one with a terminator somewhere, since the source measures the string in it even then.
- Bip32.ParseBip32Path: paths consist of characters below 128; the digits and blanks of other scripts, which Python's int accepts, are errors in the model.
- Circle.Rows: the rectangles drawn for each octant and the inner circle are not modelled, only which rows and columns are reached.
- The other functions of src/cx_wrappers.c, src/os.c, install_params.py, format.c (format_hex) and bagl.c, the event pumping and the USB and BLE glue: thin wrappers, drawing, or driven by code that is not in the repository.
- Buffers, varints, the APDU parser and the swap helpers of lib_standard_app: their properties are easy.
