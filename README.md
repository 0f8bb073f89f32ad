# eeprog: a Dafny model of the EEPROM programmer's core

eeprog is a serial EEPROM programmer. The firmware on an ATtiny84 drives the
chip over a bit-banged SPI bus and talks to a host over a bit-banged UART.
The host program (C#) packs the chip description into an ID word and exchanges
hex-encoded, checksummed lines with the firmware.

This project models the parts of both sides that compute something:

- `numerals.dfy` (modules `Numerals`, `Results`): byte and word types, hex and
  decimal digits, fixed-width and minimum-width hex, NUL-terminated strings,
  and the `Option`/`Result`/`Outcome` wrappers that stand for C# exceptions.
- `format_spec.dfy` (`FormatSpec`): the percent-format language of the
  firmware's mini-printf (`%c %u %x %X %s %S %%`), as a rendering function
  over a format text and a list of tagged arguments.
- `mbstring.dfy` (`MbString`): `strPrint`, `strPrintP`, `strPrintInt`,
  `strPrintHex`, `printFormat`, `strFormat` and `strFormatP`. Each method
  returns the characters it hands to the write-character callback.
- `softuart.dfy` (`SoftUart`): the formatting half of the software UART. A
  `Uart` object keeps the characters shifted out so far, and every print
  routine appends to them.
- `pins.dfy` (`Pins`): pin definitions (port in the high nibble, bit in the
  low nibble), the DIP pin table and the read-modify-write updates of
  `DDRx`/`PORTx`/`PINx` by `pinConfig`, `pinWrite` and `pinRead`, on a class
  `Avr` that holds the six registers. The routines look pins up as the
  firmware does; the `…Intended` variants look them up by DIP number.
- `softspi.dfy` (`SoftSpi`): `sspiTransferMSB`, `sspiTransferLSB`,
  `sspiTransfer` and `sspiInit` on an `Interface` object. The MISO samples are
  an input sequence and the `pinWrite`/`pinRead` calls form an output trace.
  `Transfer` and `InitAsWritten` follow the code as written; `TransferIntended`
  and `Init` are the corrected versions (see Findings).
- `device_loader.dfy` (`DeviceLoader`): the host-side line codec:
  `GetHexVal`, `StringToByteArray`, `HexString`, `VerifyChecksum` and
  `CheckResponse`.
- `eeprom.dfy` (`EepromDevice`): the `EEPROM` descriptor class, with
  validated setters, `PageSize`, `Size`, `SizeInK`, the packed `ID` and the
  constructor.

`firmware/eeprog/softuart.c` repeats the helpers of `firmware/shared/mbstring.c`,
so both use the same `FormatSpec` rendering and the same `Numerals` digits.
`uartFormat` and `uartFormatP` (and `strFormat` and `strFormatP`) are each
proved to write `Render` of the format text. Each pair therefore writes the
same output for the same text and arguments.

## Model

| member | source | states |
|---|---|---|
| Numerals.HexDigit | firmware/shared/mbstring.c:22-27 | getHexDigit (and its copy in softuart.c): a lower-case hex digit whose value is the low nibble of the argument |
| Numerals.ParseHexFixed | firmware/shared/mbstring.c:133-139 | n digits of fixed-width hex read back as the value modulo 16^n |
| Numerals.HexAtLeast | software/eeprog/DeviceLoader.cs:249 | "{0:x6}": exactly n digits for a value below 16^n, more digits (no truncation) otherwise, always reading back as the value |
| Numerals.DecimalRoundTrip | firmware/shared/mbstring.c:107-123 | the decimal form reads back as the value, starts with '0' only for zero, and has at most w digits below 10^w (five for 16 bits) |
| Numerals.CStrPrefix | firmware/shared/mbstring.c:80-83 | the string of a NUL-terminated buffer is the prefix before its first NUL, which it does not contain |
| FormatSpec.InsertionReadsBack | firmware/shared/mbstring.c:49-56 | %c writes one character, %x two hex digits of the low byte, %X four digits of the word, %u the decimal of the value, %s/%S the string up to its NUL |
| FormatSpec.RenderStep | firmware/shared/mbstring.c:42-67 | one window (ch1, ch2) writes the head of the rendering and consumes as many arguments as printFormat does; the walk moves on by two after '%' and by one otherwise |
| FormatSpec.WalkStep | firmware/shared/mbstring.c:168-176 | the same step read from a NUL-terminated buffer at the walk's index |
| FormatSpec.RenderVerbatim | firmware/shared/mbstring.c:164-178 | a format with no '%' is written verbatim, whatever the arguments |
| FormatSpec.ArgumentsConsumed | firmware/shared/mbstring.c:42-67 | each specifier consumes exactly one argument and %% none: the rendering uses only the first Specifiers(text) arguments, and extra ones change nothing |
| MbString.StrPrint | firmware/shared/mbstring.c:80-83 | writes the characters of the RAM string up to, not including, its NUL |
| MbString.StrPrintP | firmware/shared/mbstring.c:92-98 | the same for a string in program memory |
| MbString.StrPrintInt | firmware/shared/mbstring.c:107-123 | writes the decimal form of the value: "0" for zero, otherwise no leading zeros |
| MbString.StrPrintHex | firmware/shared/mbstring.c:133-139 | writes exactly `digits` lower-case hex digits of the value, most significant first |
| MbString.PrintFormat | firmware/shared/mbstring.c:42-67 | skip is true exactly for '%'; writes the window's insertion and consumes that many arguments |
| MbString.StrFormat | firmware/shared/mbstring.c:164-178 | writes the rendering of the RAM format string for its arguments |
| MbString.StrFormatP | firmware/shared/mbstring.c:202-217 | writes the same rendering for a format string in program memory |
| SoftUart.Uart.Write | firmware/eeprog/softuart.c:67-103 | one character is appended to what the port has sent |
| SoftUart.Uart.Print | firmware/eeprog/softuart.c:147-150 | appends the RAM string's characters up to its NUL |
| SoftUart.Uart.PrintP | firmware/eeprog/softuart.c:158-164 | appends the program-memory string's characters up to its NUL |
| SoftUart.Uart.PrintHex | firmware/eeprog/softuart.c:187-193 | appends exactly `digits` lower-case hex digits, most significant first |
| SoftUart.Uart.PrintInt | firmware/eeprog/softuart.c:201-218 | appends the decimal form, "0" for zero, with no leading zeros |
| SoftUart.Uart.PrintFormat | firmware/eeprog/softuart.c:232-257 | appends the window's insertion and consumes the arguments it names |
| SoftUart.Uart.Format | firmware/eeprog/softuart.c:281-296 | appends the rendering of the RAM format string |
| SoftUart.Uart.FormatP | firmware/eeprog/softuart.c:320-336 | appends the same rendering for a format in program memory |
| Pins.PinDef | firmware/target/avr/pins.c:25 | GETPORT and GETPIN of PINDEF(p, b) give back p and b for nibbles |
| Pins.GetPort | firmware/target/avr/pins.c:28 | the port is a nibble |
| Pins.GetPin | firmware/target/avr/pins.c:31 | the bit number is a nibble |
| Pins.PinDefFields | firmware/target/avr/pins.c:25-31 | every byte is PINDEF of its own port and bit |
| Pins.IsPinValidAsWritten | firmware/target/avr/pins.c:65-70 | isPinValid as written: 0 above MAX_PIN, otherwise the table entry at index pin |
| Pins.IsPinValidOffByOne | firmware/target/avr/pins.c:38-53 | as written, DIP pin p gets the definition of pin p + 1; pin 1 (Vcc) looks usable and pin 14 reads the byte after the table |
| Pins.PinDefinition | firmware/target/avr/pins.c:65-70 | isPinValid with index pin - 1: 0 for pin 0 and above MAX_PIN |
| Pins.DipPinout | firmware/target/avr/pins.c:38-53 | pins 2, 3 and 5 are PB0-PB2 and pins 6-13 are PA7-PA0; exactly Vcc, RESET, GND and out-of-range pins are unusable; usable pins are on port A or B with a bit below 8 |
| Pins.RaiseBit | firmware/target/avr/pins.c:95 | `reg \|= bit` sets the pin's bit and changes no other |
| Pins.LowerBit | firmware/target/avr/pins.c:97 | `reg &= ~bit` clears the pin's bit and changes no other |
| Pins.AnySetBit | firmware/target/avr/pins.c:157 | `reg & bit` is true exactly when the pin's bit is set |
| Pins.Configure | firmware/target/avr/pins.c:86-112 | pinConfig's register effect: nothing for definition 0; it never touches the PIN registers, nor the other port's DDR and PORT |
| Pins.ConfigureEffect | firmware/target/avr/pins.c:93-110 | for a usable pin, OUTPUT sets the pin's DDR bit, INPUT clears it and leaves PORT alone, INPUT_PULLUP also sets the PORT bit; every other bit of those registers is unchanged |
| Pins.ConfigureBit | firmware/target/avr/pins.c:93-110 | ConfigureEffect for one bit position |
| Pins.ConfigureFields | firmware/target/avr/pins.c:93-110 | the pin's DDR and PORT bytes after pinConfig, as the `\|=` and `&= ~` updates the branches make |
| Pins.Drive | firmware/target/avr/pins.c:119-138 | pinWrite's register effect: nothing for definition 0; no DDR or PORT register changes, nor the other port's PIN register |
| Pins.DriveEffect | firmware/target/avr/pins.c:123-137 | for a usable pin, pinWrite sets or clears exactly the pin's PIN bit |
| Pins.Level | firmware/target/avr/pins.c:149-160 | pinRead is false for definition 0 and otherwise whether the pin's bit of its PIN register is set |
| Pins.DriveThenLevel | firmware/target/avr/pins.c:119-160 | reading a pin after writing it gives the written state; writing one line does not change what another line reads |
| Pins.ConfigureKeepsLevels | firmware/target/avr/pins.c:86-112 | pinConfig never changes what any pin reads |
| Pins.Avr.Lookup | firmware/target/avr/pins.c:65-70 | the lookup the pin routines use, as written: 0 above MAX_PIN, and DIP pin p below 14 gets the definition of pin p + 1 |
| Pins.Avr.ConfigureDefinition | firmware/target/avr/pins.c:89-111 | the body of pinConfig after the lookup: returns whether the definition is usable and leaves the registers as Configure says |
| Pins.Avr.PinConfig | firmware/target/avr/pins.c:86-112 | looks the pin up as written (Lookup), returns whether that definition is usable and leaves the registers as Configure says for it |
| Pins.Avr.PinConfigIntended | firmware/target/avr/pins.c:86-112 | the same with the pin looked up by its DIP number (PinDefinition) |
| Pins.Avr.DriveDefinition | firmware/target/avr/pins.c:122-137 | the body of pinWrite after the lookup: leaves the registers as Drive says |
| Pins.Avr.PinWrite | firmware/target/avr/pins.c:119-138 | looks the pin up as written (Lookup) and leaves the registers as Drive says for that definition |
| Pins.Avr.PinWriteIntended | firmware/target/avr/pins.c:119-138 | the same with the pin looked up by its DIP number |
| Pins.Avr.LevelOf | firmware/target/avr/pins.c:152-159 | the body of pinRead after the lookup: false for definition 0, otherwise the pin's bit of its PIN register; changes nothing |
| Pins.Avr.PinRead | firmware/target/avr/pins.c:149-160 | looks the pin up as written (Lookup): false for an unusable definition, otherwise that definition's PIN bit; changes nothing |
| Pins.Avr.PinReadIntended | firmware/target/avr/pins.c:149-160 | the same with the pin looked up by its DIP number |
| SoftSpi.ShiftInBit | firmware/shared/softspi.c:31 | `(result << 1) \| sample` puts the sample in bit 0 and moves every other bit up one |
| SoftSpi.ShiftDownBit | firmware/shared/softspi.c:69 | `(result >> 1) \| (sample ? 0x8000 : 0)` puts the sample in bit 15 and moves every other bit down one |
| SoftSpi.ShrBit | firmware/shared/softspi.c:89 | bit k of `v >> s` is bit k + s of v, or clear beyond the word |
| SoftSpi.ShrOne | firmware/shared/softspi.c:36 | shifting the one-bit mask right moves its bit down until it falls off |
| SoftSpi.HalvedShr | firmware/shared/softspi.c:36 | halving the mask or data i times is a shift right by i |
| SoftSpi.MsbValueBits | firmware/shared/softspi.c:29-37 | the MSB-first result holds the n samples in its low n bits, the first sample most significant, and nothing above |
| SoftSpi.LsbAccumBits | firmware/shared/softspi.c:67-75 | after n samples the LSB-first accumulator holds them in its top n bits, the last sample in bit 15 |
| SoftSpi.LsbValueBits | firmware/shared/softspi.c:89 | with the shift by 16 - bits, the LSB-first result holds sample i in bit i and nothing above |
| SoftSpi.MsbOutsAt | firmware/shared/softspi.c:32 | MOSI at iteration i is `data & mask` for the mask halved i times |
| SoftSpi.MsbOutsAsWritten | firmware/shared/softspi.c:25 | as written, iteration i sends data bit bits - i (nothing at all for a 16-bit transfer) |
| SoftSpi.MsbOutsSendsWord | firmware/shared/softspi.c:25 | with the mask at 1 << (bits - 1), iteration i sends data bit bits - 1 - i |
| SoftSpi.LsbOutsSendsWord | firmware/shared/softspi.c:70-74 | iteration i of the LSB-first loop sends data bit i |
| SoftSpi.ClockedLength | firmware/shared/softspi.c:29-37 | a transfer of n bits makes exactly 4n pin calls |
| SoftSpi.ClockedShape | firmware/shared/softspi.c:41-49 | pin-call group i is the iteration that sends bit i, in the order of the active phase: SCK active, then SCK idle, with the MOSI write and the MISO read where the phase puts them |
| SoftSpi.SckEndsIdle | firmware/shared/softspi.c:26-50 | every transfer of at least one bit leaves SCK at the idle level !active |
| SoftSpi.Interface.TransferMsbAsWritten | firmware/shared/softspi.c:24-52 | sspiTransferMSB as written: the result is the MSB-first assembly of the samples; the trace sends the bits the `1 << bits` mask picks |
| SoftSpi.Interface.TransferMSB | firmware/shared/softspi.c:24-52 | the same routine with the corrected mask: the trace sends the data word top bit first |
| SoftSpi.Interface.MsbTrailing | firmware/shared/softspi.c:27-38 | the trailing-phase loop: SCK active, read, write MOSI, SCK idle, for each bit |
| SoftSpi.Interface.MsbLeading | firmware/shared/softspi.c:39-50 | the leading-phase loop: write MOSI, SCK active, SCK idle, read, for each bit |
| SoftSpi.Interface.LsbTrailing | firmware/shared/softspi.c:65-76 | the trailing-phase LSB loop: accumulates the samples from bit 15 down and runs the bit counter to 0 |
| SoftSpi.Interface.LsbLeading | firmware/shared/softspi.c:77-88 | the leading-phase LSB loop, likewise |
| SoftSpi.Interface.TransferLsbAsWritten | firmware/shared/softspi.c:62-91 | sspiTransferLSB as written returns 0 for every transfer, because the final shift is by 16 |
| SoftSpi.Interface.TransferLSB | firmware/shared/softspi.c:62-91 | the corrected routine returns the samples in the low bits, the first sample in bit 0; the trace sends data bit i at iteration i |
| SoftSpi.Interface.Transfer | firmware/shared/softspi.c:122-126 | sspiTransfer as written runs the as-written LSB-first routine exactly when SPI_LSB_FIRST is set, so its result is 0, and the as-written MSB-first one otherwise, whose MOSI writes follow the `1 << bits` mask |
| SoftSpi.Interface.TransferIntended | firmware/shared/softspi.c:122-126 | the same dispatch to the corrected routines: the LSB-first result holds sample i in bit i, and the MSB-first trace sends the data word top bit first |
| SoftSpi.Interface.InitAsWritten | firmware/shared/softspi.c:101-113 | looks the three pins up as pinConfig does (Avr.Lookup) and configures all three; fails without writing SCK or installing the transfer routine if one is unusable; otherwise writes SCK to the active level and installs sspiTransfer |
| SoftSpi.Interface.Init | firmware/shared/softspi.c:101-113 | the corrected sspiInit: pins looked up by their DIP numbers, and SCK written to its idle level |
| SoftSpi.MsbMaskOffByOne | firmware/shared/softspi.c:25 | sending 0x0001 in 8 bits: as written no MOSI write is high; with the corrected mask the last one is |
| SoftSpi.LsbShiftLosesData | firmware/shared/softspi.c:89 | whenever a MISO sample is high, the intended LSB-first result is not 0, while the as-written one is |
| SoftSpi.InitClockLevel | firmware/shared/softspi.c:109 | after sspiInit as written, SCK reads the active level; after the corrected one, the idle level |
| DeviceLoader.GetHexVal | software/eeprog/DeviceLoader.cs:222-226 | '0'-'9' map to 0-9, and 'A'-'F' and 'a'-'f' to 10-15 |
| DeviceLoader.GetHexValUnchecked | software/eeprog/DeviceLoader.cs:225 | characters that are not hex digits are not rejected: ':' reads as 3, 'G' and 'g' as 16 |
| DeviceLoader.ByteOfDigits | software/eeprog/DeviceLoader.cs:235 | a digit pair stores 16 * high + low |
| DeviceLoader.PairsAt | software/eeprog/DeviceLoader.cs:233-236 | byte i comes from characters 2i and 2i + 1 |
| DeviceLoader.DecodeHex | software/eeprog/DeviceLoader.cs:228-238 | what StringToByteArray gives: the odd-digits failure exactly for odd length, otherwise length/2 bytes |
| DeviceLoader.StringToByteArray | software/eeprog/DeviceLoader.cs:228-238 | fails with the odd-digits message exactly for odd length; otherwise returns length/2 bytes, byte i made from characters 2i and 2i + 1 |
| DeviceLoader.DecodeHexDigits | software/eeprog/DeviceLoader.cs:228-238 | for hex digits of either case, byte i is 16 * hex(s[2i]) + hex(s[2i + 1]) |
| DeviceLoader.EncodeHex | software/eeprog/DeviceLoader.cs:253 | "{0:x2}" per byte gives two characters per byte |
| DeviceLoader.DecodeEncode | software/eeprog/DeviceLoader.cs:228-259 | decoding the "{0:x2}" text of any bytes gives back those bytes |
| DeviceLoader.EncodeDecode | software/eeprog/DeviceLoader.cs:228-238 | an even-length lower-case hex text is the encoding of what it decodes to |
| DeviceLoader.Add16 | software/eeprog/DeviceLoader.cs:254 | `checksum +=` on a UInt16 wraps modulo 2^16 |
| DeviceLoader.Word | software/eeprog/DeviceLoader.cs:313 | two bytes, high first, whose big-endian value is the word |
| DeviceLoader.ChecksumVerdict | software/eeprog/DeviceLoader.cs:306-316 | "Insufficient data received." for no block or one shorter than 2; otherwise a pass exactly when the last two bytes are the big-endian checksum of the rest |
| DeviceLoader.VerifyChecksum | software/eeprog/DeviceLoader.cs:306-316 | fails with "Insufficient data received." for no block or one shorter than 2; otherwise passes exactly when the sum of all but the last two bytes modulo 2^16 equals their big-endian value, and else fails with the "{0:X4}" message |
| DeviceLoader.ChecksumAccepts | software/eeprog/DeviceLoader.cs:310-314 | a block passes exactly when its last two bytes are the big-endian checksum of the rest |
| DeviceLoader.WordMatches | software/eeprog/DeviceLoader.cs:313-314 | two bytes read as `(hi << 8) \| lo` equal a word exactly when they are that word's big-endian bytes |
| DeviceLoader.CorruptionDetected | software/eeprog/DeviceLoader.cs:306-316 | changing any single byte of a passing block, payload or checksum, makes it fail |
| DeviceLoader.Count | software/eeprog/DeviceLoader.cs:251 | the loop emits max(0, min(size, length - offset)) bytes for offset >= 0, all inside the data |
| DeviceLoader.Emitted | software/eeprog/DeviceLoader.cs:251-255 | the emitted bytes number Count |
| DeviceLoader.AddressBytes | software/eeprog/DeviceLoader.cs:245-247 | the three low address bytes, high first |
| DeviceLoader.ChecksumOfThree | software/eeprog/DeviceLoader.cs:243-247 | the three address additions give the checksum of the address bytes |
| DeviceLoader.ChecksumStep | software/eeprog/DeviceLoader.cs:254 | adding one byte to the UInt16 checksum keeps it the checksum of the bytes so far |
| DeviceLoader.HexLine | software/eeprog/DeviceLoader.cs:240-259 | the line fails with an index error exactly when the offset is negative and the size positive; otherwise it has at least 6 + 2k + 4 characters for k emitted bytes |
| DeviceLoader.HexString | software/eeprog/DeviceLoader.cs:240-259 | the line is "{0:x6}" of the address, "{0:x2}" of each emitted byte and "{0:x4}" of (address bytes + emitted bytes) mod 2^16; indexing before the data (negative offset, positive size) fails |
| DeviceLoader.HexLineRoundTrip | software/eeprog/DeviceLoader.cs:228-259 | for an address below 2^24, decoding the line gives the address big-endian in bytes 0-2, then the emitted data, then the checksum, and that block passes VerifyChecksum |
| DeviceLoader.HexLineLength | software/eeprog/DeviceLoader.cs:249-257 | the line has 6 + 2k + 4 lower-case hex characters for k emitted bytes below 2^24, and is longer from 2^24 up |
| DeviceLoader.CheckResponse | software/eeprog/DeviceLoader.cs:280-304 | an empty response fails on its index; a non-'+' response fails with its text, or "No message provided." when there is none; '+' gives the rest as the message, with data exactly when the rest has even length, decoded as StringToByteArray does |
| DeviceLoader.ResponseCarriesBytes | software/eeprog/DeviceLoader.cs:291-302 | a '+' response carrying the hex of some bytes yields exactly those bytes |
| EepromDevice.Eeprom.New | software/eeprog/EEPROM.cs:132-138 | construction fails with the first rejected setter's message, in PageBits, SizeBits, AddressBytes order; otherwise every property equals its argument |
| EepromDevice.Eeprom.SetConnection | software/eeprog/EEPROM.cs:22-26 | sets the connection and nothing else |
| EepromDevice.Eeprom.SetPageBits | software/eeprog/EEPROM.cs:38-43 | rejects values outside 1..8 with "Invalid page size." leaving the field unchanged; otherwise stores the value; no other field changes |
| EepromDevice.Eeprom.SetSizeBits | software/eeprog/EEPROM.cs:66-71 | rejects values outside 1..32 with "Invalid chip size." leaving the field unchanged |
| EepromDevice.Eeprom.SetAddressBytes | software/eeprog/EEPROM.cs:117-122 | rejects values outside 1..4 with "Invalid address size" leaving the field unchanged |
| EepromDevice.PageSizeOf | software/eeprog/EEPROM.cs:53 | `(UInt16)(1 << bits)`: 2^(bits mod 32) when that is below 2^16, and 0 when the cast drops the bit |
| EepromDevice.LowSixteen | software/eeprog/EEPROM.cs:53 | the low 16 bits of 2^k are 2^k below bit 16 and zero from bit 16 up |
| EepromDevice.Eeprom.PageSize | software/eeprog/EEPROM.cs:49-55 | for valid page bits, the page holds 2^PageBits bytes |
| EepromDevice.PageSizeRange | software/eeprog/EEPROM.cs:49-55 | for valid page bits, PageSize is 2^PageBits and lies in 2..256 |
| EepromDevice.SizeOf | software/eeprog/EEPROM.cs:81 | `(UInt32)1 << bits` is 2^(bits mod 32) |
| EepromDevice.Eeprom.Size | software/eeprog/EEPROM.cs:77-83 | for valid size bits below 32 the chip holds 2^SizeBits bytes; 32 size bits give 1 |
| EepromDevice.SizeWraps | software/eeprog/EEPROM.cs:77-83 | Size is 2^SizeBits up to 31 bits; at 32 the shift count is masked, so Size is 1 and SizeInK reads "0K" |
| EepromDevice.SizeInKOf | software/eeprog/EEPROM.cs:99-105 | SizeInK is a decimal number followed by 'K', reading back as Size / 1024 |
| EepromDevice.Eeprom.SizeInK | software/eeprog/EEPROM.cs:99-105 | the getter's text ends in 'K' and its digits read back as Size / 1024 |
| EepromDevice.TwoToFits | software/eeprog/EEPROM.cs:81 | a masked shift count always gives a size that fits 32 bits |
| EepromDevice.PackedFields | software/eeprog/EEPROM.cs:89-93 | fields OR-ed in at bits 15, 14-12, 11-7 and 6-4 come back out of the word, with bits 3-0 clear |
| EepromDevice.DecodePacked | software/eeprog/EEPROM.cs:89-93 | the connection flag and the three counts, packed, decode to the connection and the counts |
| EepromDevice.Eeprom.Id | software/eeprog/EEPROM.cs:85-95 | decoding the ID recovers the connection, page bits, size bits and address bytes; bits 3-0 are zero |
| EepromDevice.IdInjective | software/eeprog/EEPROM.cs:85-95 | two valid descriptors with the same ID have the same fields |

## Left out

- `uartWrite`, `uartRead` and `uartInit` (firmware/eeprog/softuart.c:52-139) are cycle-timed assembly with floating-point delay constants. `SoftUart.Uart.Write` only records the character sent.
- firmware/target/avr/flash.c and `pgm_read_byte_near` are not part of this model. Program memory is a sequence of characters read by index.
- firmware/main.c only prints a banner and spins, and the WinForms UI is not part of this model.
- `OpenPort`, `FlushInput`, `SendCommand`, `Read`, `Write`, `Cancel`, `CheckSignature` and the events of DeviceLoader.cs are left out. They are serial-port, file and thread plumbing.
- Null references are left out, except one case: `VerifyChecksum` takes its null block as `None`. A null `hex` or `response` throws before any logic runs.
- DeviceLoader.HexString: a null `data` is not modelled. With a size of 0 or less the loop condition never reads `data`, so the source returns the same line as for empty data. With a positive size it throws.
- Text is a sequence of Unicode scalar values, while C# strings are UTF-16 code units. This makes no difference for the ASCII hex digits and '+' that the protocol uses. Non-ASCII input to `GetHexVal` and `StringToByteArray` is not modelled unit for unit.
- DeviceLoader.HexString: the int32 overflow of `offset + i` for offsets near `int.MaxValue` is not modelled (integers are unbounded).
- DeviceLoader.GetHexVal: the contract pins the value down only for hex digits. Other characters follow the same arithmetic, shown for ':' and 'G' by `GetHexValUnchecked`.
- MbString.StrPrintHex: requires digits <= 4. More digits shift a 16-bit `int` by 16 or more, which C leaves undefined.
- SoftUart.Uart.PrintHex: requires digits <= 4, for the same reason.
- MbString.StrFormat: requires a renderable format. That excludes a lone '%' before the NUL, which reads past it, and arguments missing or of the wrong type, which `va_arg` leaves undefined.
- MbString.StrFormatP: requires a renderable format, as `StrFormat` does.
- SoftUart.Uart.Format: requires a renderable format, as `StrFormat` does.
- SoftUart.Uart.FormatP: requires a renderable format, as `StrFormat` does.
- SoftSpi.Interface.Transfer: requires bits <= 16 and one MISO sample per bit. Wider transfers shift by more than the word, which C leaves undefined.
- SoftSpi.Interface.TransferIntended: requires bits <= 16 and one sample per bit, as `Transfer` does.
- SoftSpi.Interface.TransferMSB: requires bits <= 16 and one sample per bit, as `Transfer` does.
- SoftSpi.Interface.TransferLSB: requires bits <= 16 and one sample per bit, as `Transfer` does.
- SoftSpi.Interface.TransferMsbAsWritten: requires bits <= 16 and one sample per bit, as `Transfer` does.
- SoftSpi.Interface.TransferLsbAsWritten: requires bits <= 16 and one sample per bit, as `Transfer` does. Its final `result >>= (16 - bits)` shifts by 16 because `bits` is 0 by then. On the AVR `int` is 16 bits wide, so C leaves that shift undefined. The model gives it the result a logical shift would give, which is 0, so the result is 0. `Transfer` inherits this.
- SoftSpi.StartMaskAsWritten: for bits = 16, `1 << bits` on a 16-bit `int` is likewise undefined in C. The model takes the bit shifted out, so the mask is 0 and no data bit is sent.
- Pins.Avr.PinConfig, PinWrite and PinRead: pin 14 reads the byte that follows the table in program memory. The model makes that byte a constant of the `Avr` object, given to its constructor (`tableTail`).
- `pinRead` of the MISO pin inside a transfer is not linked to the registers: the samples are an input sequence and the pin calls are an output trace. The `TODO` delays are absent in the source as well.
- Writing a one to a `PINx` bit toggles the output on real AVR hardware. The model stores in `PINx` the byte that the code computes.
- EepromDevice.Eeprom.Id: requires the fields in range. Every object returned by `New` has them in range, and the setters keep them there. The casts of out-of-range values never occur.
- The `PageBits`, `SizeBits`, `AddressBytes` and `Connection` getters are the class's fields.

## Findings

| source | as written | input that shows it | evidently intended | confidence | as-written member | corrected member |
|---|---|---|---|---|---|---|
| firmware/target/avr/pins.c:69 | the table is indexed by `pin`, though its entries are listed from DIP pin 1 at index 0; `Avr.PinConfig`, `PinWrite`, `PinRead` and `Interface.InitAsWritten` use this lookup | pin 2 yields PB1, the entry for pin 3; pin 1 (Vcc) yields PB0; pin 14 reads the byte after the table | index `pin - 1`, with pin 0 rejected, as `PinDefinition` does and the `…Intended` pin routines and `Interface.Init` use | not executed; high | Pins.IsPinValidOffByOne | Pins.DipPinout |
| firmware/shared/softspi.c:25 | the MSB-first mask starts at `1 << bits` (`TransferMsbAsWritten`, called by `Transfer`); for 16 bits that shift is undefined on a 16-bit `int` | data 0x0001 in 8 bits: no MOSI write is high | start at `1 << (bits - 1)` so that the top bit of the transfer goes first, as `TransferMSB` does, called by `TransferIntended` | not executed; high | SoftSpi.MsbMaskOffByOne | SoftSpi.MsbOutsSendsWord |
| firmware/shared/softspi.c:89 | the final shift uses `bits` after the loop has counted it down to 0, so it shifts a 16-bit `int` by 16, which C leaves undefined; the model takes the logical result 0 (`TransferLsbAsWritten`, called by `Transfer`) | any LSB-first transfer with a high MISO sample returns 0 | shift by 16 minus the number of bits transferred, leaving the data in the low bits, as `TransferLSB` does, called by `TransferIntended` | not executed; high | SoftSpi.Interface.TransferLsbAsWritten | SoftSpi.LsbValueBits |
| firmware/shared/softspi.c:109 | SCK is written to `!(options & SPI_POLARITY_HIGH)`, which is the active clock level | options 0: SCK is left high, while every transfer ends with it low | bring SCK to its base (idle) level, the one each transfer ends at | not executed; medium | SoftSpi.InitClockLevel | SoftSpi.Interface.Init |
