# cellguard core, modelled in Dafny

This project models the protocol and device-driver core of the cellguard
firmware. The firmware is written in Rust and runs battery cell monitors. The
model covers five parts:

- **COBS framing** (`libraries/cellagent-protocol/src/cobs/`).
  - A pull-based encoder (`cobs_encode.dfy`) and a byte-fed decoder
    (`cobs_decode.dfy`).
  - The round-trip test helpers and test vectors of `cobs.rs`
    (`cobs_tests.dfy`).
  - The round-trip theorem (`cobs_roundtrip.dfy`).
- **ADS131M08 SPI frames** (`libraries/ads131m08/src/`).
  - CRC-16-CCITT, word slots, command frames and received-frame
    verification (`ads_frame.dfy`).
  - The RREG/WREG command encoding (`ads_command.dfy`).
  - The register map (`ads_register.dfy`).
- **P3T1755 temperature sensor** (`libraries/p3t1755/src/`).
  - The register pointers, the configuration byte and the 12-bit temperature
    format (`p3t_register.dfy`).
  - The 32 bus addresses (`p3t_address.dfy`).
  - The SMBus alert response (`p3t_alert.dfy`).
  - The driver object with its register-pointer latch (`p3t_driver.dfy`).
- **TCA9535 port expander** (`libraries/tca9535/src/address.rs`): its eight
  bus addresses (`tca_address.dfy`).
- **Shared pieces.** `common.dfy` holds `u8`, `u16`, `Option` and `Result`.
  `i2c.dfy` stands in for the `embedded_hal` I2C interface that the P3T1755
  code is generic over.

Each operation follows the shape its source has:

- Pure Rust functions (`const fn` expressions, enum conversions) become
  Dafny functions.
- Values the source mutates in place become classes with `modifies` frames:
  - the COBS `Encoder` and `Decoder`;
  - the ADS frame buffers, which are arrays;
  - the I2C controller;
  - the `P3t1755` driver.
- Loops in the source become `while` loops with invariants, and each is
  proved against a specification function:
  - the CRC bit loop;
  - `write_command_const`;
  - `encode_full_slice`, `decode_full_slice` and `generate_example_data`.

Some things the source leaves to its callers or its environment:

- **Build constants.** `BYTES_PER_WORD`, `ENABLE_INPUT_CRC` and `CHANNELS`
  are crate-level constants that `frame.rs` imports (line 1) and that are
  defined outside it. Here they are the fields of a `Settings` value, so every
  property is proved for each allowed configuration.
- **`debug_assert!`.** The source's `debug_assert!`s become preconditions:
  - `xreg`: address below 128 and count 1 to 64;
  - `ch_reg`: channel below 8 and offset below 5;
  - `write_word_const` and `write_command_const`: buffer lengths.
- **The I2C bus.** What the bus answers to a transfer is a parameter: the
  bytes read, or an error kind together with the number of operations that
  completed before it.
- **The sensor's pointer register.** The P3T1755 keeps a pointer register
  that selects what a read returns. The first byte written in a transfer
  sets it. This behaviour comes from the device, not from the code. It is
  modelled in `P3tDriver.PointerAfter` so that the driver's latch can be
  checked against it.

Notes on the code:

- **The `roundtrip_example_11` fixture.** The fixture in `cobs.rs:86-90` is
  257 bytes: `0xFE`, the 253 bytes `0x03`…`0xFF`, then `0x02 0x01 0x00`.
  That is the COBS encoding of `generate_example_data(0x03)`.
- **`build_normal`.** It hands `write_command_const` a buffer with
  `NORMAL_WORDS` slots. It satisfies that function's length
  `debug_assert!` only when input CRC is on and there are no channels
  (`AdsFrame.BuildNormalLength`). `AdsFrame.BuildNormal` therefore carries
  that condition as its precondition.

## Model

| member | source | states |
|---|---|---|
| `CobsEncode.FirstZero` | libraries/cellagent-protocol/src/cobs/encode.rs:80 | the index of the first zero byte, with no zero before it; `None` exactly when the input has no zero |
| `CobsEncode.SplitFirstBlock` | libraries/cellagent-protocol/src/cobs/encode.rs:78-100 | the block's data is zero-free and at most 254 bytes long; data, the elided zero and the rest put back together give the input; a zero is elided only when one occurs within the first 254 bytes, otherwise the data is the first min(len, 254) bytes |
| `CobsEncode.CodeByte` | libraries/cellagent-protocol/src/cobs/encode.rs:34 | the code byte is the block length plus one and never zero, so the `as u8` cannot wrap |
| `CobsEncode.SplitAtZero` | libraries/cellagent-protocol/src/cobs/encode.rs:80-89 | a zero within the first 254 bytes ends the block there and is dropped from the rest |
| `CobsEncode.SplitShort` | libraries/cellagent-protocol/src/cobs/encode.rs:90-98 | a zero-free input of at most 254 bytes is one final block |
| `CobsEncode.BlockShape` | libraries/cellagent-protocol/src/cobs/encode.rs:78-100 | code 0xFF exactly for a full 254-byte block, which elides no zero; a shorter block is followed by more only after an elided zero |
| `CobsEncode.EncoderState.Pull` | libraries/cellagent-protocol/src/cobs/encode.rs:29-69 | every pull keeps the state well formed and strictly shrinks what is left; it yields `None` exactly in `End`, which it never leaves |
| `CobsEncode.Encoder.constructor` | libraries/cellagent-protocol/src/cobs/encode.rs:7-11 | a new encoder has the whole COBS encoding of its input still to emit |
| `CobsEncode.Encoder.Pull` | libraries/cellagent-protocol/src/cobs/encode.rs:13-15 | the byte pulled is the head of what was still to emit, and the rest remains; `None` only at the end, when nothing remains |
| `CobsEncode.PullStart` | libraries/cellagent-protocol/src/cobs/encode.rs:32-35 | the first pull emits the first code byte and leaves the rest of the encoding pending |
| `CobsEncode.PullNext` | libraries/cellagent-protocol/src/cobs/encode.rs:43-50 | an exhausted block that has a successor emits the next block's code byte |
| `CobsEncode.PullData` | libraries/cellagent-protocol/src/cobs/encode.rs:52-63 | inside a block, the next data byte is emitted |
| `CobsEncode.PullPending` | libraries/cellagent-protocol/src/cobs/encode.rs:29-69 | from every well-formed state, pulling emits exactly the pending encoding, byte by byte |
| `CobsEncode.PullZeroOnlyAtEnd` | libraries/cellagent-protocol/src/cobs/encode.rs:37-41 | 0x00 is pulled exactly from the exhausted last block, and then the encoder is finished |
| `CobsEncode.EndIsAbsorbing` | libraries/cellagent-protocol/src/cobs/encode.rs:65 | once finished, the encoder yields `None` forever |
| `CobsEncode.EncodeBlocksZeroFree` | libraries/cellagent-protocol/src/cobs/encode.rs:29-69 | the code and data bytes of an encoding contain no zero |
| `CobsEncode.EncodeDelimiterSafe` | libraries/cellagent-protocol/src/cobs/encode.rs:36-41 | every encoding is at least two bytes long and ends in its only zero byte |
| `CobsEncode.EncodeSplit` | libraries/cellagent-protocol/src/cobs/encode.rs:36-41 | an encoding is its blocks followed by the delimiter |
| `CobsEncode.EncodeEmpty` | libraries/cellagent-protocol/src/cobs/encode.rs:32-41 | the empty payload encodes as `[0x01, 0x00]` |
| `CobsDecode.DecoderState.Feed` | libraries/cellagent-protocol/src/cobs/decode.rs:90-154 | a zero byte always returns to `Idle`; `DataComplete` exactly for a zero at a block end; `InvalidFrame` exactly for a zero inside a block; `DataStart` exactly for a code byte while idle; `Empty` exactly for a zero while idle or a code byte after a 254-byte block; the byte output and the next block counter in every other case |
| `CobsDecode.Step` | libraries/cellagent-protocol/src/cobs/decode.rs:29-48 | the decoded data never outgrows the buffer; `BufferTooSmall` exactly when a data byte meets a full buffer; a data byte that fits is appended with `Ok(None)`; a reported length is the current data length or 0 |
| `CobsDecode.Decoder.constructor` | libraries/cellagent-protocol/src/cobs/decode.rs:13-26 | a new decoder is idle with no data, over the given buffer |
| `CobsDecode.Decoder.Feed` | libraries/cellagent-protocol/src/cobs/decode.rs:29-48 | the result and the new state and data are exactly one `Step` of the decoder at its buffer's capacity |
| `CobsDecode.Decoder.Data` | libraries/cellagent-protocol/src/cobs/decode.rs:51-54 | the decoded data are the first `pos` bytes of the buffer |
| `CobsDecode.ZeroResynchronises` | libraries/cellagent-protocol/src/cobs/decode.rs:93-150 | in every state a zero byte brings the decoder back to `Idle`, reporting `Some(0)`, the frame length, or `InvalidFrame` |
| `CobsDecode.NeverEmptyFrame` | libraries/cellagent-protocol/src/cobs/decode.rs:57-59 | `DecodeError::EmptyFrame` is never reported |
| `CobsRoundTrip.DecodeEncoded` | libraries/cellagent-protocol/src/cobs.rs:12-21 | the encoding of any payload that fits the buffer decodes back to it; as written, this fails exactly for payloads with a full 254-byte block followed by another block |
| `CobsRoundTrip.CorrectedRoundTrip` | libraries/cellagent-protocol/src/cobs/decode.rs:31 | with `Empty` answered by `Ok(None)` inside a frame, every encoding that fits decodes back to its payload |
| `CobsRoundTrip.FullBlockThenMoreIsLong` | libraries/cellagent-protocol/src/cobs/decode.rs:137-141 | only payloads of 255 bytes or more reach the mid-frame `Empty` |
| `CobsRoundTrip.OnesCounterexample` | libraries/cellagent-protocol/src/cobs/decode.rs:137-141 | 255 bytes of 0x01 encode as 0xFF, 254 ones, 0x02 0x01 0x00; the decoder as written does not give them back and the corrected one does |
| `CobsTests.EncodeFullSlice` | libraries/cellagent-protocol/src/cobs.rs:24-37 | `dest` receives exactly what the encoder had left, and the encoder ends finished; the panic happens exactly when that is longer than `dest` |
| `CobsTests.DecodeFullSlice` | libraries/cellagent-protocol/src/cobs.rs:12-21 | the helper succeeds exactly when every byte but the last answers `Ok(None)` and the last answers `Ok(Some(_))`, and it returns the decoder's data |
| `CobsTests.AssertRoundtrip` | libraries/cellagent-protocol/src/cobs.rs:40-51 | passes exactly when the encoding fits 512 bytes, equals `encoded`, and `encoded` decodes back to `decoded` |
| `CobsTests.EncodeBlocksLength` | libraries/cellagent-protocol/src/cobs/encode.rs:78-100 | encoding adds at least one byte, and at most one more per 254 payload bytes |
| `CobsTests.RoundtripOfEncoding` | libraries/cellagent-protocol/src/cobs.rs:40-51 | `assert_roundtrip(p, encode(p))` passes exactly when the encoding fits and `p` has no full block followed by another |
| `CobsTests.ShortPayloadsRoundtrip` | libraries/cellagent-protocol/src/cobs.rs:40-51 | every payload of at most 254 bytes passes the round trip |
| `CobsTests.GenerateExampleData` | libraries/cellagent-protocol/src/cobs.rs:53-61 | fills a fresh 255-byte array with `ExampleData(start)` |
| `CobsTests.ExampleData` | libraries/cellagent-protocol/src/cobs.rs:53-61 | byte `i` is `start + i` modulo 256, as `wrapping_add` gives |
| `CobsTests.Example1` | libraries/cellagent-protocol/src/cobs.rs:63-66 | `[0x00]` round-trips through `[0x01, 0x01, 0x00]` |
| `CobsTests.Example2` | libraries/cellagent-protocol/src/cobs.rs:68-71 | `[0x00, 0x00]` round-trips through `[0x01, 0x01, 0x01, 0x00]` |
| `CobsTests.Example3` | libraries/cellagent-protocol/src/cobs.rs:73-76 | `[0x00, 0x11, 0x00]` round-trips through `[0x01, 0x02, 0x11, 0x01, 0x00]` |
| `CobsTests.Example5` | libraries/cellagent-protocol/src/cobs.rs:78-84 | four nonzero bytes round-trip behind the code byte 0x05 |
| `CobsTests.Example11` | libraries/cellagent-protocol/src/cobs.rs:86-90 | `generate_example_data(0x03)` round-trips through the 257-byte fixture |
| `CobsTests.LongThenOneRoundtrip` | libraries/cellagent-protocol/src/cobs.rs:86-90 | 255 bytes whose only zero is at index 253 encode as a 254-byte block and a two-byte block, and round-trip |
| `AdsCommand.Xreg` | libraries/ads131m08/src/command.rs:36-40 | for an opcode with clear low 13 bits, the command carries the opcode, the address in bits 6..12 and `n - 1` in bits 0..5 |
| `AdsCommand.Rreg` | libraries/ads131m08/src/command.rs:19-21 | opcode 0b101, the address field is `addr` and the count field is `n - 1` |
| `AdsCommand.Wreg` | libraries/ads131m08/src/command.rs:28-30 | opcode 0b011, the address field is `addr` and the count field is `n - 1` |
| `AdsCommand.FieldsBelowOpcode` | libraries/ads131m08/src/command.rs:32-40 | the address and count fields never reach the opcode bits |
| `AdsCommand.FieldsDetermine` | libraries/ads131m08/src/command.rs:32 | a word is its three fields put back together |
| `AdsCommand.RregInjective` | libraries/ads131m08/src/command.rs:19-21 | distinct address and count give distinct RREG commands |
| `AdsCommand.WregInjective` | libraries/ads131m08/src/command.rs:28-30 | distinct address and count give distinct WREG commands |
| `AdsCommand.ReadWriteDisjoint` | libraries/ads131m08/src/command.rs:16-30 | no RREG command equals a WREG command |
| `AdsCommand.FixedCommandsDistinct` | libraries/ads131m08/src/command.rs:2-25 | NULL, RESET, STANDBY, WAKEUP, LOCK and UNLOCK are six distinct words, none with the RREG or WREG opcode |
| `AdsRegister.ChReg` | libraries/ads131m08/src/register.rs:32-36 | the address is `9 + 5 * channel + offset`, above THRESHOLD_LSB and at most 0x30, so no `u8` overflow and no clash with the global registers |
| `AdsRegister.ChCfg` | libraries/ads131m08/src/register.rs:20-22 | offset 0 of the channel's register block |
| `AdsRegister.ChOcalMsb` | libraries/ads131m08/src/register.rs:24-26 | offset 1 of the channel's register block |
| `AdsRegister.ChGcalMsb` | libraries/ads131m08/src/register.rs:28-30 | offset 3 of the channel's register block |
| `AdsRegister.ChRegInjective` | libraries/ads131m08/src/register.rs:32-36 | distinct (channel, offset) pairs give distinct addresses |
| `AdsRegister.Status.Locked` | libraries/ads131m08/src/register.rs:45-47 | locked exactly when the status word is at least 0x8000, i.e. bit 15 is set |
| `AdsRegister.LockedIgnoresLowBits` | libraries/ads131m08/src/register.rs:45-47 | bits 0..14 do not affect `locked` |
| `AdsFrame.Crc16Ccitt` | libraries/ads131m08/src/frame.rs:47-65 | the nested loops compute `Crc(data)`, the MSB-first CRC with polynomial 0x1021 and initial value 0xFFFF |
| `AdsFrame.CrcFromAppend` | libraries/ads131m08/src/frame.rs:51-63 | the CRC of a concatenation continues from the CRC of its first part |
| `AdsFrame.CrcCheckValue` | libraries/ads131m08/src/frame.rs:47-65 | the CRC of "123456789" is 0x29B1, the check value of CRC-16/CCITT-FALSE |
| `AdsFrame.CrcResidue` | libraries/ads131m08/src/frame.rs:47-65 | continuing a CRC over its own big-endian bytes gives 0 |
| `AdsFrame.CrcOfZeros` | libraries/ads131m08/src/frame.rs:51-63 | zero bytes leave a CRC of 0 at 0 |
| `AdsFrame.FromBeOfBytes` | libraries/ads131m08/src/frame.rs:37 | `from_be_bytes` of a word's `to_be_bytes` is the word |
| `AdsFrame.SlotsIndex` | libraries/ads131m08/src/frame.rs:86-91 | slot `k` of the word slots holds word `k`, big-endian and zero-padded |
| `AdsFrame.WordInSlot` | libraries/ads131m08/src/frame.rs:67-91 | every word reads back from the first two bytes of its slot |
| `AdsFrame.WriteWord` | libraries/ads131m08/src/frame.rs:67-80 | the word's slot is overwritten with its two bytes and the padding zeros; nothing else changes |
| `AdsFrame.CommandFrame` | libraries/ads131m08/src/frame.rs:82-98 | a command frame has one slot per word, plus the CRC slot when input CRC is on |
| `AdsFrame.WriteCommand` | libraries/ads131m08/src/frame.rs:82-98 | the buffer ends up holding exactly the command frame: every word in its slot, then the CRC of those slots |
| `AdsFrame.BuildShort` | libraries/ads131m08/src/frame.rs:7-11 | the frame of the single command word |
| `AdsFrame.BuildWriteOne` | libraries/ads131m08/src/frame.rs:17-21 | the frame of `wreg(addr, 1)` followed by the value |
| `AdsFrame.BuildNormal` | libraries/ads131m08/src/frame.rs:28-32 | the frame of the single command word, in a buffer of NORMAL_WORDS slots |
| `AdsFrame.BuildNormalLength` | libraries/ads131m08/src/frame.rs:23-32 | NORMAL_WORDS slots match write_command_const's expected length exactly when input CRC is on and there are no channels |
| `AdsFrame.GetVerifiedData` | libraries/ads131m08/src/frame.rs:35-44 | `Ok` exactly when the first two bytes of the last slot, big-endian, equal the CRC of everything before that slot; the data returned is that prefix; every failure is `CrcMismatch` |
| `AdsFrame.GetVerifiedDataSpec` | libraries/ads131m08/src/frame.rs:35-44 | verification returns the bytes before the last slot exactly when that slot's first two bytes are their CRC, and `CrcMismatch` otherwise |
| `AdsFrame.VerifiedCommandFrame` | libraries/ads131m08/src/frame.rs:35-44 | with input CRC on, every command frame passes verification and yields its word slots |
| `AdsFrame.CommandFrameResidue` | libraries/ads131m08/src/frame.rs:93-97 | with input CRC on, the CRC over a whole command frame is 0 |
| `AdsFrame.PaddingIgnored` | libraries/ads131m08/src/frame.rs:36-37 | only the first two bytes of the CRC slot affect verification |
| `P3tRegister.Register.Get` | libraries/p3t1755/src/register.rs:22-35 | the pointer byte is below 4 |
| `P3tRegister.PointerBytes` | libraries/p3t1755/src/register.rs:6-35 | the temperature, configuration, T_LOW and T_HIGH registers have the pointer bytes 0x00, 0x01, 0x02 and 0x03 |
| `P3tRegister.RegisterGetInjective` | libraries/p3t1755/src/register.rs:22-35 | the four registers have distinct pointer bytes |
| `P3tRegister.FaultQueueFromReg` | libraries/p3t1755/src/register.rs:162-166 | the variant's discriminant is the register's bits 3..4 |
| `P3tRegister.ConversionTimeFromReg` | libraries/p3t1755/src/register.rs:190-194 | the variant's discriminant is the register's bits 5..6 |
| `P3tRegister.DiscriminantsInjective` | libraries/p3t1755/src/register.rs:145-194 | distinct variants have distinct discriminants, so the transmutes of `from_reg` are well defined |
| `P3tRegister.Config.ToReg` | libraries/p3t1755/src/register.rs:50-52 | the byte carries each flag in its bit and both fields in their masks |
| `P3tRegister.Config.Bit` | libraries/p3t1755/src/register.rs:55-57 | true exactly when clearing the given bits would change the byte |
| `P3tRegister.Config.WithBit` | libraries/p3t1755/src/register.rs:59-67 | the chosen bit is set or cleared as asked and every other bit is kept |
| `P3tRegister.Config.WithFaultQueue` | libraries/p3t1755/src/register.rs:116-120 | the fault queue reads back as set, and the bits outside its mask are kept |
| `P3tRegister.Config.WithConversionTime` | libraries/p3t1755/src/register.rs:128-132 | the conversion time reads back as set, and the bits outside its mask are kept |
| `P3tRegister.Config.ShutdownMode` | libraries/p3t1755/src/register.rs:81-83 | true exactly when bit 0 of the byte is set |
| `P3tRegister.Config.WithShutdownMode` | libraries/p3t1755/src/register.rs:86-88 | shutdown mode reads back as set, and every bit but bit 0 is kept |
| `P3tRegister.Config.ThermostatMode` | libraries/p3t1755/src/register.rs:91-93 | true exactly when bit 1 of the byte is set |
| `P3tRegister.Config.WithThermostatMode` | libraries/p3t1755/src/register.rs:96-98 | thermostat mode reads back as set, and every bit but bit 1 is kept |
| `P3tRegister.Config.Polarity` | libraries/p3t1755/src/register.rs:101-103 | true (active high) exactly when bit 2 of the byte is set |
| `P3tRegister.Config.WithPolarity` | libraries/p3t1755/src/register.rs:106-108 | the polarity reads back as set, and every bit but bit 2 is kept |
| `P3tRegister.Config.OneShot` | libraries/p3t1755/src/register.rs:135-137 | true exactly when bit 7 of the byte is set |
| `P3tRegister.Config.WithOneShot` | libraries/p3t1755/src/register.rs:140-142 | one-shot reads back as set, and every bit but bit 7 is kept |
| `P3tRegister.Config.FaultQueue` | libraries/p3t1755/src/register.rs:111-113 | the variant whose discriminant is the byte's bits 3 and 4 |
| `P3tRegister.Config.ConversionTime` | libraries/p3t1755/src/register.rs:123-125 | the variant whose discriminant is the byte's bits 5 and 6 |
| `P3tRegister.ConfigRoundTrip` | libraries/p3t1755/src/register.rs:45-52 | `from_reg` and `to_reg` are inverse to each other in both directions |
| `P3tRegister.ConfigFromReg` | libraries/p3t1755/src/register.rs:45-52 | `to_reg(from_reg(v)) == v` |
| `P3tRegister.FlagSetGet` | libraries/p3t1755/src/register.rs:70-143 | setting one flag reads back as set and leaves every other flag, the fault queue and the conversion time unchanged |
| `P3tRegister.FaultQueueKeepsRest` | libraries/p3t1755/src/register.rs:116-120 | setting the fault queue leaves the flags and the conversion time unchanged |
| `P3tRegister.ConversionTimeKeepsRest` | libraries/p3t1755/src/register.rs:128-132 | setting the conversion time leaves the flags and the fault queue unchanged |
| `P3tRegister.ResetDecodes` | libraries/p3t1755/src/register.rs:286-295 | the reset value 0x28 has every flag clear, fault queue Two and conversion time 55 ms |
| `P3tRegister.WriteConfigVector` | libraries/p3t1755/tests/integration_test.rs:260-280 | the driver test's configuration is the byte 0x55 |
| `P3tRegister.AllFeaturesVector` | libraries/p3t1755/tests/integration_test.rs:414-437 | every option set is the byte 0xFF |
| `P3tRegister.TruncDiv` | libraries/p3t1755/src/register.rs:256-260 | Rust's integer division: the quotient rounded toward zero |
| `P3tRegister.I16FromBe` | libraries/p3t1755/src/register.rs:212 | the two's-complement value of the big-endian bytes |
| `P3tRegister.I16ToBe` | libraries/p3t1755/src/register.rs:217-220 | big-endian bytes that read back as the value |
| `P3tRegister.FromRegs` | libraries/p3t1755/src/register.rs:210-215 | the register value shifted right by 4, rounded down; the result is always in range |
| `P3tRegister.ToRegs` | libraries/p3t1755/src/register.rs:217-220 | registers whose 16-bit value is the temperature times 16 |
| `P3tRegister.FromRaw` | libraries/p3t1755/src/register.rs:225-231 | `Some` exactly for -2048..2047, holding the raw value |
| `P3tRegister.SaturatingFromRaw` | libraries/p3t1755/src/register.rs:236-244 | always in range, and the valid temperature nearest to the raw value |
| `P3tRegister.FromDegreesCelsius` | libraries/p3t1755/src/register.rs:247-249 | the raw value is the degrees times 16, always in range |
| `P3tRegister.FromCentiDegreesCelsius` | libraries/p3t1755/src/register.rs:250-260 | always in range; saturates to MAX from 128 °C up (`c * 16 >= 204800`) and to MIN from -128.07 °C down (`c * 16 <= -204900`); in between, within one LSB (1/16 °C) of the input, rounded toward zero |
| `P3tRegister.DegreesCelsius` | libraries/p3t1755/src/register.rs:268-272 | whole degrees rounded toward minus infinity |
| `P3tRegister.CentiDegreesCelsius` | libraries/p3t1755/src/register.rs:275-279 | `raw * 625 / 100` rounded toward zero |
| `P3tRegister.RegsRoundTrip` | libraries/p3t1755/src/register.rs:210-220 | `from_regs(to_regs(t)) == t` for every temperature |
| `P3tRegister.FromRegsIgnoresLowNibble` | libraries/p3t1755/src/register.rs:213-214 | the four bits below the 12 valid ones do not affect the reading |
| `P3tRegister.DegreesRoundTrip` | libraries/p3t1755/src/register.rs:247-272 | whole degrees survive the conversion to a temperature and back |
| `P3tRegister.SaturatingAgreesWithFromRaw` | libraries/p3t1755/src/register.rs:225-244 | the saturating constructor agrees with `from_raw` where that succeeds, and gives MIN below and MAX above the range |
| `P3tRegister.CentiRoundTrip` | libraries/p3t1755/src/register.rs:256-279 | centi-degrees and back lose at most 1/16 degree, always toward zero |
| `P3tRegister.RawBoundVectors` | libraries/p3t1755/src/register.rs:355-371 | the range ends are accepted, one beyond them is refused, and saturation clamps |
| `P3tRegister.PositiveVector` | libraries/p3t1755/src/register.rs:373-382 | 401 is `[0x19, 0x10]`, 25 degrees and 2506 centi-degrees |
| `P3tRegister.NegativeVector` | libraries/p3t1755/src/register.rs:384-393 | -168 is `[0xF5, 0x80]`, -11 degrees and -1050 centi-degrees |
| `P3tRegister.CentiVectors` | libraries/p3t1755/src/register.rs:395-406 | 2506 gives 400, -1050 gives -168, -12800 gives MIN and 12794 gives MAX |
| `P3tRegister.AccessorVectors` | libraries/p3t1755/tests/integration_test.rs:282-355 | T_LOW `[0x4B, 0x00]` is 75 degrees and T_HIGH `[0x50, 0x00]` is 80; 50 and 85 degrees are written as `[0x32, 0x00]` and `[0x55, 0x00]` |
| `P3tRegister.FullRangeVectors` | libraries/p3t1755/tests/integration_test.rs:439-468 | `[0x80, 0x00]` is -128 degrees; `[0x7F, 0xF0]` is 127 degrees and 12793 centi-degrees |
| `P3tAddress.Address.Get` | libraries/p3t1755/src/address.rs:91-93 | every discriminant lies in 0x40..0x5F |
| `P3tAddress.New` | libraries/p3t1755/src/address.rs:78-88 | `Some` exactly for 0x40 <= v < 0x60 |
| `P3tAddress.VariantsInOrder` | libraries/p3t1755/src/address.rs:10-75 | the variants' discriminants run from 0x40 upward without gaps, as the transmute assumes |
| `P3tAddress.NewThenGet` | libraries/p3t1755/src/address.rs:81-93 | for a valid `v`, `new(v).get() == v` |
| `P3tAddress.GetThenNew` | libraries/p3t1755/src/address.rs:10-93 | `new(a.get()) == Some(a)` for every variant |
| `P3tAddress.GetInjective` | libraries/p3t1755/src/address.rs:10-75 | the 32 variants have distinct discriminants |
| `P3tAddress.AddressVectors` | libraries/p3t1755/tests/integration_test.rs:390-412 | Addr1, Addr9, Addr16 and Addr32 are 0x40, 0x48, 0x4F and 0x5F |
| `P3tAlert.Alert.Address` | libraries/p3t1755/src/alert.rs:36-40 | the address of an alert is its byte shifted right by one |
| `P3tAlert.Alert.Condition` | libraries/p3t1755/src/alert.rs:43-51 | over temperature exactly when bit 0 is set, under temperature exactly when it is clear |
| `P3tAlert.FromByte` | libraries/p3t1755/src/alert.rs:24-33 | `Some` exactly for the bytes 0x80..0xBF, whose upper seven bits form a valid address |
| `P3tAlert.Respond` | libraries/p3t1755/src/alert.rs:68-82 | no acknowledge of the address is `Ok(None)`; other errors pass through unchanged; a byte read gives `Ok(from_byte(byte))` |
| `P3tAlert.Process` | libraries/p3t1755/src/alert.rs:68-82 | one transfer, a one-byte read from 0x0C, is logged, and the answer is handled as `Respond` says |
| `P3tAlert.RespondReportsAlert` | libraries/p3t1755/src/alert.rs:68-82 | an alert is reported exactly when the bus answers with a byte in 0x80..0xBF; its address is that byte shifted right by one |
| `P3tAlert.AlertByteLayout` | libraries/p3t1755/src/alert.rs:36-51 | an alert's byte is its address shifted left by one, with the condition in bit 0 |
| `P3tAlert.AlertVectors` | libraries/p3t1755/tests/integration_test.rs:507-575 | Addr9 over temperature (0x91), Addr1 under temperature (0x80), no acknowledge and a 0x00 byte (no alert) |
| `P3tDriver.ReadOps` | libraries/p3t1755/src/lib.rs:83-88 | the read comes last; it is alone exactly when the latch holds the register, and otherwise follows a write of the pointer byte |
| `P3tDriver.WriteOps` | libraries/p3t1755/src/lib.rs:95-98 | the pointer byte, then the data, whatever the latch holds |
| `P3tDriver.LatchAfter` | libraries/p3t1755/src/lib.rs:89-90 | the latch holds the register after a success; as written, a failure keeps the old latch |
| `P3tDriver.PointerAfter` | libraries/p3t1755/src/lib.rs:84-87 | after a success, or a failure after at least one operation completed, the sensor's pointer is the byte the transfer wrote, if any; a transfer that failed before completing any operation changes nothing |
| `P3tDriver.ReadTargetsRegister` | libraries/p3t1755/src/lib.rs:83-88 | while the latch agrees with the sensor's pointer, the read of every register reads that register |
| `P3tDriver.SuccessKeepsSync` | libraries/p3t1755/src/lib.rs:89-99 | a successful read or write keeps the latch in agreement with the sensor |
| `P3tDriver.CorrectedKeepsSync` | libraries/p3t1755/src/lib.rs:89-99 | forgetting the latch on failure keeps it in agreement whatever the bus answers |
| `P3tDriver.CorrectedRunSynced` | libraries/p3t1755/src/lib.rs:82-101 | the corrected driver's latch agrees with the sensor over any sequence of reads, writes and bus answers |
| `P3tDriver.ReliableRunSynced` | libraries/p3t1755/src/lib.rs:82-101 | on a bus that never fails, the driver as written keeps the latch in agreement over any sequence |
| `P3tDriver.StaleLatchAfterFailedRead` | libraries/p3t1755/src/lib.rs:89 | as written, a failed configuration read leaves the latch on the temperature register while the sensor points at the configuration, and the next temperature read gets the configuration register |
| `P3tDriver.StaleLatchAfterFailedWrite` | libraries/p3t1755/src/lib.rs:95-98 | the same after a configuration write whose data byte is not acknowledged |
| `P3tDriver.P3t1755.constructor` | libraries/p3t1755/src/lib.rs:26-32 | a new driver keeps the bus and address and has no latched register |
| `P3tDriver.P3t1755.ReadRegister` | libraries/p3t1755/src/lib.rs:82-92 | one transfer to the sensor's address with the latch-dependent operations is logged; the bytes read are returned; the latch moves only on success |
| `P3tDriver.P3t1755.WriteRegister` | libraries/p3t1755/src/lib.rs:94-101 | one transfer of the pointer and the data is logged; the latch moves only on success; a bus error is returned |
| `P3tDriver.P3t1755.ReadTemperature` | libraries/p3t1755/src/lib.rs:76-80 | two bytes of register 0x00, decoded by `from_regs` |
| `P3tDriver.P3t1755.ReadConfig` | libraries/p3t1755/src/lib.rs:40-44 | one byte of register 0x01, decoded by `from_reg` |
| `P3tDriver.P3t1755.WriteConfig` | libraries/p3t1755/src/lib.rs:47-49 | register 0x01 written with the configuration byte |
| `P3tDriver.P3t1755.ReadTLow` | libraries/p3t1755/src/lib.rs:52-56 | two bytes of register 0x02, decoded by `from_regs` |
| `P3tDriver.P3t1755.WriteTLow` | libraries/p3t1755/src/lib.rs:59-61 | register 0x02 written with `to_regs` of the threshold |
| `P3tDriver.P3t1755.ReadTHigh` | libraries/p3t1755/src/lib.rs:64-68 | two bytes of register 0x03, decoded by `from_regs` |
| `P3tDriver.P3t1755.WriteTHigh` | libraries/p3t1755/src/lib.rs:71-73 | register 0x03 written with `to_regs` of the threshold |
| `P3tDriver.ReadTemperatureTwice` | libraries/p3t1755/tests/integration_test.rs:357-387 | the second temperature read sends no pointer write |
| `P3tDriver.ReadSequence` | libraries/p3t1755/tests/integration_test.rs:470-504 | reading temperature, configuration and T_LOW writes the pointer before each read |
| `P3tDriver.WriteThenRead` | libraries/p3t1755/src/lib.rs:94-101 | a register write latches the pointer, so reading that register back sends a lone read |
| `TcaAddress.Address.Get` | libraries/tca9535/src/address.rs:49-51 | every discriminant lies in 0x20..0x27 |
| `TcaAddress.New` | libraries/tca9535/src/address.rs:36-46 | `Some` exactly for 0x20 <= v < 0x28 |
| `TcaAddress.VariantsInOrder` | libraries/tca9535/src/address.rs:11-28 | the variants' discriminants run from 0x20 upward without gaps |
| `TcaAddress.NewThenGet` | libraries/tca9535/src/address.rs:36-51 | for a valid `v`, `new(v).get() == v` |
| `TcaAddress.GetThenNew` | libraries/tca9535/src/address.rs:11-51 | `new(a.get()) == Some(a)` for each of the 8 variants |
| `TcaAddress.GetInjective` | libraries/tca9535/src/address.rs:11-28 | the 8 variants have distinct discriminants |
| `TcaAddress.RejectedValues` | libraries/tca9535/tests/integration_test.rs:17-24 | 0x00, 0x1F, 0x28 and 0xFF are rejected; 0x20 and 0x27 are the first and last variant |

## Left out

- **The I2C bus implementation.** The bus is foreign code (`embedded_hal`).
  - `I2c.Controller` logs each transfer.
  - The bus's answer is a parameter.
  - A bus error is identified with its `ErrorKind`.
  - Timing, clock stretching and multi-device contention are not modelled.
- **The sensor's register contents.** Only the P3T1755's pointer register is
  modelled, as far as the driver's latch depends on it. What a read returns
  is the bus's answer, not the contents of the register that was read.
- `P3t1755::into_inner` is not a separate member: the controller is the
  driver's `i2c` field, and nothing else happens.
- **`read_register`'s buffer.** The buffer that `read_register` fills is
  returned as a value instead of being written through a `&mut [u8]`.
- **The COBS slices.** The encoder's borrowed input slice and the decoder's
  `MaybeUninit` output buffer are a sequence value and a byte array. The
  lifetimes and the uninitialised memory are not modelled.
  `Decoder::new_uninit` and `new_init` are one constructor, since they start
  identically.
- **Panics become `None`.** In the `cobs.rs` test helpers, a panic is a
  `None` result. This covers a failed `expect` or `assert!` and an
  out-of-bounds index. Rust's `#[track_caller]` reporting is not modelled.
- **`libraries/ads131m08/src/lib.rs` is not part of this model.** The driver
  there is unfinished.
- **`libraries/ads131m08/src/error.rs` is not part of this model.** Only the
  `CrcMismatch` kind is used.
- **`libraries/tca9535/src/lib.rs` and `pin.rs` are not part of this model.**
  The first only packs bytes around foreign I2C calls. The second is
  unfinished stubs.
- **Derived traits.** The `#[default]` variants, `Clone`/`Copy` and the
  `raw()` accessor are not separate members. `ResetDecodes` states the
  defaults.

## Findings

| source | as written | input that shows it | evidently intended | confidence | as-written member | corrected member |
|---|---|---|---|---|---|---|
| libraries/cellagent-protocol/src/cobs/decode.rs:31 | `FeedResult::Empty` is answered with `Ok(Some(0))` even when it comes from the middle of a frame: a code byte after a full 254-byte block (`PartialBlock(0)`, lines 137-141). `Decoder::feed` answers `Ok(Some(0))` there, as for a frame of length 0, and the `assert!` of `decode_full_slice` at `cobs.rs:16` panics | 255 bytes of 0x01, encoded as 0xFF, 254 × 0x01, 0x02, 0x01, 0x00 | inside a frame, `Empty` means "no byte to output yet" and should answer `Ok(None)`; only the `Empty` of a zero byte while idle ends a frame | not executed | `CobsRoundTrip.OnesCounterexample` | `CobsRoundTrip.CorrectedRoundTrip` |
| libraries/p3t1755/src/lib.rs:89 | a failed transfer returns early and keeps the old `latched_reg`, although the pointer byte it wrote may already have been acknowledged by the sensor. The same happens in `write_register` (lines 95-98) | latch on the temperature register; `read_config` whose pointer write completes and whose read then fails (bus error); the following `read_temperature` sends a lone read and gets the configuration register | after any failed transfer the latch should be cleared, so that the next read re-writes the pointer | not executed | `P3tDriver.StaleLatchAfterFailedRead` | `P3tDriver.CorrectedRunSynced` |
