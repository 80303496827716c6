/**
 * ADS131M08 SPI frames of libraries/ads131m08/src/frame.rs.
 *
 * A frame is a sequence of word slots of `BYTES_PER_WORD` bytes each; a
 * 16-bit word sits big-endian in the first two bytes of its slot and the rest
 * of the slot is zero.  With input CRC enabled, a command frame ends with a
 * slot holding the CRC-16/CCITT-FALSE of the preceding bytes.
 *
 * `BYTES_PER_WORD`, `CHANNELS` and `ENABLE_INPUT_CRC` are crate-level
 * constants defined outside frame.rs; here they are the fields of `Settings`.
 */
module AdsFrame {
  import opened Common
  import AdsCommand

  /** The crate constants frame.rs builds on. */
  datatype Settings = Settings(bytesPerWord: nat, inputCrc: bool, channels: nat)
  {
    /** BYTES_PER_WORD is 2, 3 or 4 (the debug assertion of write_word_const). */
    predicate Valid() {
      2 <= bytesPerWord <= 4
    }

    /** `ENABLE_INPUT_CRC as usize`: the number of CRC words a command frame carries. */
    function CrcWords(): nat {
      if inputCrc then 1 else 0
    }
  }

  datatype CommunicationErrorKind = CrcMismatch

  // ---------------------------------------------------------------------
  // CRC-16/CCITT-FALSE

  /** POLY */
  const Poly: u16 := 0x1021
  /** Initial register value. */
  const CrcInit: u16 := 0xFFFF

  /** One round of the bit loop: shift left, and XOR with the polynomial if the top bit was set. */
  function CrcRound(crc: u16): u16 {
    if crc & 0x8000 != 0 then (crc << 1) ^ Poly else crc << 1
  }

  /** `k` rounds of the bit loop. */
  function CrcRounds(crc: u16, k: nat): u16
    decreases k
  {
    if k == 0 then crc else CrcRounds(CrcRound(crc), k - 1)
  }

  /** One iteration of the byte loop: XOR the byte into the high half, then eight rounds. */
  function CrcByte(crc: u16, b: byte): u16 {
    CrcRounds(crc ^ ((b as u16) << 8), 8)
  }

  /** The byte loop from register value `crc`: a left fold of `CrcByte` over `data`. */
  function CrcFrom(crc: u16, data: seq<byte>): u16
    decreases |data|
  {
    if data == [] then crc else CrcFrom(CrcByte(crc, data[0]), data[1..])
  }

  /** The CRC of `data`, with no final XOR. */
  function Crc(data: seq<byte>): u16 {
    CrcFrom(CrcInit, data)
  }

  /** crc16_ccitt_const */
  method Crc16Ccitt(data: seq<byte>) returns (crc: u16)
    ensures crc == Crc(data)
  {
    crc := CrcInit;
    var byteIdx := 0;
    while byteIdx < |data|
      invariant 0 <= byteIdx <= |data|
      invariant CrcFrom(crc, data[byteIdx..]) == Crc(data)
    {
      ghost var next := CrcByte(crc, data[byteIdx]);
      assert CrcFrom(crc, data[byteIdx..]) == CrcFrom(next, data[byteIdx + 1..]) by {
        assert data[byteIdx..][1..] == data[byteIdx + 1..];
      }
      crc := crc ^ ((data[byteIdx] as u16) << 8);
      var bitIdx := 0;
      while bitIdx < 8
        invariant 0 <= bitIdx <= 8
        invariant CrcRounds(crc, 8 - bitIdx) == next
      {
        if crc & 0x8000 != 0 {
          crc := (crc << 1) ^ Poly;
        } else {
          crc := crc << 1;
        }
        bitIdx := bitIdx + 1;
      }
      byteIdx := byteIdx + 1;
    }
  }

  /** The CRC of a concatenation continues the CRC of its first part over the second. */
  lemma {:induction false} CrcFromAppend(crc: u16, a: seq<byte>, b: seq<byte>)
    ensures CrcFrom(crc, a + b) == CrcFrom(CrcFrom(crc, a), b)
    decreases |a|
  {
    if a != [] {
      assert (a + b)[1..] == a[1..] + b;
      CrcFromAppend(CrcByte(crc, a[0]), a[1..], b);
    } else {
      assert a + b == b;
    }
  }

  /** The CRC of the ASCII digits "123456789" is 0x29B1, the catalogue check value of CRC-16/CCITT-FALSE. */
  lemma CrcCheckValue()
    ensures Crc([0x31, 0x32, 0x33, 0x34, 0x35, 0x36, 0x37, 0x38, 0x39]) == 0x29B1
  {
    assert CrcByte(0xFFFF, 0x31) == 0xC782;
    assert CrcByte(0xC782, 0x32) == 0x3DBA;
    assert CrcByte(0x3DBA, 0x33) == 0x5BCE;
    assert CrcByte(0x5BCE, 0x34) == 0x5349;
    assert CrcByte(0x5349, 0x35) == 0x4560;
    assert CrcByte(0x4560, 0x36) == 0x2EF4;
    assert CrcByte(0x2EF4, 0x37) == 0x7718;
    assert CrcByte(0x7718, 0x38) == 0xA12B;
    assert CrcByte(0xA12B, 0x39) == 0x29B1;
  }

  /** Eight rounds on a value below 0x100 never reach the top bit: they shift it into the high byte. */
  lemma LowByteRounds(x: u16)
    requires x < 0x100
    ensures CrcRounds(x, 8) == x << 8
  {
  }

  /** A zero register stays zero. */
  lemma {:induction false} ZeroRounds(k: nat)
    ensures CrcRounds(0, k) == 0
    decreases k
  {
    if k > 0 {
      ZeroRounds(k - 1);
    }
  }

  /** Feeding a register its own value, high byte first, leaves zero. */
  lemma CrcResidue(crc: u16)
    ensures CrcFrom(crc, [Hi(crc), Lo(crc)]) == 0
  {
    CrcOfTwo(crc, Hi(crc), Lo(crc));
    ResidueBytes(crc);
  }

  lemma ResidueBytes(crc: u16)
    ensures CrcByte(CrcByte(crc, Hi(crc)), Lo(crc)) == 0
  {
    var lo := Lo(crc) as u16;
    var x := crc ^ ((Hi(crc) as u16) << 8);
    assert x == lo;
    LowByteRounds(x);
    var y := CrcByte(crc, Hi(crc));
    assert y == lo << 8;
    assert y ^ (lo << 8) == 0;
    ZeroRounds(8);
  }

  /** The fold over two bytes. */
  lemma CrcOfTwo(crc: u16, a: byte, b: byte)
    ensures CrcFrom(crc, [a, b]) == CrcByte(CrcByte(crc, a), b)
  {
    var c := CrcByte(crc, a);
    assert [a, b][1..] == [b];
    assert CrcFrom(crc, [a, b]) == CrcFrom(c, [b]);
    assert [b][1..] == [];
    assert CrcFrom(c, [b]) == CrcFrom(CrcByte(c, b), []);
  }

  /** Zero bytes keep a zero register at zero. */
  lemma {:induction false} CrcOfZeros(n: nat)
    ensures CrcFrom(0, Zeros(n)) == 0
    decreases n
  {
    if n > 0 {
      ZeroRounds(8);
      assert Zeros(n)[1..] == Zeros(n - 1);
      CrcOfZeros(n - 1);
    }
  }

  // ---------------------------------------------------------------------
  // Word slots

  /** The high byte of `w` (`to_be_bytes()[0]`). */
  function Hi(w: u16): byte {
    (w >> 8) as byte
  }

  /** The low byte of `w` (`to_be_bytes()[1]`). */
  function Lo(w: u16): byte {
    (w & 0xFF) as byte
  }

  /** u16::from_be_bytes */
  function FromBe(hi: byte, lo: byte): u16 {
    ((hi as u16) << 8) | (lo as u16)
  }

  /** Reading back the two bytes of a word gives the word. */
  lemma FromBeOfBytes(w: u16)
    ensures FromBe(Hi(w), Lo(w)) == w
  {
  }

  /** The slot contents for `word`: its big-endian bytes, then zero padding. */
  function Slot(word: u16, width: nat): (r: seq<byte>)
    requires 2 <= width
    ensures |r| == width
  {
    [Hi(word), Lo(word)] + Zeros(width - 2)
  }

  /** The slots of `words`, one after the other. */
  function Slots(words: seq<u16>, width: nat): (r: seq<byte>)
    requires 2 <= width
    ensures |r| == |words| * width
  {
    if words == [] then []
    else Slots(words[..|words| - 1], width) + Slot(words[|words| - 1], width)
  }

  /** Slot `k` of `Slots(words, width)` holds word `k`. */
  lemma {:induction false} SlotsIndex(words: seq<u16>, width: nat, k: nat)
    requires 2 <= width && k < |words|
    ensures k * width + width <= |Slots(words, width)|
    ensures Slots(words, width)[k * width..k * width + width] == Slot(words[k], width)
  {
    var init := words[..|words| - 1];
    var a := Slots(init, width);
    var b := Slot(words[|words| - 1], width);
    assert Slots(words, width) == a + b;
    if k == |words| - 1 {
      assert |a| == k * width;
      assert (a + b)[|a|..|a| + width] == b;
    } else {
      SlotsIndex(init, width, k);
      assert init[k] == words[k];
      assert (a + b)[k * width..k * width + width] == a[k * width..k * width + width];
    }
  }

  /** Every word can be read back, big-endian, from the first two bytes of its slot. */
  lemma WordInSlot(words: seq<u16>, width: nat, k: nat)
    requires 2 <= width && k < |words|
    ensures k * width + 1 < |Slots(words, width)|
    ensures FromBe(Slots(words, width)[k * width], Slots(words, width)[k * width + 1]) == words[k]
  {
    SlotsIndex(words, width, k);
    var slot := Slots(words, width)[k * width..k * width + width];
    assert slot[0] == Hi(words[k]) && slot[1] == Lo(words[k]);
    FromBeOfBytes(words[k]);
  }

  /** `s` with `t` written over it from position `at`. */
  function Put(s: seq<byte>, at: nat, t: seq<byte>): (r: seq<byte>)
    requires at + |t| <= |s|
    ensures |r| == |s|
  {
    s[..at] + t + s[at + |t|..]
  }

  /** write_word_const: writes `word` into slot `wordIdx` of `buf` and changes nothing else. */
  method WriteWord(s: Settings, buf: array<byte>, wordIdx: nat, word: u16)
    requires s.Valid()
    requires buf.Length >= (wordIdx + 1) * s.bytesPerWord
    modifies buf
    ensures wordIdx * s.bytesPerWord + s.bytesPerWord <= buf.Length
    ensures buf[..] == Put(old(buf[..]), wordIdx * s.bytesPerWord, Slot(word, s.bytesPerWord))
  {
    var offset := wordIdx * s.bytesPerWord;
    assert offset + s.bytesPerWord == (wordIdx + 1) * s.bytesPerWord;
    buf[offset] := Hi(word);
    buf[offset + 1] := Lo(word);
    if s.bytesPerWord > 2 {
      buf[offset + 2] := 0;
    }
    if s.bytesPerWord > 3 {
      buf[offset + 3] := 0;
    }
    assert buf[..] == Put(old(buf[..]), offset, Slot(word, s.bytesPerWord)) by {
      var expected := Put(old(buf[..]), offset, Slot(word, s.bytesPerWord));
      forall i | 0 <= i < buf.Length
        ensures buf[i] == expected[i]
      {
        if i < offset {
          assert expected[i] == old(buf[i]);
        } else if i < offset + s.bytesPerWord {
          assert expected[i] == Slot(word, s.bytesPerWord)[i - offset];
        } else {
          assert expected[i] == old(buf[i]);
        }
      }
    }
  }

  // ---------------------------------------------------------------------
  // Command frames

  /** The bytes write_command_const leaves: the word slots, then the CRC slot when input CRC is on. */
  function CommandFrame(s: Settings, words: seq<u16>): (r: seq<byte>)
    requires s.Valid()
    ensures |r| == (|words| + s.CrcWords()) * s.bytesPerWord
  {
    var data := Slots(words, s.bytesPerWord);
    data + (if s.inputCrc then Slot(Crc(data), s.bytesPerWord) else [])
  }

  /** The first part of a write keeps its place when the next slot is written after it. */
  lemma PutAfter(old_: seq<byte>, prefix: seq<byte>, at: nat, t: seq<byte>)
    requires at + |t| <= |old_| && |prefix| == at && old_[..at] == prefix
    ensures Put(old_, at, t)[..at + |t|] == prefix + t
  {
  }

  /** write_command_const: fills `buf`, whose length the source asserts, with the command frame of `words`. */
  method WriteCommand(s: Settings, buf: array<byte>, words: seq<u16>)
    requires s.Valid()
    requires buf.Length == (|words| + s.CrcWords()) * s.bytesPerWord
    modifies buf
    ensures buf[..] == CommandFrame(s, words)
  {
    var w := s.bytesPerWord;
    var wordIdx := 0;
    while wordIdx < |words|
      invariant 0 <= wordIdx <= |words|
      invariant wordIdx * w <= buf.Length
      invariant buf[..wordIdx * w] == Slots(words[..wordIdx], w)
    {
      ghost var before := buf[..];
      assert (wordIdx + 1) * w <= buf.Length by {
        assert (wordIdx + 1) * w <= |words| * w;
      }
      WriteWord(s, buf, wordIdx, words[wordIdx]);
      PutAfter(before, Slots(words[..wordIdx], w), wordIdx * w, Slot(words[wordIdx], w));
      assert words[..wordIdx + 1][..wordIdx] == words[..wordIdx];
      assert (wordIdx + 1) * w == wordIdx * w + w;
      wordIdx := wordIdx + 1;
    }
    assert words[..|words|] == words;
    var dataLen := |words| * w;
    if s.inputCrc {
      ghost var data := buf[..dataLen];
      var crc := Crc16Ccitt(buf[..dataLen]);
      ghost var before := buf[..];
      WriteWord(s, buf, |words|, crc);
      PutAfter(before, data, dataLen, Slot(crc, w));
      assert buf[..] == buf[..dataLen + w];
    } else {
      assert buf[..] == buf[..dataLen];
    }
  }

  /** build_short: a command, then its CRC slot when input CRC is on. */
  method BuildShort(s: Settings, command: u16) returns (frame: seq<byte>)
    requires s.Valid()
    ensures frame == CommandFrame(s, [command])
  {
    var buf := new byte[(1 + s.CrcWords()) * s.bytesPerWord](_ => 0);
    WriteCommand(s, buf, [command]);
    frame := buf[..];
  }

  /** build_write_one: a WREG command for one register at `addr`, the value, and the CRC slot. */
  method BuildWriteOne(s: Settings, addr: byte, value: u16) returns (frame: seq<byte>)
    requires s.Valid() && addr < 0x80
    ensures frame == CommandFrame(s, [AdsCommand.Wreg(addr, 1), value])
  {
    var buf := new byte[(2 + s.CrcWords()) * s.bytesPerWord](_ => 0);
    WriteCommand(s, buf, [AdsCommand.Wreg(addr, 1), value]);
    frame := buf[..];
  }

  /** NORMAL_WORDS: command or response, one word per channel, and the output CRC. */
  function NormalWords(s: Settings): nat {
    1 + s.channels + 1
  }

  /**
   * build_normal: passes one word to write_command_const in a buffer of
   * NORMAL_WORDS slots; the length that write_command_const asserts is its
   * precondition.
   */
  method BuildNormal(s: Settings, command: u16) returns (frame: seq<byte>)
    requires s.Valid()
    requires NormalWords(s) * s.bytesPerWord == (1 + s.CrcWords()) * s.bytesPerWord
    ensures frame == CommandFrame(s, [command])
  {
    var buf := new byte[NormalWords(s) * s.bytesPerWord](_ => 0);
    WriteCommand(s, buf, [command]);
    frame := buf[..];
  }

  /** build_normal meets write_command_const's length assertion only with input CRC on and no channels. */
  lemma BuildNormalLength(s: Settings)
    requires s.Valid()
    ensures NormalWords(s) * s.bytesPerWord == (1 + s.CrcWords()) * s.bytesPerWord
      <==> s.inputCrc && s.channels == 0
  {
    var w := s.bytesPerWord;
    if NormalWords(s) * w == (1 + s.CrcWords()) * w {
      assert (NormalWords(s) - (1 + s.CrcWords())) * w == 0;
    }
  }

  // ---------------------------------------------------------------------
  // Received frames

  /** get_verified_data: the data before the last slot, if the CRC in that slot's first two bytes matches it. */
  function GetVerifiedData(s: Settings, buf: seq<byte>): (r: Result<seq<byte>, CommunicationErrorKind>)
    requires s.Valid() && |buf| >= s.bytesPerWord
    ensures var n := |buf| - s.bytesPerWord;
      r.Ok? <==> FromBe(buf[n], buf[n + 1]) == Crc(buf[..n])
    ensures r.Ok? ==> r.value == buf[..|buf| - s.bytesPerWord]
    ensures r.Err? ==> r.error == CrcMismatch
  {
    var data := buf[..|buf| - s.bytesPerWord];
    var crcWord := buf[|buf| - s.bytesPerWord..];
    var received := FromBe(crcWord[0], crcWord[1]);
    if received == Crc(data) then Ok(data) else Err(CrcMismatch)
  }

  /** Verification accepts exactly the buffers whose last slot starts with the CRC of what precedes it. */
  lemma GetVerifiedDataSpec(s: Settings, data: seq<byte>, slot: seq<byte>)
    requires s.Valid() && |slot| == s.bytesPerWord
    ensures GetVerifiedData(s, data + slot) ==
      if FromBe(slot[0], slot[1]) == Crc(data) then Ok(data) else Err(CrcMismatch)
  {
    var buf := data + slot;
    assert buf[..|buf| - s.bytesPerWord] == data;
    assert buf[|buf| - s.bytesPerWord..] == slot;
  }

  /** Round trip: with input CRC on, every command frame passes verification and yields its word slots. */
  lemma VerifiedCommandFrame(s: Settings, words: seq<u16>)
    requires s.Valid() && s.inputCrc
    ensures GetVerifiedData(s, CommandFrame(s, words)) == Ok(Slots(words, s.bytesPerWord))
  {
    var data := Slots(words, s.bytesPerWord);
    var slot := Slot(Crc(data), s.bytesPerWord);
    GetVerifiedDataSpec(s, data, slot);
    FromBeOfBytes(Crc(data));
  }

  /** With input CRC on, the CRC over a whole command frame, CRC slot and padding included, is zero. */
  lemma CommandFrameResidue(s: Settings, words: seq<u16>)
    requires s.Valid() && s.inputCrc
    ensures Crc(CommandFrame(s, words)) == 0
  {
    var data := Slots(words, s.bytesPerWord);
    var c := Crc(data);
    var be := [Hi(c), Lo(c)];
    var pad := Zeros(s.bytesPerWord - 2);
    assert CommandFrame(s, words) == (data + be) + pad;
    CrcFromAppend(CrcInit, data + be, pad);
    CrcFromAppend(CrcInit, data, be);
    CrcResidue(c);
    CrcOfZeros(s.bytesPerWord - 2);
  }

  /** Only the first two bytes of the CRC slot matter: its padding is ignored. */
  lemma PaddingIgnored(s: Settings, data: seq<byte>, slot: seq<byte>, slot': seq<byte>)
    requires s.Valid() && |slot| == |slot'| == s.bytesPerWord
    requires slot[..2] == slot'[..2]
    ensures GetVerifiedData(s, data + slot) == GetVerifiedData(s, data + slot')
  {
    GetVerifiedDataSpec(s, data, slot);
    GetVerifiedDataSpec(s, data, slot');
    assert slot[0] == slot'[0] && slot[1] == slot'[1] by {
      assert slot[..2][0] == slot'[..2][0] && slot[..2][1] == slot'[..2][1];
    }
  }
}
