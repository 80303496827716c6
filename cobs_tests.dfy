/**
 * The round-trip test helpers of libraries/cellagent-protocol/src/cobs.rs
 * and the vectors its tests check.
 *
 * `EncodeFullSlice` and `DecodeFullSlice` drive the encoder and decoder
 * objects byte by byte, as the helpers do; a panic of the helper (an index
 * out of bounds, a failed `expect` or `assert!`) is a `None` result.
 * `AssertRoundtrip` passes exactly when `RoundtripHolds`, and
 * `RoundtripOfEncoding` says for which payloads that is so.
 */
module CobsTests {
  import opened Common
  import E = CobsEncode
  import opened CobsDecode
  import opened CobsRoundTrip

  /** The size of the buffer `assert_roundtrip` encodes into and decodes from. */
  const RoundtripBufferSize: nat := 512

  /** encode_full_slice: pulls every byte of the encoder into `dest`; `None` if `dest` is too short. */
  method EncodeFullSlice(encoder: E.Encoder, dest: array<byte>) returns (n: Option<nat>)
    requires encoder.state.Wf()
    modifies encoder, dest
    ensures encoder.state.Wf()
    ensures n.None? <==> |old(encoder.Remaining())| > dest.Length
    ensures n.Some? ==>
      n.value <= dest.Length && encoder.state == E.End && dest[..n.value] == old(encoder.Remaining())
  {
    ghost var total := encoder.Remaining();
    var pos := 0;
    while true
      invariant encoder.state.Wf() && pos <= dest.Length
      invariant dest[..pos] + encoder.Remaining() == total
      decreases encoder.state.Measure()
    {
      ghost var before := encoder.Remaining();
      ghost var written := dest[..pos];
      var next := encoder.Pull();
      if next.None? {
        break;
      }
      ghost var after := encoder.Remaining();
      MoveFirst(written, before, next.value, after, total);
      if pos >= dest.Length {
        return None;
      }
      dest[pos] := next.value;
      assert dest[..pos + 1] == written + [next.value];
      pos := pos + 1;
    }
    n := Some(pos);
  }

  /** Moving the first remaining byte to the written part keeps their concatenation. */
  lemma MoveFirst(written: seq<byte>, before: seq<byte>, b: byte, after: seq<byte>, total: seq<byte>)
    requires written + before == total && before == [b] + after
    ensures (written + [b]) + after == total
  {
    assert (written + [b]) + after == written + ([b] + after);
  }

  /** Quietly feeding a prefix that already fails fails for the whole sequence. */
  lemma QuietPrefixFails(variant: Variant, v: View, cap: nat, bytes: seq<byte>, i: nat)
    requires i < |bytes|
    requires Quiet(variant, v, cap, bytes[..i]).Some?
    requires Step(variant, Quiet(variant, v, cap, bytes[..i]).value, cap, bytes[i]).0 != Ok(None)
    ensures Quiet(variant, v, cap, bytes) == None
  {
    var u := Quiet(variant, v, cap, bytes[..i]).value;
    assert bytes[..i + 1] == bytes[..i] + [bytes[i]];
    QuietAppend(variant, v, cap, bytes[..i], [bytes[i]]);
    QuietOne(variant, u, cap, bytes[i]);
    assert bytes == bytes[..i + 1] + bytes[i + 1..];
    QuietAppend(variant, v, cap, bytes[..i + 1], bytes[i + 1..]);
  }

  /** Quietly feeding one more byte that answers `Ok(None)`. */
  lemma QuietPrefixGrows(variant: Variant, v: View, cap: nat, bytes: seq<byte>, i: nat)
    requires i < |bytes|
    requires Quiet(variant, v, cap, bytes[..i]).Some?
    requires Step(variant, Quiet(variant, v, cap, bytes[..i]).value, cap, bytes[i]).0 == Ok(None)
    ensures Quiet(variant, v, cap, bytes[..i + 1])
      == Some(Step(variant, Quiet(variant, v, cap, bytes[..i]).value, cap, bytes[i]).1)
  {
    var u := Quiet(variant, v, cap, bytes[..i]).value;
    assert bytes[..i + 1] == bytes[..i] + [bytes[i]];
    QuietAppend(variant, v, cap, bytes[..i], [bytes[i]]);
    QuietOne(variant, u, cap, bytes[i]);
  }

  /**
   * decode_full_slice: feeds every byte but the last expecting `Ok(None)`,
   * then the last expecting `Ok(Some(_))`, and returns the decoder's data.
   */
  method DecodeFullSlice(decoder: Decoder, data: seq<byte>) returns (r: Option<seq<byte>>)
    requires decoder.Valid()
    modifies decoder, decoder.buf
    ensures decoder.Valid()
    ensures r == DecodeFrame(AsWritten, old(decoder.Current()), decoder.buf.Length, data)
    ensures r.Some? ==> r.value == decoder.Data()
  {
    if data == [] {
      return None;
    }
    ghost var v0 := decoder.Current();
    var cap := decoder.buf.Length;
    var rest := data[..|data| - 1];
    var last := data[|data| - 1];
    var i := 0;
    while i < |rest|
      invariant decoder.Valid() && i <= |rest|
      invariant Quiet(AsWritten, v0, cap, rest[..i]) == Some(decoder.Current())
    {
      ghost var before := decoder.Current();
      var res := decoder.Feed(rest[i]);
      if res != Ok(None) {
        QuietPrefixFails(AsWritten, v0, cap, rest, i);
        return None;
      }
      QuietPrefixGrows(AsWritten, v0, cap, rest, i);
      i := i + 1;
    }
    assert rest[..i] == rest;
    var res := decoder.Feed(last);
    if !(res.Ok? && res.value.Some?) {
      return None;
    }
    r := Some(decoder.Data());
  }

  /** What `assert_roundtrip(decoded, encoded)` checks. */
  predicate RoundtripHolds(decoded: seq<byte>, encoded: seq<byte>) {
    |E.Encode(decoded)| <= RoundtripBufferSize
    && E.Encode(decoded) == encoded
    && DecodeFrame(AsWritten, View(Idle, []), RoundtripBufferSize, encoded) == Some(decoded)
  }

  /** assert_roundtrip: encodes into a 512-byte buffer, compares, then decodes `encoded` with that buffer. */
  method AssertRoundtrip(decoded: seq<byte>, encoded: seq<byte>) returns (passed: bool)
    ensures passed <==> RoundtripHolds(decoded, encoded)
  {
    var buf := new byte[RoundtripBufferSize](_ => 0);
    var encoder := new E.Encoder(decoded);
    var n := EncodeFullSlice(encoder, buf);
    if n.None? {
      return false;
    }
    if buf[..n.value] != encoded {
      return false;
    }
    var decoder := new Decoder(buf);
    var actual := DecodeFullSlice(decoder, encoded);
    passed := actual == Some(decoded);
  }

  /** The encoding is one byte longer than its payload, plus at most one byte per 254 payload bytes. */
  lemma {:induction false} EncodeBlocksLength(p: seq<byte>)
    ensures |p| + 1 <= |E.EncodeBlocks(p)| <= |p| + 1 + |p| / 254
    decreases |p|
  {
    var b := E.SplitFirstBlock(p);
    E.EncodeBlocksUnfold(p);
    E.BlockShape(p);
    if E.HasNext(b) {
      E.NextBlockShorter(p);
      EncodeBlocksLength(b.rest);
      if b.zero {
        assert |b.rest| == |p| - |b.data| - 1;
      } else {
        assert |b.data| == 254 && |b.rest| == |p| - 254;
        assert (|p| - 254) / 254 + 1 == |p| / 254;
      }
    }
  }

  /**
   * `assert_roundtrip(p, encode(p))` passes exactly when the encoding fits
   * the 512-byte buffer and, as written, `p` has no 254-byte block followed
   * by another block.
   */
  lemma RoundtripOfEncoding(p: seq<byte>)
    ensures RoundtripHolds(p, E.Encode(p)) <==>
      |E.Encode(p)| <= RoundtripBufferSize && !FullBlockThenMore(p)
  {
    EncodeBlocksLength(p);
    if |E.Encode(p)| <= RoundtripBufferSize {
      DecodeEncoded(AsWritten, [], RoundtripBufferSize, p);
    }
  }

  /** Every payload of at most 254 bytes passes `assert_roundtrip` with its encoding. */
  lemma ShortPayloadsRoundtrip(p: seq<byte>)
    requires |p| <= 254
    ensures RoundtripHolds(p, E.Encode(p))
  {
    EncodeBlocksLength(p);
    RoundtripOfEncoding(p);
    if FullBlockThenMore(p) {
      FullBlockThenMoreIsLong(p);
    }
  }

  /** const fn generate_example_data: 255 bytes counting up from `start`, wrapping at 0xFF. */
  method GenerateExampleData(start: byte) returns (buf: array<byte>)
    ensures fresh(buf) && buf[..] == ExampleData(start)
  {
    buf := new byte[255](_ => 0);
    var i := 0;
    while i < buf.Length
      invariant 0 <= i <= buf.Length == 255
      invariant forall j :: 0 <= j < i ==> buf[j] == ExampleData(start)[j]
    {
      buf[i] := ByteOf((start as int + i) % 256);
      i := i + 1;
    }
  }

  /** The example data: byte `i` is `start + i` modulo 256 (`u8::wrapping_add`). */
  function ExampleData(start: byte): (r: seq<byte>)
    ensures |r| == 255
    ensures forall i :: 0 <= i < 255 ==> r[i] as int == (start as int + i) % 256
  {
    var r := seq(255, i => ByteOf((start as int + i) % 256));
    assert forall i :: 0 <= i < 255 ==> r[i] == ByteOf((start as int + i) % 256);
    r
  }

  lemma ByteIsZero(x: byte)
    ensures x == 0 <==> x as int == 0
  {
  }

  /** The one zero of `ExampleData(3)` is at index 253. */
  lemma ExampleDataZero(i: int)
    requires 0 <= i < 255
    ensures ExampleData(3)[i] == 0 <==> i == 253
  {
    ByteIsZero(ExampleData(3)[i]);
  }

  /** A short payload whose block bytes are `blocks` passes `assert_roundtrip` with `blocks` and the delimiter. */
  lemma ShortVector(p: seq<byte>, blocks: seq<byte>)
    requires |p| <= 254 && E.EncodeBlocks(p) == blocks
    ensures RoundtripHolds(p, blocks + [0])
  {
    ShortPayloadsRoundtrip(p);
  }

  /** The encoding of the empty payload's block: a lone code byte. */
  lemma EncodeBlocksEmpty()
    ensures E.EncodeBlocks([]) == [0x01]
  {
    E.SplitShort([]);
    E.EncodeBlocksUnfold([]);
  }

  /** A payload that starts with a zero: an empty block, then the rest. */
  lemma EncodeBlocksLeadingZero(p: seq<byte>)
    requires p != [] && p[0] == 0
    ensures E.EncodeBlocks(p) == [0x01] + E.EncodeBlocks(p[1..])
  {
    E.SplitAtZero(p, 0);
    E.EncodeBlocksUnfold(p);
  }

  /** The block bytes of a lone zero. */
  lemma BlocksOfZero(p: seq<byte>)
    requires |p| == 1 && p[0] == 0
    ensures E.EncodeBlocks(p) == [0x01, 0x01]
  {
    EncodeBlocksEmpty();
    EncodeBlocksLeadingZero(p);
    assert p[1..] == [];
  }

  /** The block bytes of two zeros. */
  lemma BlocksOfZeroZero(p: seq<byte>)
    requires |p| == 2 && p[0] == 0 && p[1] == 0
    ensures E.EncodeBlocks(p) == [0x01, 0x01, 0x01]
  {
    EncodeBlocksLeadingZero(p);
    BlocksOfZero(p[1..]);
  }

  /** The block bytes of `[x, 0x00]` with `x` nonzero. */
  lemma BlocksOfByteZero(q: seq<byte>)
    requires |q| == 2 && q[0] != 0 && q[1] == 0
    ensures E.EncodeBlocks(q) == [0x02, q[0], 0x01]
  {
    assert E.ZeroFree(q[..1]);
    E.SplitAtZero(q, 1);
    assert q[2..] == [];
    EncodeBlocksEmpty();
    E.EncodeBlocksUnfold(q);
    assert E.CodeByte(E.Block(q[..1], true, [])) == 0x02;
  }

  /** The block bytes of `[0x00, x, 0x00]` with `x` nonzero. */
  lemma BlocksOfZeroByteZero(p: seq<byte>)
    requires |p| == 3 && p[0] == 0 && p[1] != 0 && p[2] == 0
    ensures E.EncodeBlocks(p) == [0x01, 0x02, p[1], 0x01]
  {
    assert E.EncodeBlocks(p) == [0x01] + E.EncodeBlocks(p[1..]) by {
      EncodeBlocksLeadingZero(p);
    }
    assert E.EncodeBlocks(p[1..]) == [0x02, p[1], 0x01] by {
      BlocksOfByteZero(p[1..]);
    }
  }

  /** The block bytes of a short zero-free payload: its length plus one, then the payload. */
  lemma BlocksOfZeroFree(p: seq<byte>)
    requires |p| <= E.MaxDataPerBlock && E.ZeroFree(p)
    ensures E.EncodeBlocks(p) == [ByteOf(|p| + 1)] + p
  {
    E.SplitShort(p);
    E.EncodeBlocksUnfold(p);
  }

  /** roundtrip_example_1 */
  lemma Example1()
    ensures RoundtripHolds([0x00], [0x01, 0x01, 0x00])
  {
    BlocksOfZero([0x00]);
    ShortVector([0x00], [0x01, 0x01]);
  }

  /** roundtrip_example_2 */
  lemma Example2()
    ensures RoundtripHolds([0x00, 0x00], [0x01, 0x01, 0x01, 0x00])
  {
    BlocksOfZeroZero([0x00, 0x00]);
    ShortVector([0x00, 0x00], [0x01, 0x01, 0x01]);
  }

  /** roundtrip_example_3 */
  lemma Example3()
    ensures RoundtripHolds([0x00, 0x11, 0x00], [0x01, 0x02, 0x11, 0x01, 0x00])
  {
    BlocksOfZeroByteZero([0x00, 0x11, 0x00]);
    ShortVector([0x00, 0x11, 0x00], [0x01, 0x02, 0x11, 0x01]);
  }

  /** roundtrip_example_5 */
  lemma Example5()
    ensures RoundtripHolds([0x11, 0x22, 0x33, 0x44], [0x05, 0x11, 0x22, 0x33, 0x44, 0x00])
  {
    BlocksOfZeroFree([0x11, 0x22, 0x33, 0x44]);
    assert ByteOf(5) == 0x05;
    ShortVector([0x11, 0x22, 0x33, 0x44], [0x05, 0x11, 0x22, 0x33, 0x44]);
  }

  /** The expected encoding of roundtrip_example_11: 0xFE, the bytes 0x03 to 0xFF, then 0x02 0x01 0x00. */
  function Example11Encoded(): (r: seq<byte>)
    ensures |r| == 257
  {
    [0xFE] + ExampleData(3)[..253] + [0x02, 0x01, 0x00]
  }

  /** The block bytes of 253 nonzero bytes, a zero and one more nonzero byte. */
  lemma BlocksOfLongThenOne(p: seq<byte>)
    requires |p| == 255 && E.ZeroFree(p[..253]) && p[253] == 0 && p[254] != 0
    ensures E.EncodeBlocks(p) == [0xFE] + p[..253] + [0x02, p[254]]
    ensures !FullBlockThenMore(p)
  {
    var tail := p[254..];
    assert tail == [p[254]];
    E.SplitAtZero(p, 253);
    assert E.EncodeBlocks(tail) == [0x02, p[254]] by {
      BlocksOfZeroFree(tail);
      assert ByteOf(2) == 0x02;
    }
    E.SplitShort(tail);
    E.EncodeBlocksUnfold(p);
  }

  /** A payload of that shape passes the round trip against its three-block encoding. */
  lemma LongThenOneRoundtrip(p: seq<byte>)
    requires |p| == 255 && E.ZeroFree(p[..253]) && p[253] == 0 && p[254] != 0
    ensures RoundtripHolds(p, [0xFE] + p[..253] + [0x02, p[254], 0x00])
  {
    BlocksOfLongThenOne(p);
    assert E.Encode(p) == [0xFE] + p[..253] + [0x02, p[254], 0x00];
    RoundtripOfEncoding(p);
  }

  /** roundtrip_example_11 */
  lemma Example11()
    ensures RoundtripHolds(ExampleData(3), Example11Encoded())
  {
    var p := ExampleData(3);
    assert E.ZeroFree(p[..253]) by {
      forall i | 0 <= i < 253 ensures p[..253][i] != 0 {
        ExampleDataZero(i);
      }
    }
    ExampleDataZero(253);
    ExampleDataZero(254);
    assert p[254] == 1;
    LongThenOneRoundtrip(p);
  }
}
