/**
 * The decoder of libraries/cellagent-protocol/src/cobs/decode.rs run on the
 * output of the encoder of encode.rs.
 *
 * `DecodeEncoded` is the round trip: fed the encoding of `p`, the decoder
 * ends the frame with exactly `p` as its data.  As written, `Decoder::feed`
 * also answers `Ok(Some(0))` at the code byte that follows a 254-byte block,
 * so a caller that takes `Some` for the end of a frame (as the test helper
 * `decode_full_slice` does) fails exactly on the payloads `FullBlockThenMore`
 * describes; the corrected variant has no such payloads.
 */
module CobsRoundTrip {
  import opened Common
  import E = CobsEncode
  import opened CobsDecode

  /** Whether the block structure of `p` has a full 254-byte block followed by another block. */
  predicate FullBlockThenMore(p: seq<byte>)
    decreases |p|
  {
    var b := E.SplitFirstBlock(p);
    E.HasNext(b) && (|b.data| == E.MaxDataPerBlock || (E.NextBlockShorter(p); FullBlockThenMore(b.rest)))
  }

  /** The state the decoder enters on reading code byte `c`. */
  function AfterCode(c: byte): (s: DecoderState)
    requires c != 0
    ensures (s.Block? || s.PartialBlock?) && s.remaining as int == c as int - 1
    ensures s.PartialBlock? <==> c == 0xFF
  {
    if c == 0xFF then PartialBlock(0xFE) else Block(c - 1)
  }

  /**
   * The decoded data once the next code byte is read in state `s` with data
   * `o`: a new frame starts empty, and after a block shorter than 254 bytes a
   * zero is restored.
   */
  function Carried(s: DecoderState, o: seq<byte>): seq<byte> {
    if s.Idle? then [] else if s == Block(0) then o + [0] else o
  }

  /** Feeding `a + c` is feeding `a`, then `c`. */
  lemma {:induction false} QuietAppend(variant: Variant, v: View, cap: nat, a: seq<byte>, c: seq<byte>)
    ensures Quiet(variant, v, cap, a + c) ==
      if Quiet(variant, v, cap, a).None? then None else Quiet(variant, Quiet(variant, v, cap, a).value, cap, c)
    decreases |a|
  {
    if a != [] {
      assert (a + c)[0] == a[0];
      assert (a + c)[1..] == a[1..] + c;
      var (r, w) := Step(variant, v, cap, a[0]);
      if r == Ok(None) {
        QuietAppend(variant, w, cap, a[1..], c);
      }
    } else {
      assert a + c == c;
    }
  }

  /** One data byte inside a block: appended, and the block's count goes down by one. */
  lemma StepData(variant: Variant, s: DecoderState, o: seq<byte>, cap: nat, x: byte)
    requires (s.Block? || s.PartialBlock?) && s.remaining != 0
    requires x != 0 && |o| < cap
    ensures Step(variant, View(s, o), cap, x) == (Ok(None), View(Counted(s), o + [x]))
  {
  }

  /** A block state with its count decremented. */
  function Counted(s: DecoderState): (t: DecoderState)
    requires (s.Block? || s.PartialBlock?) && s.remaining != 0
    ensures t.Block? == s.Block? && t.PartialBlock? == s.PartialBlock?
    ensures t.remaining as int == s.remaining as int - 1
  {
    if s.Block? then Block(s.remaining - 1) else PartialBlock(s.remaining - 1)
  }

  /** Feeding a nonempty sequence whose first byte answers `Ok(None)`. */
  lemma QuietCons(variant: Variant, v: View, cap: nat, bytes: seq<byte>)
    requires bytes != [] && Step(variant, v, cap, bytes[0]).0 == Ok(None)
    ensures Quiet(variant, v, cap, bytes) == Quiet(variant, Step(variant, v, cap, bytes[0]).1, cap, bytes[1..])
  {
  }

  /** The data bytes of a block are appended one by one and use up its count. */
  lemma {:induction false} DataRun(variant: Variant, s: DecoderState, o: seq<byte>, d: seq<byte>, cap: nat)
    requires s.Block? || s.PartialBlock?
    requires E.ZeroFree(d) && |d| == s.remaining as int
    requires |o| + |d| <= cap
    ensures Quiet(variant, View(s, o), cap, d) ==
      Some(View(if s.Block? then Block(0) else PartialBlock(0), o + d))
    decreases |d|
  {
    if d != [] {
      DataRunStep(variant, s, o, d, cap);
      DataRun(variant, Counted(s), o + [d[0]], d[1..], cap);
      assert o + [d[0]] + d[1..] == o + d;
    } else {
      DataRunDone(variant, s, o, cap);
      assert o + d == o;
    }
  }

  /** The first data byte of a block, then the rest. */
  lemma DataRunStep(variant: Variant, s: DecoderState, o: seq<byte>, d: seq<byte>, cap: nat)
    requires s.Block? || s.PartialBlock?
    requires E.ZeroFree(d) && |d| == s.remaining as int && d != []
    requires |o| + |d| <= cap
    ensures E.ZeroFree(d[1..]) && |d[1..]| == Counted(s).remaining as int
    ensures Quiet(variant, View(s, o), cap, d) == Quiet(variant, View(Counted(s), o + [d[0]]), cap, d[1..])
  {
    StepData(variant, s, o, cap, d[0]);
    QuietCons(variant, View(s, o), cap, d);
    assert E.ZeroFree(d[1..]) by {
      forall i | 0 <= i < |d[1..]| ensures d[1..][i] != 0 {
        assert d[1..][i] == d[i + 1];
      }
    }
  }

  /** A block whose count has run out needs no more data bytes. */
  lemma DataRunDone(variant: Variant, s: DecoderState, o: seq<byte>, cap: nat)
    requires (s.Block? || s.PartialBlock?) && s.remaining as int == 0
    ensures Quiet(variant, View(s, o), cap, []) ==
      Some(View(if s.Block? then Block(0) else PartialBlock(0), o))
  {
    var x := s.remaining;
    assert x == 0 by {
      assert x as int == 0;
    }
  }

  /** Feeding a single byte. */
  lemma QuietOne(variant: Variant, v: View, cap: nat, x: byte)
    ensures Quiet(variant, v, cap, [x]) ==
      if Step(variant, v, cap, x).0 == Ok(None) then Some(Step(variant, v, cap, x).1) else None
  {
    assert [x][1..] == [];
  }

  /**
   * A code byte read between frames or at a block end: it opens the next
   * block, restoring the elided zero after a short block; as written, after a
   * 254-byte block it answers `Ok(Some(0))`.
   */
  lemma StepCode(variant: Variant, s: DecoderState, o: seq<byte>, cap: nat, c: byte)
    requires s.Idle? || s.AtBlockEnd()
    requires c != 0 && (s == Block(0) ==> |o| < cap)
    ensures Step(variant, View(s, o), cap, c).1 == View(AfterCode(c), Carried(s, o))
    ensures Step(variant, View(s, o), cap, c).0 ==
      if variant == AsWritten && s == PartialBlock(0) then Ok(Some(0)) else Ok(None)
  {
  }

  /** The delimiter read at a block end completes the frame. */
  lemma StepEnd(variant: Variant, s: DecoderState, o: seq<byte>, cap: nat)
    requires s.AtBlockEnd()
    ensures Step(variant, View(s, o), cap, 0) == (Ok(Some(|o|)), View(Idle, o))
  {
  }

  /** The state at the end of the block that code byte `c` opens. */
  function EndOf(c: byte): (s: DecoderState)
    ensures s.AtBlockEnd() && (s.PartialBlock? <==> c == 0xFF)
  {
    if c == 0xFF then PartialBlock(0) else Block(0)
  }

  /** As written, a code byte that follows a 254-byte block stops the frame from feeding quietly. */
  lemma BlocksEarly(q: seq<byte>, o: seq<byte>, cap: nat)
    ensures Quiet(AsWritten, View(PartialBlock(0), o), cap, E.EncodeBlocks(q)) == None
  {
    var b := E.SplitFirstBlock(q);
    var c := E.CodeByte(b);
    E.EncodeBlocksUnfold(q);
    StepCode(AsWritten, PartialBlock(0), o, cap, c);
  }

  /**
   * Feeding the first block of `q` quietly: its code byte and data bytes
   * leave the decoder at the block's end, holding the data.
   */
  lemma BlocksStep(variant: Variant, q: seq<byte>, s: DecoderState, o: seq<byte>, cap: nat)
    requires s.Idle? || s.AtBlockEnd()
    requires !(variant == AsWritten && s == PartialBlock(0))
    requires |Carried(s, o)| + |q| <= cap
    ensures var b := E.SplitFirstBlock(q);
      Quiet(variant, View(s, o), cap, E.EncodeBlocks(q)) ==
      Quiet(variant, View(EndOf(E.CodeByte(b)), Carried(s, o) + b.data), cap, E.Following(b))
  {
    var b := E.SplitFirstBlock(q);
    var c := E.CodeByte(b);
    var f := E.Following(b);
    var v := View(s, o);
    E.EncodeBlocksUnfold(q);
    E.BlockShape(q);
    QuietAppend(variant, v, cap, [c], b.data + f);
    QuietOne(variant, v, cap, c);
    StepCode(variant, s, o, cap, c);
    var st := AfterCode(c);
    var o0 := Carried(s, o);
    QuietAppend(variant, View(st, o0), cap, b.data, f);
    DataRun(variant, st, o0, b.data, cap);
  }

  /** The data decoded after the first block of `q` and the next code byte, in terms of `q`. */
  lemma CarriedNext(q: seq<byte>, s: DecoderState, o: seq<byte>)
    requires E.HasNext(E.SplitFirstBlock(q))
    ensures var b := E.SplitFirstBlock(q);
      Carried(EndOf(E.CodeByte(b)), Carried(s, o) + b.data) + b.rest == Carried(s, o) + q
  {
    var b := E.SplitFirstBlock(q);
    E.BlockShape(q);
    var o0 := Carried(s, o);
    if E.CodeByte(b) == 0xFF {
      assert o0 + b.data + b.rest == o0 + (b.data + b.rest);
    } else {
      assert o0 + b.data + [0] + b.rest == o0 + (b.data + [0] + b.rest);
    }
  }

  /** A last block: nothing follows it, and it holds the rest of the payload. */
  lemma LastBlock(q: seq<byte>, s: DecoderState, o: seq<byte>)
    requires !E.HasNext(E.SplitFirstBlock(q))
    ensures E.Following(E.SplitFirstBlock(q)) == []
    ensures Carried(s, o) + E.SplitFirstBlock(q).data == Carried(s, o) + q
    ensures !FullBlockThenMore(q)
  {
    E.BlockShape(q);
  }

  /** `FullBlockThenMore` in terms of the state the first block ends in. */
  lemma FullBlockThenMoreUnfold(q: seq<byte>)
    requires E.HasNext(E.SplitFirstBlock(q))
    ensures |E.SplitFirstBlock(q).rest| < |q|
    ensures FullBlockThenMore(q) <==>
      EndOf(E.CodeByte(E.SplitFirstBlock(q))) == PartialBlock(0) || FullBlockThenMore(E.SplitFirstBlock(q).rest)
  {
    E.NextBlockShorter(q);
    E.BlockShape(q);
  }

  /**
   * Feeding the blocks of `q`, starting at the end of a block or between
   * frames: the feeds all answer `Ok(None)` unless, as written, a code byte
   * follows a 254-byte block; then the decoder is at a block end holding
   * everything decoded so far followed by `q`.
   */
  lemma {:induction false} Blocks(variant: Variant, q: seq<byte>, s: DecoderState, o: seq<byte>, cap: nat)
    requires s.Idle? || s.AtBlockEnd()
    requires |Carried(s, o)| + |q| <= cap
    ensures var r := Quiet(variant, View(s, o), cap, E.EncodeBlocks(q));
      (r.None? <==> variant == AsWritten && (s == PartialBlock(0) || FullBlockThenMore(q)))
      && (r.Some? ==> r.value.state.AtBlockEnd() && r.value.data == Carried(s, o) + q)
    decreases |q|
  {
    if variant == AsWritten && s == PartialBlock(0) {
      BlocksEarly(q, o, cap);
      return;
    }
    var b := E.SplitFirstBlock(q);
    var s1 := EndOf(E.CodeByte(b));
    var o1 := Carried(s, o) + b.data;
    BlocksStep(variant, q, s, o, cap);
    if E.HasNext(b) {
      CarriedNext(q, s, o);
      FullBlockThenMoreUnfold(q);
      Blocks(variant, b.rest, s1, o1, cap);
    } else {
      LastBlock(q, s, o);
    }
  }

  /** A frame whose block bytes feed quietly up to a block end is completed by its delimiter. */
  lemma FrameOf(variant: Variant, v: View, cap: nat, blocks: seq<byte>)
    requires var r := Quiet(variant, v, cap, blocks); r.Some? ==> r.value.state.AtBlockEnd()
    ensures var r := Quiet(variant, v, cap, blocks);
      DecodeFrame(variant, v, cap, blocks + [0]) == if r.None? then None else Some(r.value.data)
  {
    var bytes := blocks + [0];
    assert bytes[..|bytes| - 1] == blocks;
    assert bytes[|bytes| - 1] == 0;
    var r := Quiet(variant, v, cap, blocks);
    if r.Some? {
      StepEnd(variant, r.value.state, r.value.data, cap);
    }
  }

  /**
   * Round trip: fed the encoding of `p` between frames, the decoder ends the
   * frame with exactly `p` as its data, provided `p` fits in its buffer; as
   * written, the frame is only reported cleanly when `p` has no 254-byte block
   * followed by another block.
   */
  lemma DecodeEncoded(variant: Variant, previous: seq<byte>, cap: nat, p: seq<byte>)
    requires |p| <= cap
    ensures DecodeFrame(variant, View(Idle, previous), cap, E.Encode(p)) ==
      if variant == AsWritten && FullBlockThenMore(p) then None else Some(p)
  {
    var r := Quiet(variant, View(Idle, previous), cap, E.EncodeBlocks(p));
    assert (r.None? <==> variant == AsWritten && FullBlockThenMore(p))
      && (r.Some? ==> r.value.state.AtBlockEnd() && r.value.data == Carried(Idle, previous) + p) by {
      Blocks(variant, p, Idle, previous, cap);
    }
    assert DecodeFrame(variant, View(Idle, previous), cap, E.EncodeBlocks(p) + [0])
      == if r.None? then None else Some(r.value.data) by {
      FrameOf(variant, View(Idle, previous), cap, E.EncodeBlocks(p));
    }
    assert Carried(Idle, previous) + p == p;
  }

  /** The corrected decoder decodes every encoding that fits its buffer. */
  lemma CorrectedRoundTrip(previous: seq<byte>, cap: nat, p: seq<byte>)
    requires |p| <= cap
    ensures DecodeFrame(Corrected, View(Idle, previous), cap, E.Encode(p)) == Some(p)
  {
    DecodeEncoded(Corrected, previous, cap, p);
  }

  /** Payloads shorter than 255 bytes never have a full block followed by another. */
  lemma {:induction false} FullBlockThenMoreIsLong(p: seq<byte>)
    requires FullBlockThenMore(p)
    ensures |p| >= 255
    decreases |p|
  {
    var b := E.SplitFirstBlock(p);
    E.NextBlockShorter(p);
    if |b.data| != E.MaxDataPerBlock {
      FullBlockThenMoreIsLong(b.rest);
    }
  }

  /** 255 bytes of 0x01: a 254-byte block, then a one-byte block. */
  function Ones255(): (p: seq<byte>)
    ensures |p| == 255
  {
    seq(255, _ => 1)
  }

  /** The blocks of `Ones255()`: 254 bytes, then the last byte on its own. */
  lemma OnesBlocks()
    ensures E.SplitFirstBlock(Ones255()) == E.Block(seq(254, _ => 1), false, [1])
    ensures E.SplitFirstBlock([1]) == E.Block([1], false, [])
  {
    var p := Ones255();
    assert E.ZeroFree(p[..E.MaxDataPerBlock]);
    assert p[..E.MaxDataPerBlock] == seq(254, _ => 1);
    assert p[E.MaxDataPerBlock..] == [1];
    assert E.ZeroFree([1 as byte]);
    assert [1 as byte][..1] == [1];
  }

  /** As written, decoding the encoding of `Ones255()` does not end cleanly; corrected, it does. */
  lemma OnesCounterexample()
    ensures E.Encode(Ones255()) == [0xFF] + seq(254, _ => 1) + [0x02, 0x01, 0x00]
    ensures FullBlockThenMore(Ones255())
    ensures DecodeFrame(AsWritten, View(Idle, []), 512, E.Encode(Ones255())) == None
    ensures DecodeFrame(Corrected, View(Idle, []), 512, E.Encode(Ones255())) == Some(Ones255())
  {
    var p := Ones255();
    OnesBlocks();
    assert E.EncodeBlocks([1]) == [0x02, 0x01] by {
      E.EncodeBlocksUnfold([1]);
    }
    assert E.EncodeBlocks(p) == [0xFF] + seq(254, _ => 1) + [0x02, 0x01] by {
      E.EncodeBlocksUnfold(p);
    }
    assert FullBlockThenMore(p);
    assert DecodeFrame(AsWritten, View(Idle, []), 512, E.Encode(p)) == None by {
      DecodeEncoded(AsWritten, [], 512, p);
    }
    assert DecodeFrame(Corrected, View(Idle, []), 512, E.Encode(p)) == Some(p) by {
      DecodeEncoded(Corrected, [], 512, p);
    }
  }
}
