/**
 * COBS (Consistent Overhead Byte Stuffing) encoder of
 * libraries/cellagent-protocol/src/cobs/encode.rs.
 *
 * The encoder is a pull-based state machine: `EncoderState.Pull` is the
 * transition of `EncoderState::pull`, and `Encoder.Pull` stores the new state
 * in the encoder's field, as `*self = state` does.  `Encode` is the reference
 * definition of the whole output, block by block; `Pending` is the part of it a
 * state has still to yield, and `PullPending` proves that each pull yields the
 * first pending byte, so that pulling until `None` yields exactly `Encode`.
 */
module CobsEncode {
  import opened Common

  /** MAX_DATA_PER_BLOCK: at most 254 data bytes follow one code byte. */
  const MaxDataPerBlock: nat := 0xFF - 1

  predicate ZeroFree(s: seq<byte>) {
    forall i :: 0 <= i < |s| ==> s[i] != 0
  }

  function Min(a: nat, b: nat): nat {
    if a <= b then a else b
  }

  /** One block: its data bytes, whether a zero byte was elided after them, and the input after that. */
  datatype Block = Block(data: seq<byte>, zero: bool, rest: seq<byte>)

  /** Index of the first zero byte of `s` (`iter().position(|&b| b == 0)`). */
  function FirstZero(s: seq<byte>): (r: Option<nat>)
    ensures r.Some? ==> r.value < |s| && s[r.value] == 0 && ZeroFree(s[..r.value])
    ensures r.None? <==> ZeroFree(s)
  {
    if s == [] then None
    else if s[0] == 0 then Some(0)
    else match FirstZero(s[1..])
      case None => None
      case Some(k) => assert s[..k + 1] == [s[0]] + s[1..][..k]; Some(k + 1)
  }

  /**
   * split_first_block: the next block is the input up to the first zero among
   * its first 254 bytes (that zero is consumed), or else its first
   * min(len, 254) bytes.
   */
  function SplitFirstBlock(buf: seq<byte>): (b: Block)
    ensures ZeroFree(b.data) && |b.data| <= MaxDataPerBlock
    ensures b.data + (if b.zero then [0] else []) + b.rest == buf
    ensures ZeroFree(buf[..Min(|buf|, MaxDataPerBlock)]) ==> !b.zero
    ensures b.zero ==> |b.data| < Min(|buf|, MaxDataPerBlock) && buf[|b.data|] == 0
    ensures !b.zero ==> b.data == buf[..Min(|buf|, MaxDataPerBlock)]
  {
    var window := buf[..Min(|buf|, MaxDataPerBlock)];
    match FirstZero(window)
    case Some(idx) =>
      assert window[..idx] == buf[..idx];
      assert buf[idx] == window[idx] == 0;
      assert buf[..idx] + [0] + buf[idx + 1..] == buf by {
        assert buf == buf[..idx] + [buf[idx]] + buf[idx + 1..];
      }
      Block(buf[..idx], true, buf[idx + 1..])
    case None =>
      assert window + buf[|window|..] == buf;
      Block(window, false, buf[|window|..])
  }

  /** The code byte announcing block `b`: its length plus one, as `u8`. */
  function CodeByte(b: Block): (c: byte)
    requires |b.data| <= MaxDataPerBlock
    ensures c != 0 && c as int == |b.data| + 1
  {
    ByteOf(|b.data| + 1)
  }

  /** A zero within the first 254 bytes, after zero-free bytes, ends the first block. */
  lemma SplitAtZero(buf: seq<byte>, k: nat)
    requires k < |buf| && k < MaxDataPerBlock
    requires ZeroFree(buf[..k]) && buf[k] == 0
    ensures SplitFirstBlock(buf) == Block(buf[..k], true, buf[k + 1..])
  {
    var b := SplitFirstBlock(buf);
    var window := buf[..Min(|buf|, MaxDataPerBlock)];
    assert window[k] == 0;
    assert b.data == buf[..k];
    assert b.rest == buf[k + 1..];
  }

  /** A zero-free input of at most 254 bytes is a single last block. */
  lemma SplitShort(buf: seq<byte>)
    requires |buf| <= MaxDataPerBlock && ZeroFree(buf)
    ensures SplitFirstBlock(buf) == Block(buf, false, [])
  {
    assert buf[..Min(|buf|, MaxDataPerBlock)] == buf;
  }

  /** Whether another block follows block `b` in the output. */
  predicate HasNext(b: Block) {
    b.zero || b.rest != []
  }

  lemma NextBlockShorter(buf: seq<byte>)
    requires HasNext(SplitFirstBlock(buf))
    ensures |SplitFirstBlock(buf).rest| < |buf|
  {
    var b := SplitFirstBlock(buf);
    if !b.zero {
      assert |b.data| == MaxDataPerBlock;
    }
  }

  /** The code bytes and data bytes of all blocks of `buf`, without the final delimiter. */
  function EncodeBlocks(buf: seq<byte>): seq<byte>
    decreases |buf|
  {
    var b := SplitFirstBlock(buf);
    [CodeByte(b)] + b.data +
      if HasNext(b) then (NextBlockShorter(buf); EncodeBlocks(b.rest)) else []
  }

  /** The first block of `buf`, then the blocks after it. */
  lemma EncodeBlocksUnfold(buf: seq<byte>)
    ensures EncodeBlocks(buf) ==
      [CodeByte(SplitFirstBlock(buf))] + (SplitFirstBlock(buf).data + Following(SplitFirstBlock(buf)))
  {
    var b := SplitFirstBlock(buf);
    var f := Following(b);
    assert EncodeBlocks(buf) == [CodeByte(b)] + b.data + f;
    Regroup([CodeByte(b)], b.data, f);
  }

  /**
   * How the first block of `buf` covers it: a 254-byte block (code byte
   * 0xFF) elides no zero; a shorter block is followed by another block only
   * if it ends at an elided zero.
   */
  lemma BlockShape(buf: seq<byte>)
    ensures var b := SplitFirstBlock(buf);
      (CodeByte(b) == 0xFF <==> |b.data| == MaxDataPerBlock)
      && |b.data| <= |buf|
      && (HasNext(b) && CodeByte(b) == 0xFF ==> buf == b.data + b.rest)
      && (HasNext(b) && CodeByte(b) != 0xFF ==> b.zero && buf == b.data + [0] + b.rest)
      && (!HasNext(b) ==> buf == b.data && Following(b) == [])
  {
    var b := SplitFirstBlock(buf);
    if !b.zero {
      assert buf == b.data + b.rest;
    }
  }

  /** The encoding of the blocks that follow block `b`. */
  function Following(b: Block): seq<byte> {
    if HasNext(b) then EncodeBlocks(b.rest) else []
  }

  /** The COBS encoding of `buf`, as the reference for the encoder's output. */
  function Encode(buf: seq<byte>): seq<byte> {
    EncodeBlocks(buf) + [0]
  }

  /** EncoderState: not started, inside a block, or finished. */
  datatype EncoderState = Start(input: seq<byte>) | InBlock(block: Block) | End
  {
    /** The invariant every reachable state keeps: a block's pending data is a zero-free block. */
    predicate Wf() {
      InBlock? ==> ZeroFree(block.data) && |block.data| <= MaxDataPerBlock
    }

    /** Termination measure: remaining data and input bytes plus a rank for the state. */
    function Measure(): nat {
      match this
      case Start(input) => 3 * |input| + 3
      case InBlock(b) => |b.data| + 3 * |b.rest| + (if b.zero then 2 else 0) + 1
      case End => 0
    }

    /** EncoderState::pull: the byte returned and the state stored back. */
    function Pull(): (r: (Option<byte>, EncoderState))
      requires Wf()
      ensures r.1.Wf()
      ensures r.0.None? <==> this == End
      ensures this == End ==> r.1 == End
      ensures r.0.Some? ==> r.1.Measure() < Measure()
    {
      match this
      case Start(input) =>
        var b := SplitFirstBlock(input);
        (Some(CodeByte(b)), InBlock(b))
      case InBlock(b) =>
        if b.data == [] then
          if !b.zero && b.rest == [] then
            (Some(0), End)
          else
            var next := SplitFirstBlock(b.rest);
            (Some(CodeByte(next)), InBlock(next))
        else
          (Some(b.data[0]), InBlock(Block(b.data[1..], b.zero, b.rest)))
      case End => (None, End)
    }

    /** Every byte still to be pulled from this state: its share of the reference encoding. */
    function Pending(): seq<byte>
      requires Wf()
    {
      match this
      case Start(input) => Encode(input)
      case InBlock(b) => b.data + Following(b) + [0]
      case End => []
    }
  }

  /** Encoder: holds the state machine and advances it on each pull. */
  class Encoder {
    var state: EncoderState

    /** Output still to come; it shrinks by the byte each `Pull` returns. */
    function Remaining(): seq<byte>
      reads this
      requires state.Wf()
    {
      state.Pending()
    }

    /** Encoder::new */
    constructor (data: seq<byte>)
      ensures state == Start(data) && state.Wf()
      ensures Remaining() == Encode(data)
    {
      state := Start(data);
    }

    /** Encoder::pull */
    method Pull() returns (r: Option<byte>)
      requires state.Wf()
      modifies this
      ensures state.Wf()
      ensures (r, state) == old(state).Pull()
      ensures r.None? ==> old(state) == End && state == End && Remaining() == []
      ensures r.Some? ==> old(Remaining()) == [r.value] + Remaining()
    {
      PullPending(state);
      var (out, next) := state.Pull();
      r, state := out, next;
    }
  }

  /** The first pull from a fresh encoder yields the first code byte. */
  lemma PullStart(input: seq<byte>)
    ensures Start(input).Pending() == [Start(input).Pull().0.value] + Start(input).Pull().1.Pending()
  {
    var b := SplitFirstBlock(input);
    var c := CodeByte(b);
    var f := Following(b);
    assert Start(input).Pull() == (Some(c), InBlock(b));
    assert EncodeBlocks(input) == [c] + (b.data + f) by {
      EncodeBlocksUnfold(input);
    }
    Regroup([c], b.data + f, [0]);
  }

  /** Pulling from an exhausted block that has a successor yields the successor's code byte. */
  lemma PullNext(b: Block)
    requires b.data == [] && HasNext(b)
    ensures InBlock(b).Pending() == [InBlock(b).Pull().0.value] + InBlock(b).Pull().1.Pending()
  {
    var next := SplitFirstBlock(b.rest);
    var c := CodeByte(next);
    var f := Following(next);
    assert InBlock(b).Pull() == (Some(c), InBlock(next));
    assert EncodeBlocks(b.rest) == [c] + (next.data + f) by {
      EncodeBlocksUnfold(b.rest);
    }
    assert Following(b) == EncodeBlocks(b.rest);
    assert b.data + Following(b) == Following(b);
    assert InBlock(b).Pending() == EncodeBlocks(b.rest) + [0];
    Regroup([c], next.data + f, [0]);
  }

  /** Pulling from a block with data left yields its first data byte. */
  lemma PullData(b: Block)
    requires ZeroFree(b.data) && |b.data| <= MaxDataPerBlock && b.data != []
    ensures InBlock(b).Pending() == [InBlock(b).Pull().0.value] + InBlock(b).Pull().1.Pending()
  {
    var tail := Block(b.data[1..], b.zero, b.rest);
    assert InBlock(b).Pull() == (Some(b.data[0]), InBlock(tail));
    assert Following(tail) == Following(b);
    SplitHead(b.data, Following(b), [0]);
  }

  /** `c + d + g` regrouped after `c`. */
  lemma Regroup(c: seq<byte>, d: seq<byte>, g: seq<byte>)
    ensures c + d + g == c + (d + g)
  {
  }

  /** `a + f + g` regrouped around the head of `a`. */
  lemma SplitHead(a: seq<byte>, f: seq<byte>, g: seq<byte>)
    requires a != []
    ensures a + f + g == [a[0]] + (a[1..] + f + g)
  {
    assert a == [a[0]] + a[1..];
  }

  /** Each pull returns the first pending byte and leaves the rest pending. */
  lemma PullPending(s: EncoderState)
    requires s.Wf()
    ensures s.Pull().0.None? ==> s.Pending() == []
    ensures s.Pull().0.Some? ==> s.Pending() == [s.Pull().0.value] + s.Pull().1.Pending()
  {
    match s
    case Start(input) => PullStart(input);
    case InBlock(b) =>
      if b.data != [] {
        PullData(b);
      } else if HasNext(b) {
        PullNext(b);
      }
    case End =>
  }

  /** The encoder returns 0x00 exactly on the step from the exhausted block to `End`. */
  lemma PullZeroOnlyAtEnd(s: EncoderState)
    requires s.Wf()
    ensures s.Pull().0 == Some(0) <==> s == InBlock(Block([], false, []))
    ensures s.Pull().0 == Some(0) ==> s.Pull().1 == End
  {
    if s.InBlock? && s.block.data != [] {
      assert s.block.data[0] in s.block.data;
    }
  }

  /** Once `End` is reached, every further pull returns `None` and stays in `End`. */
  lemma EndIsAbsorbing(s: EncoderState)
    requires s.Wf() && s.End?
    ensures s.Pull() == (None, End) && s.Pending() == []
  {
  }

  /** Every byte of the output except the final one is nonzero. */
  lemma {:induction false} EncodeBlocksZeroFree(buf: seq<byte>)
    ensures ZeroFree(EncodeBlocks(buf))
    decreases |buf|
  {
    var b := SplitFirstBlock(buf);
    var tail := if HasNext(b) then EncodeBlocks(b.rest) else [];
    if HasNext(b) {
      NextBlockShorter(buf);
      EncodeBlocksZeroFree(b.rest);
    }
    assert EncodeBlocks(buf) == [CodeByte(b)] + b.data + tail;
  }

  /** Delimiter safety: the only 0x00 of an encoding is its final byte. */
  lemma EncodeDelimiterSafe(buf: seq<byte>)
    ensures |Encode(buf)| >= 2 && Encode(buf)[|Encode(buf)| - 1] == 0
    ensures ZeroFree(Encode(buf)[..|Encode(buf)| - 1])
  {
    EncodeBlocksZeroFree(buf);
    assert Encode(buf)[..|Encode(buf)| - 1] == EncodeBlocks(buf);
  }

  /** An encoding is the block bytes followed by the delimiter. */
  lemma EncodeSplit(buf: seq<byte>)
    ensures Encode(buf) != [] && Encode(buf)[|Encode(buf)| - 1] == 0
    ensures Encode(buf)[..|Encode(buf)| - 1] == EncodeBlocks(buf)
  {
    var e := Encode(buf);
    assert e == EncodeBlocks(buf) + [0];
    assert e[..|e| - 1] == EncodeBlocks(buf);
  }

  /** Empty input encodes to 0x01 0x00. */
  lemma EncodeEmpty()
    ensures Encode([]) == [0x01, 0x00]
  {
    var b := SplitFirstBlock([]);
    assert b.data == [] && !b.zero && b.rest == [];
  }
}
