/**
 * COBS decoder of libraries/cellagent-protocol/src/cobs/decode.rs.
 *
 * `DecoderState.Feed` is the byte-level state machine `DecoderState::feed`;
 * `Step` is what `Decoder::feed` makes of its result, on a pure view of the
 * decoder (state and decoded bytes), and `Decoder` is the object that owns
 * the output buffer and updates it in place.
 *
 * `Step` also has a `Corrected` variant: `Decoder::feed` answers
 * `FeedResult::Empty` with `Ok(Some(0))` even when that result comes from the
 * middle of a frame (after a 254-byte block); the corrected variant answers
 * `Ok(None)` there.
 */
module CobsDecode {
  import opened Common

  datatype DecodeError = EmptyFrame | InvalidFrame | BufferTooSmall

  datatype FeedResult = Empty | DataStart | DataComplete | Data(d: byte) | Error(err: DecodeError)

  /** The decoder's position in a frame: between frames, or inside a block with `remaining` data bytes to go. */
  datatype DecoderState = Idle | Block(remaining: byte) | PartialBlock(remaining: byte)
  {
    /** Whether a block has just been used up, so that the next byte is a code byte or the delimiter. */
    predicate AtBlockEnd() {
      this == Block(0) || this == PartialBlock(0)
    }

    /** DecoderState::feed: what one byte means, and the state it leaves. */
    function Feed(b: byte): (r: (FeedResult, DecoderState))
      ensures b == 0 ==> r.1 == Idle
      ensures r.0 == DataComplete <==> b == 0 && AtBlockEnd()
      ensures r.0.Error? <==> b == 0 && !Idle? && !AtBlockEnd()
      ensures r.0.Error? ==> r.0.err == InvalidFrame
      ensures r.0 == DataStart <==> Idle? && b != 0
      ensures r.0 == Empty <==> (Idle? && b == 0) || (this == PartialBlock(0) && b != 0)
      ensures r.0.Data? ==> !Idle? && b != 0 && (if AtBlockEnd() then r.0.d == 0 else r.0.d == b)
      ensures b != 0 && (Idle? || AtBlockEnd()) ==>
        r.1 == (if b == 0xFF then PartialBlock(0xFE) else Block(b - 1))
      ensures b != 0 && !Idle? && !AtBlockEnd() ==>
        r.1 == (if Block? then Block(remaining - 1) else PartialBlock(remaining - 1))
    {
      match this
      case Idle =>
        if b == 0x00 then (Empty, Idle)
        else if b == 0xFF then (DataStart, PartialBlock(0xFE))
        else (DataStart, Block(b - 1))
      case Block(i) =>
        if i == 0 then
          if b == 0x00 then (DataComplete, Idle)
          else if b == 0xFF then (Data(0), PartialBlock(0xFE))
          else (Data(0), Block(b - 1))
        else if b == 0x00 then (Error(InvalidFrame), Idle)
        else (Data(b), Block(i - 1))
      case PartialBlock(i) =>
        if i == 0 then
          if b == 0x00 then (DataComplete, Idle)
          else if b == 0xFF then (Empty, PartialBlock(0xFE))
          else (Empty, Block(b - 1))
        else if b == 0x00 then (Error(InvalidFrame), Idle)
        else (Data(b), PartialBlock(i - 1))
    }
  }

  /** Which reading of `FeedResult::Empty` a step uses. */
  datatype Variant = AsWritten | Corrected

  /** The decoder as a value: its state and the bytes decoded so far in the current frame. */
  datatype View = View(state: DecoderState, data: seq<byte>)

  /** What `Decoder::feed` returns: `Some(n)` when a frame of `n` bytes has ended. */
  type Outcome = Result<Option<nat>, DecodeError>

  /** Decoder::feed on a view, with an output buffer of `cap` bytes. */
  function Step(variant: Variant, v: View, cap: nat, b: byte): (r: (Outcome, View))
    ensures r.1.state == v.state.Feed(b).1
    ensures |v.data| <= cap ==> |r.1.data| <= cap
    ensures r.0 == Err(BufferTooSmall) <==> v.state.Feed(b).0.Data? && |v.data| >= cap
    ensures r.0.Ok? && r.0.value.Some? ==>
      r.1.data == v.data && (r.0.value.value == |v.data| || r.0.value.value == 0)
    ensures v.state.Feed(b).0.Data? && |v.data| < cap ==>
      r == (Ok(None), View(r.1.state, v.data + [v.state.Feed(b).0.d]))
  {
    var (fr, st) := v.state.Feed(b);
    match fr
    case Empty =>
      (if variant == Corrected && !v.state.Idle? then Ok(None) else Ok(Some(0)), View(st, v.data))
    case DataStart => (Ok(None), View(st, []))
    case DataComplete => (Ok(Some(|v.data|)), View(st, v.data))
    case Data(d) =>
      if |v.data| < cap then (Ok(None), View(st, v.data + [d]))
      else (Err(BufferTooSmall), View(st, v.data))
    case Error(e) => (Err(e), View(st, v.data))
  }

  /** Feeds `bytes` one by one while every feed answers `Ok(None)`; `None` as soon as one does not. */
  function Quiet(variant: Variant, v: View, cap: nat, bytes: seq<byte>): Option<View>
    decreases |bytes|
  {
    if bytes == [] then Some(v)
    else
      var (r, w) := Step(variant, v, cap, bytes[0]);
      if r == Ok(None) then Quiet(variant, w, cap, bytes[1..]) else None
  }

  /**
   * A whole encoded frame fed to the decoder, as the test helper
   * `decode_full_slice` does: every byte but the last must answer
   * `Ok(None)`, the last `Ok(Some(_))`; the result is the decoded data, or
   * `None` where the helper panics.
   */
  function DecodeFrame(variant: Variant, v: View, cap: nat, bytes: seq<byte>): Option<seq<byte>> {
    if bytes == [] then None
    else match Quiet(variant, v, cap, bytes[..|bytes| - 1])
      case None => None
      case Some(u) =>
        var (r, w) := Step(variant, u, cap, bytes[|bytes| - 1]);
        if r.Ok? && r.value.Some? then Some(w.data) else None
  }

  /** Decoder: owns the output buffer; `pos` bytes of it hold the current frame. */
  class Decoder {
    const buf: array<byte>
    var pos: nat
    var state: DecoderState

    ghost predicate Valid()
      reads this
    {
      pos <= buf.Length
    }

    /** Decoder::data: the bytes decoded so far. */
    function Data(): (d: seq<byte>)
      reads this, buf
      requires Valid()
      ensures |d| == pos
    {
      buf[..pos]
    }

    /** The decoder as a value, for the specification. */
    function Current(): View
      reads this, buf
      requires Valid()
    {
      View(state, Data())
    }

    /** Decoder::new_init and Decoder::new_uninit (both start the same way). */
    constructor (buf: array<byte>)
      ensures this.buf == buf && Valid()
      ensures Current() == View(Idle, [])
    {
      this.buf := buf;
      pos := 0;
      state := Idle;
    }

    /** Decoder::feed */
    method Feed(b: byte) returns (r: Outcome)
      requires Valid()
      modifies this, buf
      ensures Valid()
      ensures (r, Current()) == Step(AsWritten, old(Current()), buf.Length, b)
    {
      var (fr, st) := state.Feed(b);
      state := st;
      match fr
      case Empty =>
        r := Ok(Some(0));
      case DataStart =>
        pos := 0;
        r := Ok(None);
      case DataComplete =>
        r := Ok(Some(pos));
      case Data(d) =>
        if pos < buf.Length {
          buf[pos] := d;
          assert buf[..pos + 1] == old(buf[..pos]) + [d];
          pos := pos + 1;
          r := Ok(None);
        } else {
          r := Err(BufferTooSmall);
        }
      case Error(e) =>
        r := Err(e);
    }
  }

  /** A zero byte always brings the decoder back to `Idle`, whatever state it was in. */
  lemma ZeroResynchronises(variant: Variant, v: View, cap: nat)
    ensures Step(variant, v, cap, 0).1.state == Idle
    ensures Step(variant, v, cap, 0).0 ==
      if v.state.Idle? then Ok(Some(0))
      else if v.state.AtBlockEnd() then Ok(Some(|v.data|))
      else Err(InvalidFrame)
  {
  }

  /** `DecodeError::EmptyFrame` is never reported. */
  lemma NeverEmptyFrame(variant: Variant, v: View, cap: nat, b: byte)
    ensures Step(variant, v, cap, b).0 != Err(EmptyFrame)
  {
  }
}
