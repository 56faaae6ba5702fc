/**
 * The receive loop both ends run over their byte buffer (`_process_buffer`
 * in `converter.py`, the inner loop of `_receive_thread` in `protocol.py`):
 * frames are cut one pass at a time and each one is handed to `decode`.
 */
module ReceiveLoop {

  import opened Wrappers
  import opened Packing
  import opened Messages
  import opened Framing
  import opened Utils

  /** The error `decode` ends in for each frame, in order. */
  function DecodeErrors(frames: seq<seq<byte>>): (r: seq<DecodeError>)
    ensures |r| == |frames|
  {
    if frames == [] then [] else [Decode(frames[0]).error] + DecodeErrors(frames[1..])
  }

  /**
   * One pass of the loop of `_process_buffer`: without any 0x7e the buffer
   * is cleared; otherwise what precedes the first 0x7e is dropped and, if a
   * second 0x7e follows, the frame up to it is cut off. Returns the new
   * buffer and the frame, if one was cut; when none was, the new buffer is
   * what `Split` leaves.
   */
  method CutFrame(buffer: seq<byte>) returns (rest: seq<byte>, frame: Option<seq<byte>>)
    requires |buffer| > 2
    ensures frame.None? ==> Frames(Split(buffer).0) == [] && Split(buffer).1 == rest && Split(rest) == ([], rest)
    ensures frame.Some? ==> && |rest| < |buffer|
                            && Frames(Split(buffer).0) == [frame.value] + Frames(Split(rest).0)
                            && Split(buffer).1 == Split(rest).1
  {
    NextStepByFind(buffer);
    var start := FindFlag(buffer, 0);
    if start.None? {
      SplitClear(buffer);
      return [], None;
    }
    rest := buffer[start.value..];
    var end := FindFlag(rest, 1);
    if end.None? {
      SplitWait(buffer);
      SplitKept(rest);
      return rest, None;
    }
    frame := Some(rest[..end.value + 1]);
    rest := rest[end.value + 1..];
    SplitCut(buffer);
  }

  /**
   * The loop of `_process_buffer` on the buffer's contents: passes are made
   * while more than two bytes remain, and every frame cut is decoded. Returns
   * the bytes left and the errors `decode` ended in, one per frame, in order.
   */
  method CutFrames(buffer: seq<byte>) returns (rest: seq<byte>, errors: seq<DecodeError>)
    ensures rest == Split(buffer).1
    ensures errors == DecodeErrors(Frames(Split(buffer).0))
  {
    rest := buffer;
    errors := [];
    ghost var frames: seq<seq<byte>> := [];
    while |rest| > 2
      invariant Frames(Split(buffer).0) == frames + Frames(Split(rest).0)
      invariant Split(buffer).1 == Split(rest).1
      invariant |errors| == |frames| && forall i :: 0 <= i < |frames| ==> errors[i] == Decode(frames[i]).error
      decreases |rest|
    {
      var frame;
      rest, frame := CutFrame(rest);
      if frame.None? {
        assert Frames(Split(rest).0) == [];
        break;
      }
      // `Decode` ends in an error for every input.
      var decoded := Decode(frame.value);
      assert frames + ([frame.value] + Frames(Split(rest).0)) == (frames + [frame.value]) + Frames(Split(rest).0);
      errors := errors + [decoded.error];
      frames := frames + [frame.value];
    }
    assert Frames(Split(buffer).0) == frames by {
      if |rest| <= 2 {
        assert Frames(Split(rest).0) == [];
      }
    }
    DecodeErrorsPointwise(frames);
  }

  lemma {:induction false} DecodeErrorsPointwise(frames: seq<seq<byte>>)
    ensures forall i :: 0 <= i < |frames| ==> DecodeErrors(frames)[i] == Decode(frames[i]).error
  {
    if frames != [] {
      DecodeErrorsPointwise(frames[1..]);
    }
  }

  /**
   * A client that sends one encoded message has it cut out as a single frame,
   * which then fails at the header unpack: the frame is dropped and nothing
   * stays buffered.
   */
  lemma EncodedMessageIsDropped(m: Message, fallback: string)
    requires ValidFallback(fallback) && Encodable(m)
    ensures var f := Encode(m, fallback).value;
      && Split(f) == ([Frame(f)], [])
      && DecodeErrors(Frames(Split(f).0)) == [HeaderUnpackError]
  {
    var f := Encode(m, fallback).value;
    EncodeFraming(m, fallback);
    HeaderLayout(m, fallback);
    var data := Payload(m, fallback).value;
    UnescapedNoLonger(f[1..|f| - 1]);
    assert |Unescaped(f[1..|f| - 1])| == |data| + 1;
    SplitOneFrame(f);
    assert Frames([Frame(f)]) == [f] + Frames([]);
    DecodeOfEncode(m, fallback);
  }
}
