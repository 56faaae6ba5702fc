/**
 * The rule by which the server (`JT808Server._process_buffer`) and the client
 * (`JT808Protocol._receive_thread`) cut a received byte stream into frames:
 * while more than two bytes are buffered, drop everything before the first
 * 0x7e (the whole buffer if there is none), then cut up to and including the
 * next 0x7e, or stop and wait for more bytes if there is none yet.
 */
module Framing {

  import opened Wrappers
  import opened Packing

  /** `buffer.find(b'\x7e', start)`. */
  function FindFlag(s: seq<byte>, start: nat): (r: Option<nat>)
    ensures r.Some? ==> start <= r.value < |s| && s[r.value] == FLAG
    ensures r.Some? ==> forall i :: start <= i < r.value ==> s[i] != FLAG
    ensures r.None? ==> forall i :: start <= i < |s| ==> s[i] != FLAG
    decreases |s| - start
  {
    if start >= |s| then None
    else if s[start] == FLAG then Some(start)
    else FindFlag(s, start + 1)
  }

  /** A stretch of the buffer: bytes thrown away, or a frame handed to the decoder. */
  datatype Piece = Junk(bytes: seq<byte>) | Frame(bytes: seq<byte>)

  /** One pass of the loop body on a buffer of more than two bytes. */
  datatype Step =
    | Clear                                                      // no 0x7e at all: the buffer is cleared
    | Wait(junk: seq<byte>, kept: seq<byte>)                     // no closing 0x7e yet
    | Cut(junk: seq<byte>, frame: seq<byte>, remainder: seq<byte>)

  /** A frame: 0x7e at both ends and nowhere in between. */
  predicate IsFrame(f: seq<byte>)
  {
    |f| >= 2 && f[0] == FLAG && f[|f| - 1] == FLAG && forall i :: 0 < i < |f| - 1 ==> f[i] != FLAG
  }

  predicate NoFlag(s: seq<byte>)
  {
    forall i :: 0 <= i < |s| ==> s[i] != FLAG
  }

  /** What may stay buffered: at most two bytes, or an opening 0x7e with no closing one after it. */
  predicate IsRest(rest: seq<byte>)
  {
    |rest| <= 2 || (rest[0] == FLAG && NoFlag(rest[1..]))
  }

  /** Find the first 0x7e, drop what is before it, find the next 0x7e after it. */
  function NextStep(buffer: seq<byte>): (r: Step)
    ensures r.Clear? <==> NoFlag(buffer)
    ensures r.Wait? ==> r.junk + r.kept == buffer && NoFlag(r.junk) && IsRest(r.kept) && |r.kept| >= 1
    ensures r.Cut? ==> r.junk + r.frame + r.remainder == buffer && NoFlag(r.junk) && IsFrame(r.frame)
  {
    match FindFlag(buffer, 0)
      case None => Clear
      case Some(start) =>
        var junk, b := buffer[..start], buffer[start..];
        match FindFlag(b, 1)
          case None =>
            WaitShape(buffer, start);
            Wait(junk, b)
          case Some(end) =>
            CutShape(buffer, start, end);
            Cut(junk, b[..end + 1], b[end + 1..])
  }

  /** With an opening 0x7e and no closing one, the buffer is junk followed by what may stay buffered. */
  lemma WaitShape(buffer: seq<byte>, start: nat)
    requires FindFlag(buffer, 0) == Some(start) && FindFlag(buffer[start..], 1).None?
    ensures var junk, kept := buffer[..start], buffer[start..];
      && !NoFlag(buffer) && junk + kept == buffer && NoFlag(junk) && IsRest(kept) && |kept| >= 1
  {
    BeforeFirstFlag(buffer, start);
    NoClosingFlag(buffer[start..]);
  }

  /** With an opening and a closing 0x7e, the buffer is junk, a frame and a remainder. */
  lemma CutShape(buffer: seq<byte>, start: nat, end: nat)
    requires FindFlag(buffer, 0) == Some(start) && FindFlag(buffer[start..], 1) == Some(end)
    ensures var b := buffer[start..];
      && end + 1 <= |b| && !NoFlag(buffer) && NoFlag(buffer[..start]) && IsFrame(b[..end + 1])
      && buffer[..start] + b[..end + 1] + b[end + 1..] == buffer
  {
    BeforeFirstFlag(buffer, start);
    var b := buffer[start..];
    ClosingFlag(b, end);
    assert buffer[..start] + b[..end + 1] + b[end + 1..] == buffer[..start] + (b[..end + 1] + b[end + 1..]);
  }

  /** What precedes the first 0x7e holds none, and the rest starts with it. */
  lemma BeforeFirstFlag(buffer: seq<byte>, start: nat)
    requires FindFlag(buffer, 0) == Some(start)
    ensures buffer == buffer[..start] + buffer[start..] && NoFlag(buffer[..start])
    ensures !NoFlag(buffer) && |buffer[start..]| >= 1 && buffer[start..][0] == FLAG
  {
    var junk := buffer[..start];
    forall i | 0 <= i < |junk|
      ensures junk[i] != FLAG
    {
      assert junk[i] == buffer[i];
    }
  }

  /** An opening 0x7e with no other after it may stay buffered. */
  lemma NoClosingFlag(b: seq<byte>)
    requires |b| >= 1 && b[0] == FLAG && FindFlag(b, 1).None?
    ensures IsRest(b)
  {
    forall i | 0 <= i < |b| - 1
      ensures b[1..][i] != FLAG
    {
      assert b[1..][i] == b[i + 1];
    }
  }

  /** Up to and including the second 0x7e is a frame. */
  lemma ClosingFlag(b: seq<byte>, end: nat)
    requires |b| >= 1 && b[0] == FLAG && FindFlag(b, 1) == Some(end)
    ensures end + 1 <= |b| && b == b[..end + 1] + b[end + 1..] && IsFrame(b[..end + 1])
  {
    var frame := b[..end + 1];
    forall i | 0 < i < |frame| - 1
      ensures frame[i] != FLAG
    {
      assert frame[i] == b[i];
    }
  }

  /** The junk as a list of pieces: nothing when there is none. */
  function JunkPieces(junk: seq<byte>): seq<Piece>
  {
    if junk == [] then [] else [Junk(junk)]
  }

  /** The pieces cut from `buffer`, in order, and the bytes left buffered. */
  function Split(buffer: seq<byte>): (seq<Piece>, seq<byte>)
    decreases |buffer|
  {
    if |buffer| <= 2 then ([], buffer)
    else match NextStep(buffer)
      case Clear => ([Junk(buffer)], [])
      case Wait(junk, kept) => (JunkPieces(junk), kept)
      case Cut(junk, frame, remainder) =>
        var (pieces, rest) := Split(remainder);
        (JunkPieces(junk) + [Frame(frame)] + pieces, rest)
  }

  /** The bytes of the pieces, concatenated. */
  function Concat(pieces: seq<Piece>): seq<byte>
  {
    if pieces == [] then [] else pieces[0].bytes + Concat(pieces[1..])
  }

  /** The frames among the pieces, in order. */
  function Frames(pieces: seq<Piece>): seq<seq<byte>>
  {
    if pieces == [] then []
    else (if pieces[0].Frame? then [pieces[0].bytes] else []) + Frames(pieces[1..])
  }

  lemma {:induction false} ConcatAppend(a: seq<Piece>, b: seq<Piece>)
    ensures Concat(a + b) == Concat(a) + Concat(b)
  {
    if a == [] {
      assert a + b == b;
    } else {
      assert (a + b)[0] == a[0];
      assert (a + b)[1..] == a[1..] + b;
      ConcatAppend(a[1..], b);
    }
  }

  lemma {:induction false} FramesAppend(a: seq<Piece>, b: seq<Piece>)
    ensures Frames(a + b) == Frames(a) + Frames(b)
  {
    if a == [] {
      assert a + b == b;
    } else {
      assert (a + b)[0] == a[0];
      assert (a + b)[1..] == a[1..] + b;
      FramesAppend(a[1..], b);
    }
  }

  lemma JunkPiecesBytes(junk: seq<byte>)
    ensures Concat(JunkPieces(junk)) == junk && Frames(JunkPieces(junk)) == []
  {
    if junk != [] {
      assert Concat([Junk(junk)]) == junk + Concat([]);
    }
  }

  /** Nothing is lost or reordered: the junk, the frames and the rest, in order, make up the buffer. */
  lemma {:induction false} SplitKeepsBytes(buffer: seq<byte>)
    ensures Concat(Split(buffer).0) + Split(buffer).1 == buffer
    decreases |buffer|
  {
    if |buffer| > 2 {
      var step := NextStep(buffer);
      if step.Clear? {
        assert Split(buffer) == ([Junk(buffer)], []);
        assert Concat([Junk(buffer)]) == buffer + Concat([]);
      } else if step.Wait? {
        assert Split(buffer) == (JunkPieces(step.junk), step.kept);
        JunkPiecesBytes(step.junk);
      } else {
        SplitCutPieces(buffer);
        SplitKeepsBytes(step.remainder);
        CutBytes(step.junk, step.frame, Split(step.remainder).0);
      }
    }
  }

  /** The pieces of a cut: its junk, its frame, then the pieces of the remainder. */
  lemma SplitCutPieces(buffer: seq<byte>)
    requires |buffer| > 2 && NextStep(buffer).Cut?
    ensures var step := NextStep(buffer);
      && Split(buffer).0 == JunkPieces(step.junk) + [Frame(step.frame)] + Split(step.remainder).0
      && Split(buffer).1 == Split(step.remainder).1
  {
  }

  /** The bytes of a cut's pieces. */
  lemma CutBytes(junk: seq<byte>, frame: seq<byte>, pieces: seq<Piece>)
    ensures Concat(JunkPieces(junk) + [Frame(frame)] + pieces) == junk + frame + Concat(pieces)
  {
    JunkPiecesBytes(junk);
    ConcatAppend(JunkPieces(junk), [Frame(frame)]);
    ConcatAppend(JunkPieces(junk) + [Frame(frame)], pieces);
    assert Concat([Frame(frame)]) == frame + Concat([]);
  }

  /** Every frame is delimited by 0x7e with none inside, junk is non-empty and holds no 0x7e, and the rest has the shape of `IsRest`. */
  lemma {:induction false} SplitShapes(buffer: seq<byte>)
    ensures forall p :: p in Split(buffer).0 && p.Frame? ==> IsFrame(p.bytes)
    ensures forall p :: p in Split(buffer).0 && p.Junk? ==> p.bytes != [] && NoFlag(p.bytes)
    ensures IsRest(Split(buffer).1)
    decreases |buffer|
  {
    if |buffer| > 2 {
      match NextStep(buffer) {
        case Clear =>
        case Wait(junk, kept) =>
        case Cut(junk, frame, remainder) =>
          SplitShapes(remainder);
      }
    }
  }

  /** `FindFlag` returns the first 0x7e at or after `start`. */
  lemma FindFlagFirst(s: seq<byte>, start: nat, k: nat)
    requires start <= k < |s| && s[k] == FLAG
    requires forall i :: start <= i < k ==> s[i] != FLAG
    ensures FindFlag(s, start) == Some(k)
  {
  }

  /** A buffer holding exactly one frame is cut into that frame, with nothing left buffered. */
  lemma SplitOneFrame(f: seq<byte>)
    requires IsFrame(f) && |f| > 2
    ensures Split(f) == ([Frame(f)], [])
  {
    FindFlagFirst(f, 0, 0);
    assert f[0..] == f;
    FindFlagFirst(f, 1, |f| - 1);
    assert f[..|f|] == f && f[|f|..] == [];
    assert NextStep(f) == Cut([], f, []);
    assert Split([]) == ([], []);
    assert JunkPieces([]) + [Frame(f)] + [] == [Frame(f)];
  }

  /** Junk in front of a frame is dropped and the frame is still cut out whole. */
  lemma SplitAfterJunk(junk: seq<byte>, f: seq<byte>)
    requires junk != [] && NoFlag(junk)
    requires IsFrame(f) && |f| > 2
    ensures Split(junk + f) == ([Junk(junk), Frame(f)], [])
  {
    var buffer := junk + f;
    FindFlagFirst(buffer, 0, |junk|);
    assert buffer[..|junk|] == junk && buffer[|junk|..] == f;
    FindFlagFirst(f, 1, |f| - 1);
    assert f[..|f|] == f && f[|f|..] == [];
    assert NextStep(buffer) == Cut(junk, f, []);
    assert Split([]) == ([], []);
    assert JunkPieces(junk) + [Frame(f)] + [] == [Junk(junk), Frame(f)];
  }

  /** A cut contributes its frame, and the rest of the split is the split of the remainder. */
  lemma SplitCut(buffer: seq<byte>)
    requires |buffer| > 2 && NextStep(buffer).Cut?
    ensures var step := NextStep(buffer);
      && Frames(Split(buffer).0) == [step.frame] + Frames(Split(step.remainder).0)
      && Split(buffer).1 == Split(step.remainder).1
  {
    var step := NextStep(buffer);
    var pieces := Split(step.remainder).0;
    SplitCutPieces(buffer);
    JunkPiecesBytes(step.junk);
    FramesAppend(JunkPieces(step.junk), [Frame(step.frame)]);
    FramesAppend(JunkPieces(step.junk) + [Frame(step.frame)], pieces);
    assert Frames([Frame(step.frame)]) == [step.frame] + Frames([]);
  }

  /** Without a closing 0x7e no frame is cut and the buffer keeps everything from the first 0x7e on. */
  lemma SplitWait(buffer: seq<byte>)
    requires |buffer| > 2 && NextStep(buffer).Wait?
    ensures Frames(Split(buffer).0) == [] && Split(buffer).1 == NextStep(buffer).kept
  {
    JunkPiecesBytes(NextStep(buffer).junk);
  }

  /** Without any 0x7e no frame is cut and nothing is kept. */
  lemma SplitClear(buffer: seq<byte>)
    requires |buffer| > 2 && NextStep(buffer).Clear?
    ensures Frames(Split(buffer).0) == [] && Split(buffer).1 == []
  {
    assert Frames([Junk(buffer)]) == [] + Frames([]);
  }

  /** `NextStep` spelled out as the two searches the loops perform. */
  lemma NextStepByFind(buffer: seq<byte>)
    ensures FindFlag(buffer, 0).None? ==> NextStep(buffer).Clear?
    ensures FindFlag(buffer, 0).Some? ==> var s := FindFlag(buffer, 0).value;
      && (FindFlag(buffer[s..], 1).None? ==> NextStep(buffer) == Wait(buffer[..s], buffer[s..]))
      && (FindFlag(buffer[s..], 1).Some? ==> var e := FindFlag(buffer[s..], 1).value;
            NextStep(buffer) == Cut(buffer[..s], buffer[s..][..e + 1], buffer[s..][e + 1..]))
  {
  }

  /** What a pass leaves waiting is left alone by the next one. */
  lemma SplitKept(kept: seq<byte>)
    requires |kept| >= 1 && kept[0] == FLAG && NoFlag(kept[1..])
    ensures Split(kept) == ([], kept)
  {
    if |kept| > 2 {
      FindFlagFirst(kept, 0, 0);
      assert kept[0..] == kept && kept[..0] == [];
      assert FindFlag(kept, 1).None?;
      assert NextStep(kept) == Wait([], kept);
    }
  }

  /**
   * Whether the first pass replaces the buffer by a new one instead of
   * working on it in place: dropping junk before the first 0x7e
   * (`buffer[start_idx:]`) and cutting a frame (`buffer[end_idx+1:]`) make a
   * new bytearray, while clearing a buffer without 0x7e and waiting on an
   * opening 0x7e at its head do not.
   */
  predicate Rebinds(buffer: seq<byte>)
  {
    |buffer| > 2 && match NextStep(buffer)
      case Clear => false
      case Wait(junk, _) => junk != []
      case Cut(_, _, _) => true
  }

  /** A loop that never replaces the buffer cuts no frame: it leaves the buffer as it is or clears it. */
  lemma InPlacePass(buffer: seq<byte>)
    requires !Rebinds(buffer)
    ensures Frames(Split(buffer).0) == []
    ensures Split(buffer).1 == buffer || Split(buffer).1 == []
  {
    if |buffer| > 2 {
      match NextStep(buffer) {
        case Clear => SplitClear(buffer);
        case Wait(junk, kept) =>
          SplitWait(buffer);
          assert kept == junk + kept;
      }
    }
  }

  /** What a loop leaves buffered goes through the next loop untouched and in place. */
  lemma RestStays(rest: seq<byte>)
    requires IsRest(rest)
    ensures Split(rest) == ([], rest) && !Rebinds(rest)
  {
    if |rest| > 2 {
      SplitKept(rest);
      FindFlagFirst(rest, 0, 0);
      assert rest[0..] == rest && rest[..0] == [];
      assert FindFlag(rest, 1).None?;
      assert NextStep(rest) == Wait([], rest);
    }
  }
}
