/** Modbus TCP reassembly: request frames out of a byte stream that arrives in
    arbitrary pieces. */
module MbTcpStream {
  import opened Bytes
  import opened Streams

  /** `mbap_frame_len`: header, then the announced length, clamped. */
  function FrameLen(frame: seq<Byte>): (n: nat)
    requires |frame| >= 6
    ensures 6 <= n <= 262
  {
    6 + Min(frame[4] as int * 256 + frame[5], 256)
  }

  function Max(a: nat, b: nat): nat {
    if a < b then b else a
  }

  /** Bytes one frame takes from the stream. */
  function Consumed(frame: seq<Byte>): nat
    requires |frame| >= 6
  {
    Max(8, FrameLen(frame))
  }

  /* ---- what the stream means ---- */

  predicate Complete(s: seq<Byte>) {
    |s| >= 8 && |s| >= FrameLen(s)
  }

  /** The frames of a stream, one after the other. */
  function Frames(s: seq<Byte>): seq<seq<Byte>>
    decreases |s|
  {
    if Complete(s) then [s[..FrameLen(s)]] + Frames(s[Consumed(s)..]) else []
  }

  /** The incomplete frame at the end. */
  function Rest(s: seq<Byte>): seq<Byte>
    decreases |s|
  {
    if Complete(s) then Rest(s[Consumed(s)..]) else s
  }

  /* ---- one byte at a time ---- */

  datatype Reader = Reader(buf: seq<Byte>, frames: seq<seq<Byte>>)

  function Push(r: Reader, b: Byte): Reader {
    var buf := r.buf + [b];
    if Complete(buf) then Reader([], r.frames + [buf[..FrameLen(buf)]]) else r.(buf := buf)
  }

  function ReadAll(r: Reader, s: seq<Byte>): Reader {
    Fold(Push, r, s)
  }

  // Only the first six bytes decide the length.
  lemma SameLen(a: seq<Byte>, b: seq<Byte>)
    requires |a| >= 6 && a <= b
    ensures FrameLen(a) == FrameLen(b)
  {
    assert a[4] == b[4] && a[5] == b[5];
  }

  lemma StillIncomplete(a: seq<Byte>, b: seq<Byte>)
    requires a <= b && !Complete(b)
    ensures !Complete(a)
  {
    if |a| >= 8 {
      SameLen(a, b);
    }
  }

  /** Bytes that do not complete the frame are only collected. */
  lemma {:induction false} Collect(r: Reader, s: seq<Byte>)
    requires !Complete(r.buf + s)
    ensures ReadAll(r, s) == r.(buf := r.buf + s)
    decreases |s|
  {
    if s != [] {
      var b := r.buf + [s[0]];
      assert b + s[1..] == r.buf + s;
      StillIncomplete(b, r.buf + s);
      Collect(r.(buf := b), s[1..]);
    } else {
      assert r.buf + s == r.buf;
    }
  }

  /** How many bytes the buffer wants to hold next. */
  function Want(buf: seq<Byte>): nat {
    if |buf| < 8 then 8 else FrameLen(buf)
  }

  function Settle(r: Reader, buf: seq<Byte>): Reader {
    if Complete(buf) then Reader([], r.frames + [buf[..FrameLen(buf)]]) else r.(buf := buf)
  }

  /** Up to what is wanted, a whole piece acts like its bytes one by one. */
  lemma TakePiece(r: Reader, s: seq<Byte>)
    requires !Complete(r.buf) && s != [] && |r.buf| + |s| <= Want(r.buf)
    ensures ReadAll(r, s) == Settle(r, r.buf + s)
  {
    var n := |s| - 1;
    assert s == s[..n] + [s[n]] && r.buf + s == r.buf + s[..n] + [s[n]];
    if |r.buf| >= 8 {
      SameLen(r.buf, r.buf + s[..n]);
    }
    Collect(r, s[..n]);
    FoldConcat(Push, r, s[..n], [s[n]]);
    assert ReadAll(r, s) == Push(ReadAll(r, s[..n]), s[n]);
  }

  /** Reading byte by byte finds exactly the frames of the stream, and keeps
      exactly its incomplete end. */
  lemma {:induction false} ReadsFrames(s: seq<Byte>, fs: seq<seq<Byte>>)
    ensures ReadAll(Reader([], fs), s) == Reader(Rest(s), fs + Frames(s))
    decreases |s|
  {
    if !Complete(s) {
      assert [] + s == s && fs + Frames(s) == fs;
      Collect(Reader([], fs), s);
    } else {
      OneFrame(s, fs);
      var c := Consumed(s);
      assert s == s[..c] + s[c..];
      FoldConcat(Push, Reader([], fs), s[..c], s[c..]);
      ReadsFrames(s[c..], fs + [s[..FrameLen(s)]]);
      assert fs + [s[..FrameLen(s)]] + Frames(s[c..]) == fs + Frames(s);
    }
  }

  lemma OneFrame(s: seq<Byte>, fs: seq<seq<Byte>>)
    requires Complete(s)
    ensures ReadAll(Reader([], fs), s[..Consumed(s)]) == Reader([], fs + [s[..FrameLen(s)]])
  {
    var c := Consumed(s);
    var x := s[..c];
    SameLen(x, s);
    assert x == x[..c - 1] + [x[c - 1]] && [] + x[..c - 1] == x[..c - 1];
    if c > 8 {
      SameLen(x[..c - 1], x);
    }
    Collect(Reader([], fs), x[..c - 1]);
    FoldConcat(Push, Reader([], fs), x[..c - 1], [x[c - 1]]);
    assert x[..FrameLen(s)] == s[..FrameLen(s)];
  }

  /** The frames handed to the decoder depend on the stream alone, not on how
      it was cut into reads. */
  lemma ReadsIrrelevant(pieces: seq<seq<Byte>>)
    ensures FoldChunks(Push, Reader([], []), pieces) == Reader(Rest(Flatten(pieces)), Frames(Flatten(pieces)))
  {
    ChunksIrrelevant(Push, Reader([], []), pieces);
    ReadsFrames(Flatten(pieces), []);
    assert [] + Frames(Flatten(pieces)) == Frames(Flatten(pieces));
  }

  /* ---- the connection ---- */

  class Connection {
    const frame: array<Byte>
    var flen: nat
    /** What the decoder was given, in order. */
    var given: seq<seq<Byte>>

    ghost predicate Valid()
      reads this, frame
    {
      frame.Length == 264 && flen <= 262 && !Complete(frame[..flen])
    }

    ghost function State(): Reader
      requires flen <= frame.Length
      reads this, frame
    {
      Reader(frame[..flen], given)
    }

    constructor ()
      ensures Valid() && State() == Reader([], []) && fresh(frame)
    {
      frame := new Byte[264](i => 0);
      flen, given := 0, [];
    }

    /** One turn of the inner loop: it takes at least a byte, and the buffer
        never holds more than 262 of its 264. */
    method TakeTurn(rbuf: seq<Byte>, ix: nat) returns (take: nat)
      requires Valid() && ix < |rbuf|
      modifies this, frame
      ensures Valid() && 0 < take <= |rbuf| - ix
      ensures State() == ReadAll(old(State()), rbuf[ix..ix + take])
    {
      var want := if flen < 8 then 8 else FrameLen(frame[..flen]);
      take := Min(|rbuf| - ix, want - flen);
      ghost var before := State();
      ghost var piece := rbuf[ix..ix + take];
      forall k | 0 <= k < take { frame[flen + k] := rbuf[ix + k]; }
      flen := flen + take;
      assert frame[..flen] == before.buf + piece;
      TakePiece(before, piece);
      if flen >= 8 && flen >= FrameLen(frame[..flen]) {
        given := given + [frame[..FrameLen(frame[..flen])]];
        assert frame[..FrameLen(frame[..flen])] == frame[..flen][..FrameLen(frame[..flen])];
        flen := 0;
      }
    }

    /** The inner loop of `serve` for one read. */
    method ServeRead(rbuf: seq<Byte>)
      requires Valid()
      modifies this, frame
      ensures Valid() && State() == ReadAll(old(State()), rbuf)
    {
      var ix := 0;
      assert rbuf[..0] == [];
      while ix < |rbuf|
        invariant Valid() && ix <= |rbuf| && State() == ReadAll(old(State()), rbuf[..ix])
      {
        var take := TakeTurn(rbuf, ix);
        assert rbuf[..ix + take] == rbuf[..ix] + rbuf[ix..ix + take];
        FoldConcat(Push, old(State()), rbuf[..ix], rbuf[ix..ix + take]);
        ix := ix + take;
      }
      assert rbuf[..ix] == rbuf;
    }
  }
}
