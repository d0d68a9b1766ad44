/** The framing of the IPC channel's responses: an incremental parser whose frames do not depend
    on how the bytes arrive. */
module RpcFraming {
  import opened Limbs
  import opened Bytes

  /** [u32 id][u8 status][u32 dataLen][data], little-endian. */
  datatype Frame = Frame(id: u32, status: u8, data: seq<u8>)

  const HEADER: nat := 9

  function Le32(x: u32): (r: seq<u8>)
    ensures |r| == 4
  {
    [x % 256, x / 256 % 256, x / 0x1_0000 % 256, x / 0x100_0000]
  }

  lemma LoadLe32(x: u32)
    ensures var b := Le32(x); Load32(b[0], b[1], b[2], b[3]) == x
  {
    ByteSplit(x);
  }

  function Encode(f: Frame): (r: seq<u8>)
    requires |f.data| < BASE
    ensures |r| == HEADER + |f.data|
  {
    Le32(f.id) + [f.status] + Le32(|f.data|) + f.data
  }

  /** The bytes of a list of frames. */
  function EncodeAll(fs: seq<Frame>): seq<u8>
    requires forall i :: 0 <= i < |fs| ==> |fs[i].data| < BASE
  {
    if fs == [] then [] else Encode(fs[0]) + EncodeAll(fs[1..])
  }

  // -------------------------------------------------------------------------------------
  // The parser

  function Length(buf: seq<u8>): u32
    requires |buf| >= HEADER
  {
    Load32(buf[5], buf[6], buf[7], buf[8])
  }

  /** A whole frame has arrived. */
  predicate Whole(buf: seq<u8>) {
    |buf| >= HEADER && |buf| >= HEADER + Length(buf)
  }

  /** `mid(9, int(dataLen))`: a length of 2^31 or more turns negative and means all the rest. */
  function Mid(buf: seq<u8>): seq<u8>
    requires Whole(buf)
  {
    if Length(buf) < 0x8000_0000 then buf[HEADER..HEADER + Length(buf)] else buf[HEADER..]
  }

  function First(buf: seq<u8>): Frame
    requires Whole(buf)
  {
    Frame(Load32(buf[0], buf[1], buf[2], buf[3]), buf[4], Mid(buf))
  }

  function After(buf: seq<u8>): (r: seq<u8>)
    requires Whole(buf)
    ensures |r| < |buf|
  {
    buf[HEADER + Length(buf)..]
  }

  /** All frames that can be cut off the front. */
  function Frames(buf: seq<u8>): seq<Frame>
    decreases |buf|
  {
    if Whole(buf) then [First(buf)] + Frames(After(buf)) else []
  }

  /** What is left over, less than one frame. */
  function Left(buf: seq<u8>): (r: seq<u8>)
    ensures !Whole(r)
    decreases |buf|
  {
    if Whole(buf) then Left(After(buf)) else buf
  }

  /** No length in the stream reaches 2^31. */
  predicate Short(buf: seq<u8>)
    decreases |buf|
  {
    (|buf| >= HEADER ==> Length(buf) < 0x8000_0000) && (Whole(buf) ==> Short(After(buf)))
  }

  // -------------------------------------------------------------------------------------
  // Chunks

  /** More bytes do not change a whole first frame that is not too long. */
  lemma FirstStable(buf: seq<u8>, more: seq<u8>)
    requires Whole(buf) && Length(buf) < 0x8000_0000
    ensures Whole(buf + more) && Length(buf + more) == Length(buf)
    ensures First(buf + more) == First(buf) && After(buf + more) == After(buf) + more
  {
    assert forall i :: 0 <= i < HEADER ==> (buf + more)[i] == buf[i];
  }

  /** Parsing what has arrived, and later the rest, gives the frames of the whole. */
  lemma {:induction false} ParseInTwo(a: seq<u8>, b: seq<u8>)
    requires Short(a + b)
    ensures Frames(a + b) == Frames(a) + Frames(Left(a) + b)
    ensures Left(a + b) == Left(Left(a) + b) && Short(Left(a) + b)
    decreases |a|
  {
    if Whole(a) {
      assert Length(a + b) == Length(a);
      FirstStable(a, b);
      ParseInTwo(After(a), b);
    }
  }

  lemma FirstEncoded(f: Frame, rest: seq<u8>)
    requires |f.data| < 0x8000_0000
    ensures var buf := Encode(f) + rest;
      Whole(buf) && Length(buf) == |f.data| && First(buf) == f && After(buf) == rest
  {
    LoadLe32(f.id);
    LoadLe32(|f.data|);
    var buf := Encode(f) + rest;
    assert buf[..4] == Le32(f.id) && buf[4] == f.status && buf[5..9] == Le32(|f.data|);
    assert buf[0] == Le32(f.id)[0] && buf[1] == Le32(f.id)[1] && buf[2] == Le32(f.id)[2] && buf[3] == Le32(f.id)[3];
    assert buf[5] == buf[5..9][0] && buf[6] == buf[5..9][1] && buf[7] == buf[5..9][2] && buf[8] == buf[5..9][3];
    assert buf[HEADER..HEADER + |f.data|] == f.data;
  }

  predicate AllShort(fs: seq<Frame>) {
    forall i :: 0 <= i < |fs| ==> |fs[i].data| < 0x8000_0000
  }

  /** The frames of an encoded list, followed by less than a frame, are that list. */
  lemma {:induction false} EncodedFrames(fs: seq<Frame>, partial: seq<u8>)
    requires AllShort(fs) && !Whole(partial) && (|partial| >= HEADER ==> Length(partial) < 0x8000_0000)
    ensures Frames(EncodeAll(fs) + partial) == fs && Left(EncodeAll(fs) + partial) == partial
    ensures Short(EncodeAll(fs) + partial)
  {
    hide Load32, First, Le32, Encode;
    if fs == [] {
      assert EncodeAll(fs) + partial == partial;
    } else {
      var rest := EncodeAll(fs[1..]) + partial;
      assert EncodeAll(fs) + partial == Encode(fs[0]) + rest;
      EncodedFrames(fs[1..], partial);
      FirstEncoded(fs[0], rest);
      assert fs == [fs[0]] + fs[1..];
    }
  }

  /** With a length of 2^31 or more the data handed on is the frame's own if and only if the
      frame is the last thing that has arrived. */
  lemma MidExact(buf: seq<u8>)
    requires Whole(buf)
    ensures Mid(buf) == buf[HEADER..HEADER + Length(buf)] <==> Length(buf) < 0x8000_0000 || |buf| == HEADER + Length(buf)
  {
    if |buf| > HEADER + Length(buf) {
      assert |buf[HEADER..]| > |buf[HEADER..HEADER + Length(buf)]|;
    } else {
      assert buf[HEADER..] == buf[HEADER..HEADER + Length(buf)];
    }
  }

  /** A frame of 2^31 bytes or more swallows whatever has arrived behind it. */
  lemma LongFrame(f: Frame, rest: seq<u8>)
    requires 0x8000_0000 <= |f.data| < BASE
    ensures var buf := Encode(f) + rest; Whole(buf) && First(buf) == Frame(f.id, f.status, f.data + rest)
  {
    var buf := Encode(f) + rest;
    LoadLe32(f.id);
    LoadLe32(|f.data|);
    hide Le32, Load32;
    assert buf[..4] == Le32(f.id) && buf[5..9] == Le32(|f.data|);
    assert buf[HEADER..] == f.data + rest;
  }

  /** Two zero-filled frames show it: the first is handed on with the second one's bytes. */
  lemma LongFrameExample()
    ensures var f, g := Frame(1, 0, seq(0x8000_0000, _ => 0)), Frame(2, 0, []);
      Whole(Encode(f) + Encode(g)) && First(Encode(f) + Encode(g)) != f
  {
    var f, g := Frame(1, 0, seq(0x8000_0000, _ => 0)), Frame(2, 0, []);
    hide Encode;
    LongFrame(f, Encode(g));
    assert |f.data + Encode(g)| > |f.data|;
  }

  // -------------------------------------------------------------------------------------
  // The I/O thread's buffer

  class Reader {
    var read_buf: seq<u8>
    var dispatched: seq<Frame>   // handed to the pending calls, in order

    constructor ()
      ensures read_buf == [] && dispatched == []
    {
      read_buf, dispatched := [], [];
    }

    /** `processBuffer`. */
    method ProcessBuffer()
      modifies this
      ensures dispatched == old(dispatched) + Frames(old(read_buf)) && read_buf == Left(old(read_buf))
    {
      hide Load32;
      while |read_buf| >= HEADER
        invariant dispatched + Frames(read_buf) == old(dispatched) + Frames(old(read_buf))
        invariant Left(read_buf) == Left(old(read_buf))
        decreases |read_buf|
      {
        var reqId := Load32(read_buf[0], read_buf[1], read_buf[2], read_buf[3]);
        var status := read_buf[4];
        var dataLen := Load32(read_buf[5], read_buf[6], read_buf[7], read_buf[8]);
        var totalSize := HEADER + dataLen;
        if |read_buf| < totalSize {
          break;
        }
        var data := if dataLen < 0x8000_0000 then read_buf[HEADER..HEADER + dataLen] else read_buf[HEADER..];
        NextFrame(dispatched, read_buf, Frame(reqId, status, data));
        read_buf := read_buf[totalSize..];
        dispatched := dispatched + [Frame(reqId, status, data)];
      }
      assert !Whole(read_buf);
      assert dispatched + [] == dispatched;
    }

    /** `onReadyRead`. */
    method OnReadyRead(chunk: seq<u8>)
      modifies this
      ensures dispatched == old(dispatched) + Frames(old(read_buf) + chunk) && read_buf == Left(old(read_buf) + chunk)
    {
      read_buf := read_buf + chunk;
      ProcessBuffer();
    }
  }

  lemma NextFrame(before: seq<Frame>, buf: seq<u8>, f: Frame)
    requires Whole(buf) && f == First(buf)
    ensures before + Frames(buf) == (before + [f]) + Frames(After(buf)) && Left(buf) == Left(After(buf))
  {
    hide Load32, First;
  }

  /** However the bytes of a list of frames are split into reads, those frames are dispatched in
      order and only the incomplete rest stays in the buffer. */
  method ReadChunks(chunks: seq<seq<u8>>, ghost fs: seq<Frame>, ghost partial: seq<u8>) returns (reader: Reader)
    requires AllShort(fs) && !Whole(partial) && (|partial| >= HEADER ==> Length(partial) < 0x8000_0000)
    requires Join(chunks) == EncodeAll(fs) + partial
    ensures reader.dispatched == fs && reader.read_buf == partial
  {
    reader := new Reader();
    EncodedFrames(fs, partial);
    assert chunks[..0] == [];
    for i := 0 to |chunks|
      invariant fresh(reader)
      invariant reader.dispatched == Frames(Join(chunks[..i])) && reader.read_buf == Left(Join(chunks[..i]))
    {
      assert chunks[..i + 1][..i] == chunks[..i];
      ghost var sofar := Join(chunks[..i]);
      JoinSplit(chunks, i + 1);
      ShortPrefix(Join(chunks[..i + 1]), Join(chunks[i + 1..]));
      ParseInTwo(sofar, chunks[i]);
      reader.OnReadyRead(chunks[i]);
    }
    assert chunks[..|chunks|] == chunks;
  }

  lemma {:induction false} JoinSplit(chunks: seq<seq<u8>>, k: nat)
    requires k <= |chunks|
    ensures Join(chunks) == Join(chunks[..k]) + Join(chunks[k..])
    decreases |chunks|
  {
    if k == |chunks| {
      assert chunks[..k] == chunks && chunks[k..] == [];
    } else {
      var n := |chunks| - 1;
      JoinSplit(chunks[..n], k);
      assert chunks[..n][..k] == chunks[..k] && chunks[..n][k..] == chunks[k..][..n - k];
    }
  }

  lemma {:induction false} ShortPrefix(a: seq<u8>, b: seq<u8>)
    requires Short(a + b)
    ensures Short(a)
    decreases |a|
  {
    if |a| >= HEADER {
      assert Length(a + b) == Length(a);
      if Whole(a) {
        FirstStable(a, b);
        ShortPrefix(After(a), b);
      }
    }
  }
}
