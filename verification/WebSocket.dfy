/** Receiving WebSocket frames.  The parser takes a stream in whatever pieces the
    network delivers and treats the payload of a frame in bulk; what it delivers depends
    on the stream alone, and so does what it sends, but for the answer to a close frame.
    Frames are those of RFC 6455, section 5.2. */
module WebSocket {
  import opened Bytes

  const FLAG_FIN: byte := 0x80
  const OP_CONTINUE: byte := 0
  const OP_TEXT: byte := 1
  const OP_BINARY: byte := 2
  const OP_CLOSE: byte := 8
  const OP_PING: byte := 9
  const OP_PONG: byte := 10
  const IS_MASKED: byte := 0x80

  const ST_FLAGS: nat := 0
  const ST_LEN0: nat := 1
  const ST_LEN1: nat := 2
  const ST_LEN2: nat := 3
  const ST_LEN8: nat := 9
  const ST_MASK1: nat := 10
  const ST_MASK4: nat := 13
  const ST_PAYLOAD: nat := 14

  const WRAP64: nat := 0x1_0000_0000_0000_0000

  /** A frame as the receive callback is given it: whether it is binary, whether more
      fragments follow, and the payload so far. */
  datatype Frame = Frame(binary: bool, more: bool, payload: seq<byte>)

  /** A connection: where the parser is in a frame, what it has delivered and sent. */
  datatype Wire = Wire(
    status: nat, flags: byte, len8: byte, len: nat, mask: seq<byte>, maskCtr: nat,
    frames: seq<Frame>, sent: seq<byte>, stopped: bool)
  {
    predicate Ok() {
      && |mask| == 4 && status <= ST_PAYLOAD && len < WRAP64
      && (status == ST_PAYLOAD && !stopped ==> len > 0 && (IsData(Opcode(flags)) ==> frames != []))
    }
  }

  function Opcode(flags: byte): byte { flags & 0x0f }

  function FrameOf(flags: byte, payload: seq<byte>): Frame
  {
    Frame(Opcode(flags) == OP_BINARY, flags & FLAG_FIN == 0, payload)
  }

  predicate IsData(op: byte) { op == OP_TEXT || op == OP_BINARY || op == OP_CONTINUE }

  /** The head of a frame the server sends. */
  function FrameHead(first: byte, len: nat): seq<byte>
  {
    if len > 65535 then
      [first, 127, 0, 0, 0, 0, ByteOf(len / 0x100_0000), ByteOf(len / 0x1_0000), ByteOf(len / 0x100), ByteOf(len)]
    else if len > 125 then [first, 126, ByteOf(len / 0x100), ByteOf(len)]
    else [first, ByteOf(len)]
  }

  function CloseFrame(reason: nat): seq<byte>
  {
    FrameHead(FLAG_FIN | OP_CLOSE, 2) + [ByteOf(reason / 256), ByteOf(reason)]
  }

  // ---------------------------------------------------------------------------
  // The answer to a close frame

  /** Byte `k` behind the head of a close frame that ends at `at`, as the receiver finds
      it: unmasked in the payload, as it is behind the payload, and from memory behind
      the segment. */
  function CloseByte(w: Wire, segment: seq<byte>, at: nat, k: nat, memory: seq<byte>): byte
    requires |w.mask| == 4 && at <= |segment| && k < 2 <= |memory|
  {
    if at + k >= |segment| then memory[at + k - |segment|]
    else if k < w.len then segment[at + k] ^ w.mask[(w.maskCtr + k) % 4]
    else segment[at + k]
  }

  /** The two bytes that are sent back as the reason. */
  function CloseBytes(w: Wire, segment: seq<byte>, at: nat, memory: seq<byte>): (two: seq<byte>)
    requires |w.mask| == 4 && at <= |segment| && 2 <= |memory|
    ensures |two| == 2
  {
    [CloseByte(w, segment, at, 0, memory), CloseByte(w, segment, at, 1, memory)]
  }

  /** What is sent at the end of a connection: a close frame is answered unless the
      server has closed first. */
  function CloseTail(closedHere: bool, flags: byte, two: seq<byte>): seq<byte>
  {
    if Opcode(flags) == OP_CLOSE && !closedHere then FrameHead(FLAG_FIN | OP_CLOSE, 2) + two else []
  }

  /** It is a close frame with a reason of two bytes. */
  lemma CloseAnswer(closedHere: bool, flags: byte, two: seq<byte>)
    ensures CloseTail(closedHere, flags, two) == if flags & 0x0f == 8 && !closedHere then [0x88, 2] + two else []
  {
    assert FLAG_FIN | OP_CLOSE == 0x88;
    assert ByteOf(2) == 2;
  }

  /** The answer does not depend on memory exactly if the segment holds both bytes. */
  lemma AnswerInSegment(w: Wire, segment: seq<byte>, at: nat)
    requires |w.mask| == 4 && at <= |segment|
    ensures at + 2 <= |segment| <==>
            forall a: seq<byte>, b: seq<byte> :: |a| == |b| == 2 ==> CloseBytes(w, segment, at, a) == CloseBytes(w, segment, at, b)
  {
    var a: seq<byte>, b: seq<byte> := [0, 0], [1, 1];
    if at + 2 > |segment| {
      assert CloseBytes(w, segment, at, a)[1] == 0 && CloseBytes(w, segment, at, b)[1] == 1;
    }
  }

  /** Then it is what the stream holds behind the head, whatever the cut. */
  lemma AnswerInStream(w: Wire, before: seq<byte>, segment: seq<byte>, behind: seq<byte>, at: nat, memory: seq<byte>)
    requires |w.mask| == 4 && at + 2 <= |segment| && |memory| == 2
    ensures CloseBytes(w, segment, at, memory) ==
            CloseBytes(w, before + segment + behind, |before| + at, memory)
  {
  }

  // ---------------------------------------------------------------------------
  // One byte at a time

  /** The seven low bits of a length byte. */
  function Low7(b: byte): (n: nat)
    ensures n < 128
  {
    (b & 127) as nat
  }

  predicate Masked(len8: byte) { len8 & IS_MASKED != 0 }

  predicate LenOver(len8: byte) { len8 & 127 >= 126 }

  predicate LenOf16(len8: byte) { len8 & 127 == 126 }

  function Shifted(len: nat, b: byte): (n: nat)
    ensures n < WRAP64
  {
    (len * 256 + Num(b)) % WRAP64
  }

  /** A byte of a frame header. */
  function Header(w: Wire, b: byte): (r: Wire)
    requires w.Ok() && w.status < ST_PAYLOAD
    ensures |r.mask| == 4 && r.status <= ST_PAYLOAD && r.len < WRAP64
    ensures (r.frames, r.sent, r.stopped) == (w.frames, w.sent, w.stopped)
  {
    if w.status == ST_FLAGS then w.(maskCtr := 0, flags := b, status := ST_LEN0)
    else if w.status == ST_LEN0 then
      if LenOver(b) then w.(len8 := b, len := 0, status := ST_LEN1)
      else w.(len8 := b, len := Low7(b), status := if Masked(b) then ST_MASK1 else ST_PAYLOAD)
    else if w.status <= ST_LEN8 then
      if (LenOf16(w.len8) && w.status == ST_LEN2) || w.status == ST_LEN8
      then w.(len := Shifted(w.len, b), status := if Masked(w.len8) then ST_MASK1 else ST_PAYLOAD)
      else w.(len := Shifted(w.len, b), status := w.status + 1)
    else w.(mask := w.mask[w.status - ST_MASK1 := b], status := w.status + 1)
  }

  /** Frames the server does not go on with: its own closing, pings that are too long,
      and data that is not masked. */
  predicate Refused(w: Wire)
  {
    || Opcode(w.flags) == OP_CLOSE
    || (Opcode(w.flags) == OP_PING && w.len > 125)
    || (IsData(Opcode(w.flags)) && !Masked(w.len8))
  }

  /** The header of a frame is complete. */
  function Begin(w: Wire): (r: Wire)
    requires |w.mask| == 4 && w.status == ST_PAYLOAD && w.len < WRAP64
    ensures r.Ok()
  {
    if Opcode(w.flags) == OP_CLOSE then w.(stopped := true)   // the answer is CloseTail
    else if Refused(w) then w.(stopped := true, sent := w.sent + CloseFrame(1002))
    else
      w.(frames := if IsData(Opcode(w.flags)) then w.frames + [FrameOf(w.flags, [])] else w.frames,
         sent := if Opcode(w.flags) == OP_PING then w.sent + FrameHead(FLAG_FIN | OP_PONG, w.len) else w.sent,
         status := if w.len == 0 then ST_FLAGS else ST_PAYLOAD)
  }

  /** Bytes unmasked from position `ctr` of the masking key on (section 5.3). */
  function Unmask(data: seq<byte>, mask: seq<byte>, ctr: nat): (r: seq<byte>)
    requires |mask| == 4
    ensures |r| == |data|
  {
    seq(|data|, j requires 0 <= j < |data| => data[j] ^ mask[(ctr + j) % 4])
  }

  /** Unmasked bytes of the payload. */
  function Taken(w: Wire, plain: seq<byte>): Wire
    requires |plain| <= w.len && (IsData(Opcode(w.flags)) ==> w.frames != [])
  {
    var n := |w.frames| - 1;
    w.(len := w.len - |plain|,
       status := if w.len == |plain| then ST_FLAGS else ST_PAYLOAD,
       frames := if IsData(Opcode(w.flags))
                 then w.frames[n := w.frames[n].(payload := w.frames[n].payload + plain)] else w.frames,
       sent := if Opcode(w.flags) == OP_PING then w.sent + plain else w.sent)
  }

  /** Bytes of the payload. */
  function Chunk(w: Wire, data: seq<byte>): (r: Wire)
    requires w.Ok() && |data| <= w.len && (IsData(Opcode(w.flags)) ==> w.frames != [])
    ensures r.Ok()
  {
    Taken(w.(maskCtr := w.maskCtr + |data|), Unmask(data, w.mask, w.maskCtr))
  }

  function Step(w: Wire, b: byte): (r: Wire)
    requires w.Ok()
    ensures r.Ok()
  {
    if w.stopped then w
    else if w.status < ST_PAYLOAD then
      var h := Header(w, b);
      if h.status == ST_PAYLOAD then Begin(h) else h
    else Chunk(w, [b])
  }

  /** A stream, byte after byte. */
  function Fold(w: Wire, stream: seq<byte>): (r: Wire)
    requires w.Ok()
    ensures r.Ok()
  {
    if stream == [] then w else Step(Fold(w, stream[..|stream| - 1]), stream[|stream| - 1])
  }

  lemma FoldConcat(w: Wire, a: seq<byte>, b: seq<byte>)
    requires w.Ok()
    ensures Fold(w, a + b) == Fold(Fold(w, a), b)
    decreases |b|
  {
    hide Step;
    if b == [] {
      assert a + b == a;
    } else {
      FoldConcat(w, a, b[..|b| - 1]);
      assert (a + b)[..|a + b| - 1] == a + b[..|b| - 1];
    }
  }

  /** A chunk taken in two parts. */
  lemma ChunkSplit(w: Wire, a: seq<byte>, b: seq<byte>)
    requires w.Ok() && |a| + |b| <= w.len && (IsData(Opcode(w.flags)) ==> w.frames != [])
    ensures Chunk(Chunk(w, a), b) == Chunk(w, a + b)
  {
    hide Unmask;
    UnmaskSplit(a, b, w.mask, w.maskCtr);
    var ua, ub := Unmask(a, w.mask, w.maskCtr), Unmask(b, w.mask, w.maskCtr + |a|);
    if IsData(Opcode(w.flags)) {
      var n := |w.frames| - 1;
      var p := w.frames[n].payload;
      assert (p + ua) + ub == p + (ua + ub);
      var f := w.frames[n];
      assert w.frames[n := f.(payload := p + ua)][n := f.(payload := p + ua + ub)] == w.frames[n := f.(payload := p + ua + ub)];
    }
    assert (w.sent + ua) + ub == w.sent + (ua + ub);
  }

  lemma UnmaskSplit(a: seq<byte>, b: seq<byte>, mask: seq<byte>, ctr: nat)
    requires |mask| == 4
    ensures Unmask(a + b, mask, ctr) == Unmask(a, mask, ctr) + Unmask(b, mask, ctr + |a|)
  {
  }

  /** Payload bytes one at a time are a chunk. */
  lemma {:induction false} FoldChunk(w: Wire, data: seq<byte>)
    requires w.Ok() && w.status == ST_PAYLOAD && !w.stopped && 0 < |data| <= w.len
    ensures Fold(w, data) == Chunk(w, data)
  {
    hide Chunk;
    var n := |data| - 1;
    if n == 0 {
      assert data[..0] == [] && data == [data[0]];
    } else {
      FoldChunk(w, data[..n]);
      ChunkSplit(w, data[..n], [data[n]]);
      ChunkStatus(w, data[..n]);
      assert data == data[..n] + [data[n]];
    }
  }

  lemma ChunkStatus(w: Wire, data: seq<byte>)
    requires w.Ok() && |data| < w.len && (IsData(Opcode(w.flags)) ==> w.frames != [])
    ensures Chunk(w, data).status == ST_PAYLOAD && Chunk(w, data).stopped == w.stopped
  {
  }

  // ---------------------------------------------------------------------------
  // The receiver

  class Websock {
    var wsStatus: nat
    var flags: byte
    var len8: byte
    var len: nat
    var mask: seq<byte>
    var maskCtr: nat
    var frameCont: bool        // the payload of the frame has been started
    var frames: seq<Frame>     // what the receive callback has been given
    var sent: seq<byte>
    var stopped: bool
    var closedHere: bool       // the server has sent a close frame

    constructor (closedHere: bool)
      ensures Valid() && State() == Wire(ST_FLAGS, 0, 0, 0, [0, 0, 0, 0], 0, [], [], false) && this.closedHere == closedHere
    {
      this.closedHere := closedHere;
      wsStatus, flags, len8, len, mask, maskCtr := ST_FLAGS, 0, 0, 0, [0, 0, 0, 0], 0;
      frameCont, frames, sent, stopped := false, [], [], false;
    }

    ghost function State(): Wire
      reads this
    {
      Wire(wsStatus, flags, len8, len, mask, maskCtr, frames, sent, stopped)
    }

    ghost predicate Valid()
      reads this
    {
      && State().Ok() && (wsStatus == ST_PAYLOAD && !stopped ==> frameCont)
      && (ST_FLAGS < wsStatus < ST_PAYLOAD ==> !frameCont)
    }

    /** Gives a chunk to the receive callback: the start of a frame, or more of it. */
    method Deliver(chunk: seq<byte>)
      requires frameCont ==> frames != []
      modifies this`frames
      ensures frames == if frameCont
                        then var n := |old(frames)| - 1; old(frames)[n := old(frames)[n].(payload := old(frames)[n].payload + chunk)]
                        else old(frames) + [FrameOf(flags, chunk)]
    {
      if frameCont {
        var n := |frames| - 1;
        frames := frames[n := frames[n].(payload := frames[n].payload + chunk)];
      } else {
        frames := frames + [FrameOf(flags, chunk)];
      }
    }

    /** Takes a byte of a frame header. */
    method HeaderByte(b: byte)
      requires Valid() && wsStatus < ST_PAYLOAD && !stopped
      modifies this`wsStatus, this`flags, this`len8, this`len, this`mask, this`maskCtr, this`frameCont
      ensures State() == Header(old(State()), b) && !stopped
      ensures if wsStatus < ST_PAYLOAD then Valid() else Parsed() && !frameCont
    {
      if wsStatus == ST_FLAGS {
        maskCtr, frameCont, flags, wsStatus := 0, false, b, ST_LEN0;
      } else if wsStatus == ST_LEN0 {
        len8 := b;
        if LenOver(len8) {
          len, wsStatus := 0, ST_LEN1;
        } else {
          len := Low7(len8);
          wsStatus := if Masked(len8) then ST_MASK1 else ST_PAYLOAD;
        }
      } else if wsStatus <= ST_LEN8 {
        len := Shifted(len, b);
        if (LenOf16(len8) && wsStatus == ST_LEN2) || wsStatus == ST_LEN8 {
          wsStatus := if Masked(len8) then ST_MASK1 else ST_PAYLOAD;
        } else {
          wsStatus := wsStatus + 1;
        }
      } else {
        mask := mask[wsStatus - ST_MASK1 := b];
        wsStatus := wsStatus + 1;
      }
    }

    /** Unmasks part of the received data in place. */
    method UnmaskInPlace(data: array<byte>, i: nat, sl: nat)
      requires i + sl <= data.Length && |mask| == 4
      modifies data, this`maskCtr
      ensures maskCtr == old(maskCtr) + sl
      ensures data[i..i + sl] == Unmask(old(data[i..i + sl]), mask, old(maskCtr))
      ensures forall k :: 0 <= k < data.Length && !(i <= k < i + sl) ==> data[k] == old(data[k])
    {
      ghost var plain := Unmask(data[i..i + sl], mask, maskCtr);
      var j := 0;
      while j < sl
        invariant j <= sl && maskCtr == old(maskCtr) + j
        invariant data[i..i + j] == plain[..j]
        invariant forall k :: 0 <= k < data.Length && !(i <= k < i + j) ==> data[k] == old(data[k])
      {
        assert plain[j] == data[i + j] ^ mask[maskCtr % 4];
        data[i + j] := data[i + j] ^ mask[maskCtr % 4];
        maskCtr := maskCtr + 1;
        j := j + 1;
      }
    }

    /** The state before the payload at hand: as it is if the payload goes on, with the
        frame begun if it starts. */
    ghost function Begun(): (w: Wire)
      requires Parsed()
      reads this
    {
      if frameCont then State() else Begin(State())
    }

    /** The header of a frame is complete. */
    ghost predicate Parsed()
      reads this
    {
      && |mask| == 4 && wsStatus == ST_PAYLOAD && len < WRAP64 && !stopped
      && (frameCont ==> State().Ok() && !Refused(State()))
    }

    /** Ends the connection if the frame is one the server does not go on with.  A close
        frame is answered with the bytes `two`. */
    method CheckHeader(two: seq<byte>)
      requires Parsed()
      modifies this`sent, this`stopped, this`closedHere
      ensures stopped <==> Refused(old(State()))
      ensures stopped ==>
                && sent == old(Begun()).sent + CloseTail(old(closedHere), flags, two)
                && frames == old(Begun()).frames && old(Begun()).stopped
      ensures !stopped ==> sent == old(sent) && !old(Begun()).stopped && closedHere == old(closedHere)
    {
      hide FrameHead, Masked, Begin, Taken, CloseFrame;
      StartTaken(State(), []);
      var op := Opcode(flags);
      if op == OP_PING {
        if len > 125 {
          if !frameCont {
            sent := sent + CloseFrame(1002);
            closedHere := true;
          }
          stopped := true;
        }
      } else if IsData(op) {
        if !Masked(len8) {
          sent := sent + CloseFrame(1002);
          closedHere, stopped := true, true;
        }
      } else if op == OP_CLOSE {
        if !closedHere {
          sent := sent + (FrameHead(FLAG_FIN | OP_CLOSE, 2) + two);
          closedHere := true;
        }
        stopped := true;
      }
    }

    /** Answers a ping or delivers data. */
    method Answer(plain: seq<byte>)
      requires Parsed() && (IsData(Opcode(flags)) && frameCont ==> frames != [])
      modifies this`sent, this`frames
      ensures frames == (if !IsData(Opcode(flags)) then old(frames)
                         else if frameCont then var n := |old(frames)| - 1; old(frames)[n := old(frames)[n].(payload := old(frames)[n].payload + plain)]
                         else old(frames) + [FrameOf(flags, plain)])
      ensures sent == (if Opcode(flags) != OP_PING then old(sent)
                       else if frameCont then old(sent) + plain
                       else old(sent) + FrameHead(FLAG_FIN | OP_PONG, len) + plain)
    {
      hide FrameHead, Opcode;
      var op := Opcode(flags);
      if op == OP_PING {
        if !frameCont {
          sent := sent + FrameHead(FLAG_FIN | OP_PONG, len);
        }
        NothingSent(sent, plain);
        if |plain| > 0 {
          sent := sent + plain;
        }
      } else if IsData(op) {
        Deliver(plain);
      }
    }

    /** Serves payload and moves on in the frame. */
    method Serve(plain: seq<byte>)
      requires Parsed() && |plain| <= len && !Refused(State())
      modifies this
      ensures closedHere == old(closedHere)
      ensures !old(Begun()).stopped && (IsData(Opcode(flags)) ==> old(Begun()).frames != []) && old(Begun()).len == old(len)
      ensures State() == Taken(old(Begun()), plain) && Valid() && !stopped
      ensures wsStatus == (if old(len) == |plain| then ST_FLAGS else ST_PAYLOAD)
      ensures wsStatus == ST_PAYLOAD ==> !Refused(State())
    {
      hide FrameHead, Begin, Taken, Opcode, IsData, Refused, More, Started;
      ghost var w := State();
      StartTaken(w, plain);
      if frameCont {
        MoreTaken(w, plain);
      }
      AnswerAndMove(plain);
      ShorterServed(w, State());
    }

    method AnswerAndMove(plain: seq<byte>)
      requires Parsed() && |plain| <= len && (IsData(Opcode(flags)) && frameCont ==> frames != [])
      modifies this`wsStatus, this`len, this`frameCont, this`frames, this`sent
      ensures len == old(len) - |plain|
      ensures wsStatus == if len == 0 then ST_FLAGS else ST_PAYLOAD
      ensures (frameCont <==> len > 0 || old(frameCont)) && (IsData(Opcode(flags)) ==> frames != [])
      ensures old(frameCont) ==> State() == More(old(State()), plain)
      ensures !old(frameCont) ==> State() == Started(old(State()), plain)
    {
      hide FrameHead, Opcode, IsData;
      Answer(plain);
      MoveOn(|plain|);
    }

    /** Moves on in the frame, or to the next one. */
    method MoveOn(n: nat)
      requires n <= len
      modifies this`wsStatus, this`len, this`frameCont
      ensures len == old(len) - n
      ensures wsStatus == if len == 0 then ST_FLAGS else old(wsStatus)
      ensures frameCont <==> len > 0 || old(frameCont)
    {
      len := len - n;
      if len == 0 {
        wsStatus := ST_FLAGS;
      } else {
        frameCont := true;
      }
    }

    /** Checks the header and serves payload whose masked bytes were `raw`; `w` is the
        state before they were unmasked. */
    method Process(plain: seq<byte>, ghost raw: seq<byte>, ghost w: Wire, two: seq<byte>)
      requires Parsed() && |raw| <= len && w == State().(maskCtr := w.maskCtr) && maskCtr == w.maskCtr + |raw|
      requires plain == Unmask(raw, mask, w.maskCtr)
      modifies this
      ensures var begun := if old(frameCont) then w else Begin(w);
              if stopped
              then begun.stopped && frames == begun.frames && sent == begun.sent + CloseTail(old(closedHere), w.flags, two)
              else
                && closedHere == old(closedHere) && Valid() && begun.Ok() && !begun.stopped && State() == Fold(begun, raw)
                && wsStatus == (if old(len) == |raw| then ST_FLAGS else ST_PAYLOAD)
                && (wsStatus == ST_PAYLOAD ==> !Refused(State()))
    {
      hide Begin, Taken, Unmask, Refused, FrameHead, IsData, Opcode, CloseFrame, CloseTail;
      CtrFree(w, maskCtr);
      BegunFacts(w);
      assert State() == w.(maskCtr := maskCtr);
      ghost var begun := if frameCont then w else Begin(w);
      assert Begun() == begun.(maskCtr := maskCtr);
      CheckHeader(two);
      if !stopped {
        Serve(plain);
        TakenIsFold(begun, raw);
      }
    }

    /** Takes all payload of the frame that is in `data` from `i` on; `memory` is what
        lies behind the segment. */
    method Payload(data: array<byte>, i: nat, memory: seq<byte>) returns (next: nat)
      requires Parsed() && i <= data.Length && |memory| == 2
      modifies this, data
      ensures i <= next <= data.Length && (next == i ==> i == data.Length || old(len) == 0)
      ensures stopped ==>
                && frames == old(Begun()).frames && old(Begun()).stopped
                && sent == old(Begun()).sent + CloseTail(old(closedHere), old(flags), CloseBytes(old(State()), old(data[..]), i, memory))
      ensures !stopped ==>
                && Valid() && old(Begun()).Ok() && State() == Fold(old(Begun()), old(data[i..next]))
                && (next < data.Length ==> wsStatus == ST_FLAGS) && closedHere == old(closedHere)
                && (wsStatus == ST_PAYLOAD ==> !Refused(State()))
      ensures forall k :: next <= k < data.Length ==> data[k] == old(data[k])
    {
      hide Begin, Taken, Refused, FrameHead, IsData, Opcode, CloseFrame, CloseTail;
      ghost var w, segment := State(), data[..];
      CtrFree(w, maskCtr);
      var sl := if data.Length - i > len then len else data.Length - i;
      next := i + sl;
      ghost var raw := data[i..next];
      UnmaskInPlace(data, i, sl);
      ghost var plain := data[i..next];
      CtrFree(w, maskCtr);
      assert State() == w.(maskCtr := maskCtr);
      var first := if i < data.Length then data[i] else memory[0];
      var second := if i + 1 < data.Length then data[i + 1] else memory[i + 1 - data.Length];
      UnmaskedBytes(w, segment, data[..], i, sl, memory);
      Process(data[i..next], raw, w, [first, second]);
    }

    /** Receives a segment of the stream.  It goes on unless a frame is refused, whose
        head ends at `at`; what has been delivered is what the bytes one by one would
        give, and so is what has been sent, but for the answer to a close frame. */
    method Recv(data: array<byte>, memory: seq<byte>) returns (more: bool, ghost at: nat)
      requires Valid() && !stopped && (wsStatus == ST_PAYLOAD ==> !Refused(State())) && |memory| == 2
      modifies this, data
      ensures more <==> !stopped
      ensures more ==> Valid() && (wsStatus == ST_PAYLOAD ==> !Refused(State())) && closedHere == old(closedHere)
      ensures more ==> State() == Fold(old(State()), old(data[..]))
      ensures !more ==> Ends(old(State()), old(data[..]), at)
      ensures !more ==>
                var w := Fold(old(State()), old(data[..]));
                w.stopped && frames == w.frames
                && sent == w.sent + CloseTail(old(closedHere), w.flags, CloseBytes(w, old(data[..]), at, memory))
    {
      hide Begin, Taken, Unmask, Refused, FrameHead, IsData, Opcode, Header, Step, Chunk, CloseTail, CloseBytes, Ends;
      ghost var stream := data[..];
      ghost var w0 := State();
      at := 0;
      var i := 0;
      while i < data.Length
        invariant i <= data.Length && !stopped && Valid() && (wsStatus == ST_PAYLOAD ==> !Refused(State()))
        invariant State() == Fold(w0, stream[..i]) && closedHere == old(closedHere)
        invariant forall k :: i <= k < data.Length ==> data[k] == stream[k]
      {
        ghost var w := State();
        ghost var start := i;
        FoldFrom(w0, stream, i, i + 1);
        assert stream[i..i + 1] == [stream[i]];
        if wsStatus != ST_PAYLOAD {
          FoldHeader(w, stream[i]);
        }
        if wsStatus != ST_PAYLOAD {
          HeaderByte(data[i]);
          i := i + 1;
        }
        if wsStatus == ST_PAYLOAD {
          var from := i;
          ghost var head := State();
          ghost var begun := Begun();
          ghost var before := data[..];
          i := Payload(data, from, memory);
          assert forall k :: from <= k < i ==> before[k] == stream[k];
          assert before[from..i] == stream[from..i];
          FoldFrom(w0, stream, from, i);
          if stopped {
            BegunFacts(head);
            SameBytes(head, begun, before, stream, from, memory);
            EndsHere(w0, stream, start, begun);
            at := from;
            return false, at;
          }
        }
      }
      assert stream[..data.Length] == stream;
      return true, at;
    }
  }

  ghost predicate StoppedBy(w: Wire, stream: seq<byte>)
    requires w.Ok()
  {
    Fold(w, stream).stopped
  }

  /** The connection ends with byte `at` of a stream. */
  ghost predicate Ends(w: Wire, stream: seq<byte>, at: nat)
    requires w.Ok()
  {
    0 < at <= |stream| && StoppedBy(w, stream[..at]) && !StoppedBy(w, stream[..at - 1])
  }

  /** The connection ends with the byte at `start`. */
  lemma EndsHere(w0: Wire, stream: seq<byte>, start: nat, begun: Wire)
    requires w0.Ok() && start < |stream| && !Fold(w0, stream[..start]).stopped
    requires begun == Fold(w0, stream[..start + 1]) && begun.stopped
    ensures Ends(w0, stream, start + 1) && Fold(w0, stream) == begun
  {
    hide Step, Fold;
    StoppedIs(w0, stream[..start]);
    StoppedIs(w0, stream[..start + 1]);
    FoldFrom(w0, stream, start + 1, |stream|);
    FoldStopped(begun, stream[start + 1..]);
    assert stream[..|stream|] == stream && stream[start + 1..|stream|] == stream[start + 1..];
  }

  /** It ends once. */
  lemma EndsOnce(w: Wire, stream: seq<byte>, a: nat, b: nat)
    requires w.Ok() && Ends(w, stream, a) && Ends(w, stream, b)
    ensures a == b
  {
    hide Step;
    if a < b {
      FoldFrom(w, stream, a, b - 1);
      FoldStopped(Fold(w, stream[..a]), stream[a..b - 1]);
    } else if b < a {
      FoldFrom(w, stream, b, a - 1);
      FoldStopped(Fold(w, stream[..b]), stream[b..a - 1]);
    }
  }

  /** What is behind the head of a frame after the payload at hand has been unmasked. */
  lemma UnmaskedBytes(w: Wire, segment: seq<byte>, after: seq<byte>, i: nat, sl: nat, memory: seq<byte>)
    requires |w.mask| == 4 && |memory| == 2 && |segment| == |after| && i + sl <= |segment|
    requires sl == if |segment| - i > w.len then w.len else |segment| - i
    requires after[i..i + sl] == Unmask(segment[i..i + sl], w.mask, w.maskCtr)
    requires forall k :: 0 <= k < |segment| && !(i <= k < i + sl) ==> after[k] == segment[k]
    ensures CloseBytes(w, segment, i, memory) ==
            [if i < |after| then after[i] else memory[0], if i + 1 < |after| then after[i + 1] else memory[i + 1 - |after|]]
  {
    hide Unmask;
    if sl > 0 {
      UnmaskAt(segment[i..i + sl], w.mask, w.maskCtr, 0);
      assert after[i] == after[i..i + sl][0];
    }
    if sl > 1 {
      UnmaskAt(segment[i..i + sl], w.mask, w.maskCtr, 1);
      assert after[i + 1] == after[i..i + sl][1];
    }
  }

  lemma UnmaskAt(data: seq<byte>, mask: seq<byte>, ctr: nat, k: nat)
    requires |mask| == 4 && k < |data|
    ensures Unmask(data, mask, ctr)[k] == data[k] ^ mask[(ctr + k) % 4]
  {
  }

  /** The bytes of the answer depend on the head of the frame and on what is behind it. */
  lemma SameBytes(w: Wire, begun: Wire, before: seq<byte>, stream: seq<byte>, at: nat, memory: seq<byte>)
    requires |w.mask| == 4 && w.mask == begun.mask && w.maskCtr == begun.maskCtr && w.len == begun.len
    requires |before| == |stream| && at <= |stream| && |memory| == 2
    requires forall k :: at <= k < |stream| ==> before[k] == stream[k]
    ensures CloseBytes(w, before, at, memory) == CloseBytes(begun, stream, at, memory)
  {
  }

  lemma ShorterServed(w: Wire, w': Wire)
    requires w'.flags == w.flags && w'.len8 == w.len8 && w'.len <= w.len && !Refused(w)
    ensures !Refused(w')
  {
  }

  lemma NothingSent(sent: seq<byte>, plain: seq<byte>)
    ensures |plain| == 0 ==> sent + plain == sent
  {
  }

  /** The masking position does not matter when a frame begins. */
  lemma CtrFree(w: Wire, c: nat)
    requires |w.mask| == 4 && w.status == ST_PAYLOAD && w.len < WRAP64
    ensures Refused(w.(maskCtr := c)) == Refused(w)
    ensures Begin(w.(maskCtr := c)) == Begin(w).(maskCtr := c)
  {
    hide FrameHead;
  }

  lemma BegunFacts(w: Wire)
    requires |w.mask| == 4 && w.status == ST_PAYLOAD && w.len < WRAP64 && !w.stopped
    ensures var b := Begin(w);
            && b.stopped == Refused(w) && b.mask == w.mask && b.maskCtr == w.maskCtr && b.len == w.len
            && b.flags == w.flags && (!b.stopped && IsData(Opcode(b.flags)) ==> b.frames != [])
            && (!b.stopped ==> b.status == if w.len == 0 then ST_FLAGS else ST_PAYLOAD)
  {
    hide FrameHead;
  }

  function Started(w: Wire, plain: seq<byte>): Wire
    requires |plain| <= w.len
  {
    w.(len := w.len - |plain|, status := if w.len == |plain| then ST_FLAGS else ST_PAYLOAD,
       frames := if IsData(Opcode(w.flags)) then w.frames + [FrameOf(w.flags, plain)] else w.frames,
       sent := if Opcode(w.flags) == OP_PING then w.sent + FrameHead(FLAG_FIN | OP_PONG, w.len) + plain else w.sent)
  }

  function More(w: Wire, plain: seq<byte>): Wire
    requires |plain| <= w.len && (IsData(Opcode(w.flags)) ==> w.frames != [])
  {
    w.(len := w.len - |plain|, status := if w.len == |plain| then ST_FLAGS else ST_PAYLOAD,
       frames := if IsData(Opcode(w.flags))
                 then var n := |w.frames| - 1; w.frames[n := w.frames[n].(payload := w.frames[n].payload + plain)]
                 else w.frames,
       sent := if Opcode(w.flags) == OP_PING then w.sent + plain else w.sent)
  }

  lemma BeginServed(w: Wire)
    requires |w.mask| == 4 && w.status == ST_PAYLOAD && w.len < WRAP64 && !Refused(w)
    ensures Begin(w) ==
            w.(frames := if IsData(Opcode(w.flags)) then w.frames + [FrameOf(w.flags, [])] else w.frames,
               sent := if Opcode(w.flags) == OP_PING then w.sent + FrameHead(FLAG_FIN | OP_PONG, w.len) else w.sent,
               status := if w.len == 0 then ST_FLAGS else ST_PAYLOAD)
  {
    hide FrameHead, Masked, CloseFrame, IsData;
  }

  lemma BeginRefused(w: Wire)
    requires |w.mask| == 4 && w.status == ST_PAYLOAD && w.len < WRAP64 && Refused(w)
    ensures Begin(w) == w.(stopped := true, sent := Begin(w).sent)
    ensures Begin(w).sent == if Opcode(w.flags) == OP_CLOSE then w.sent else w.sent + CloseFrame(1002)
  {
    hide FrameHead, Masked, CloseFrame, IsData;
  }

  /** The first payload of a frame, with what goes before it. */
  lemma StartTaken(w: Wire, plain: seq<byte>)
    requires |w.mask| == 4 && w.status == ST_PAYLOAD && w.len < WRAP64 && !w.stopped && |plain| <= w.len
    ensures Begin(w).stopped <==> Refused(w)
    ensures Begin(w).frames == (if !Refused(w) && IsData(Opcode(w.flags)) then w.frames + [FrameOf(w.flags, [])] else w.frames)
    ensures Refused(w) ==> Begin(w).sent == if Opcode(w.flags) == OP_CLOSE then w.sent else w.sent + CloseFrame(1002)
    ensures Begin(w).len == w.len && Begin(w).flags == w.flags
    ensures !Refused(w) ==> Taken(Begin(w), plain) == Started(w, plain)
  {
    hide FrameHead, Refused, CloseFrame, Opcode, IsData, Begin;
    if Refused(w) {
      BeginRefused(w);
    } else {
      BeginServed(w);
      assert [] + plain == plain;
      var f := w.frames + [FrameOf(w.flags, [])];
      assert f[|w.frames| := FrameOf(w.flags, plain)] == w.frames + [FrameOf(w.flags, plain)];
    }
  }

  /** More payload of a frame. */
  lemma MoreTaken(w: Wire, plain: seq<byte>)
    requires w.Ok() && w.status == ST_PAYLOAD && !w.stopped && |plain| <= w.len
    ensures IsData(Opcode(w.flags)) ==> w.frames != []
    ensures Taken(w, plain) == More(w, plain)
  {
  }

  lemma TakenNothing(w: Wire)
    requires w.Ok() && !w.stopped && w.status == (if w.len == 0 then ST_FLAGS else ST_PAYLOAD)
    requires IsData(Opcode(w.flags)) ==> w.frames != []
    ensures Taken(w, []) == w
  {
    if IsData(Opcode(w.flags)) {
      var n := |w.frames| - 1;
      assert w.frames[n].payload + [] == w.frames[n].payload;
    }
    assert w.sent + [] == w.sent;
  }

  /** Taking unmasked payload is reading its masked bytes one after the other. */
  lemma TakenIsFold(w: Wire, data: seq<byte>)
    requires w.Ok() && !w.stopped && |data| <= w.len && w.status == (if w.len == 0 then ST_FLAGS else ST_PAYLOAD)
    requires IsData(Opcode(w.flags)) ==> w.frames != []
    ensures Taken(w.(maskCtr := w.maskCtr + |data|), Unmask(data, w.mask, w.maskCtr)) == Fold(w, data)
  {
    hide Taken, Step, IsData, Opcode;
    if data == [] {
      TakenNothing(w);
      assert w.(maskCtr := w.maskCtr + 0) == w && Unmask(data, w.mask, w.maskCtr) == [];
    } else {
      FoldChunk(w, data);
    }
  }

  lemma FoldNothing(w: Wire)
    requires w.Ok()
    ensures Fold(w, []) == w
  {
  }

  lemma FoldOne(w: Wire, b: byte)
    requires w.Ok()
    ensures Fold(w, [b]) == Step(w, b)
  {
    hide Step;
    assert [b][..0] == [];
    assert Fold(w, []) == w;
  }

  lemma FoldHeader(w: Wire, b: byte)
    requires w.Ok() && !w.stopped && w.status < ST_PAYLOAD
    ensures Header(w, b).status < ST_PAYLOAD ==> Fold(w, [b]) == Header(w, b)
    ensures Header(w, b).status == ST_PAYLOAD ==> Fold(w, [b]) == Begin(Header(w, b))
  {
    hide Header, Begin;
    FoldOne(w, b);
  }

  /** Reading a stream up to one place and then on. */
  lemma FoldFrom(w0: Wire, stream: seq<byte>, from: nat, to: nat)
    requires w0.Ok() && from <= to <= |stream|
    ensures Fold(w0, stream[..to]) == Fold(Fold(w0, stream[..from]), stream[from..to])
  {
    hide Step;
    var a, b, c := stream[..from], stream[from..to], stream[..to];
    assert c == a + b;
    FoldConcat(w0, a, b);
  }

  lemma {:induction false} FoldStopped(w: Wire, stream: seq<byte>)
    requires w.Ok() && w.stopped
    ensures Fold(w, stream) == w
  {
    if stream != [] {
      FoldStopped(w, stream[..|stream| - 1]);
    }
  }

  // ---------------------------------------------------------------------------
  // A frame in, a frame out

  lemma FoldCons(w: Wire, b: byte, rest: seq<byte>)
    requires w.Ok()
    ensures Fold(w, [b] + rest) == Fold(Step(w, b), rest)
  {
    hide Step;
    FoldConcat(w, [b], rest);
    FoldOne(w, b);
  }

  /** The bytes of a length, most significant first, add up to it. */
  function Value(bytes: seq<byte>): nat
  {
    if bytes == [] then 0 else Shifted(Value(bytes[..|bytes| - 1]), bytes[|bytes| - 1])
  }

  /** Length bytes in state `status` up to the last one. */
  lemma {:induction false} LengthBytes(w: Wire, bytes: seq<byte>)
    requires w.Ok() && !w.stopped && w.status == ST_LEN1 && w.len == 0 && LenOver(w.len8)
    requires |bytes| < if LenOf16(w.len8) then 2 else 8
    ensures Fold(w, bytes) == w.(len := Value(bytes), status := ST_LEN1 + |bytes|)
  {
    hide LenOver, LenOf16;
    if bytes != [] {
      LengthBytes(w, bytes[..|bytes| - 1]);
    }
  }

  lemma LastLengthByte(w: Wire, bytes: seq<byte>)
    requires w.Ok() && !w.stopped && w.status == ST_LEN1 && w.len == 0 && LenOver(w.len8) && Masked(w.len8)
    requires |bytes| == if LenOf16(w.len8) then 2 else 8
    ensures Fold(w, bytes) == w.(len := Value(bytes), status := ST_MASK1)
  {
    hide LenOver, LenOf16, Masked;
    LengthBytes(w, bytes[..|bytes| - 1]);
  }

  /** Bytes of the masking key, all but the last. */
  lemma {:induction false} KeyBytes(w: Wire, bytes: seq<byte>)
    requires w.Ok() && !w.stopped && w.status == ST_MASK1 && |bytes| < 4
    ensures Fold(w, bytes) == w.(mask := bytes + w.mask[|bytes|..], status := ST_MASK1 + |bytes|)
  {
    var n := |bytes| - 1;
    if bytes == [] {
      assert [] + w.mask == w.mask;
    } else {
      KeyBytes(w, bytes[..n]);
      assert (bytes[..n] + w.mask[n..])[n := bytes[n]] == bytes + w.mask[n + 1..];
    }
  }

  /** The masking key ends the header. */
  lemma MaskBytes(w: Wire, mask: seq<byte>)
    requires w.Ok() && !w.stopped && w.status == ST_MASK1 && |mask| == 4
    ensures Fold(w, mask) == Begin(w.(mask := mask, status := ST_PAYLOAD))
  {
    hide Begin;
    KeyBytes(w, mask[..3]);
    assert (mask[..3] + w.mask[3..])[3 := mask[3]] == mask;
  }

  /** The length part of the head of a client's frame: the server's own heads, with the
      bit that says a masking key follows. */
  function ClientHead(flags: byte, len: nat): (h: seq<byte>)
    ensures |h| >= 2
  {
    var h := FrameHead(flags, len);
    h[1 := h[1] | IS_MASKED]
  }

  /** A frame as a client sends it (section 5.2), its payload masked (section 5.3). */
  function ClientFrame(flags: byte, mask: seq<byte>, payload: seq<byte>): seq<byte>
    requires |mask| == 4
  {
    ClientHead(flags, |payload|) + mask + Unmask(payload, mask, 0)
  }

  lemma SecondByte(len: nat)
    ensures var b := (if len > 65535 then 127 else if len > 125 then 126 else ByteOf(len)) | IS_MASKED;
            && Masked(b)
            && (LenOver(b) <==> len > 125) && (LenOf16(b) <==> 125 < len <= 65535)
            && (len <= 125 ==> Low7(b) == len)
  {
    hide ByteOf, Masked, LenOver, LenOf16, Low7;
    LongLength();
    if len <= 125 {
      ByteValue(len);
      SmallLength(ByteOf(len), len);
    }
  }

  lemma LongLength()
    ensures Masked(127 | IS_MASKED) && LenOver(127 | IS_MASKED) && !LenOf16(127 | IS_MASKED)
    ensures Masked(126 | IS_MASKED) && LenOver(126 | IS_MASKED) && LenOf16(126 | IS_MASKED)
  {
  }

  lemma SmallLength(b: byte, len: nat)
    requires Num(b) == len <= 125
    ensures Masked(b | IS_MASKED) && !LenOver(b | IS_MASKED) && !LenOf16(b | IS_MASKED) && Low7(b | IS_MASKED) == len
  {
    assert b <= 125;
    SmallBits(b);
  }

  lemma SmallBits(b: byte)
    requires b <= 125
    ensures (b | IS_MASKED) & IS_MASKED != 0 && (b | IS_MASKED) & 127 == b
  {
  }

  lemma ValueNext(bytes: seq<byte>, b: byte)
    ensures Value(bytes + [b]) == Shifted(Value(bytes), b)
  {
    hide Shifted;
    assert (bytes + [b])[..|bytes|] == bytes;
  }

  lemma ValueOfTwo(a: byte, b: byte)
    ensures Value([a, b]) == Shifted(Shifted(0, a), b)
  {
    hide Shifted;
    ValueNext([], a);
    ValueNext([a], b);
    assert [] + [a] == [a] && [a] + [b] == [a, b];
  }

  lemma ValueOfMore(bytes: seq<byte>, a: byte, b: byte)
    ensures Value(bytes + [a, b]) == Shifted(Shifted(Value(bytes), a), b)
  {
    hide Shifted;
    ValueNext(bytes, a);
    ValueNext(bytes + [a], b);
    assert bytes + [a] + [b] == bytes + [a, b];
  }

  lemma ShiftedTwice(v: nat, n: nat)
    requires v < 0x1_0000_0000
    ensures Shifted(Shifted(v, ByteOf(n / 0x100)), ByteOf(n)) == v * 0x1_0000 + n % 0x1_0000
  {
    hide ByteOf, Num;
    ByteValue(n / 0x100);
    ByteValue(n);
    TwoDigits(n);
    assert Shifted(v, ByteOf(n / 0x100)) == v * 256 + n / 0x100 % 256;
  }

  lemma TwoDigits(n: nat)
    ensures n / 0x100 % 256 * 256 + n % 256 == n % 0x1_0000
  {
    assert n / 0x100 == n / 0x1_0000 * 256 + n / 0x100 % 256;
  }

  lemma Value16(len: nat)
    requires len <= 65535
    ensures Value([ByteOf(len / 0x100), ByteOf(len)]) == len
  {
    hide ByteOf, Shifted;
    ValueOfTwo(ByteOf(len / 0x100), ByteOf(len));
    ShiftedTwice(0, len);
  }

  lemma ZeroBytes()
    ensures Value([0, 0, 0, 0]) == 0
  {
    hide Shifted;
    var z: seq<byte> := [0, 0];
    ShiftedZero();
    ValueOfTwo(0, 0);
    assert Value(z) == 0;
    ValueOfMore(z, 0, 0);
    assert z + [0, 0] == [0, 0, 0, 0];
    assert Value(z + [0, 0]) == 0;
  }

  lemma ShiftedZero()
    ensures Shifted(0, 0) == 0
  {
  }

  lemma Value64(len: nat)
    requires len < 0x1_0000_0000
    ensures Value([0, 0, 0, 0, ByteOf(len / 0x100_0000), ByteOf(len / 0x1_0000), ByteOf(len / 0x100), ByteOf(len)]) == len
  {
    hide ByteOf, Shifted;
    var b3, b2, b1, b0 := ByteOf(len / 0x100_0000), ByteOf(len / 0x1_0000), ByteOf(len / 0x100), ByteOf(len);
    ZeroBytes();
    ValueOfMore([0, 0, 0, 0], b3, b2);
    ValueOfMore([0, 0, 0, 0, b3, b2], b1, b0);
    assert [0, 0, 0, 0] + [b3, b2] == [0, 0, 0, 0, b3, b2];
    assert [0, 0, 0, 0, b3, b2] + [b1, b0] == [0, 0, 0, 0, b3, b2, b1, b0];
    assert len / 0x1_0000 / 0x100 == len / 0x100_0000;
    ShiftedTwice(0, len / 0x1_0000);
    ShiftedTwice(len / 0x1_0000, len);
  }

  /** The flags byte and the first length byte. */
  lemma FirstTwo(w: Wire, flags: byte, b: byte)
    requires w.Ok() && !w.stopped && w.status == ST_FLAGS && Masked(b)
    ensures Fold(w, [flags, b]) ==
            if LenOver(b) then w.(maskCtr := 0, flags := flags, len8 := b, len := 0, status := ST_LEN1)
            else w.(maskCtr := 0, flags := flags, len8 := b, len := Low7(b), status := ST_MASK1)
  {
    FoldCons(w, flags, [b]);
    assert [flags, b] == [flags] + [b];
    FoldOne(Step(w, flags), b);
  }

  /** The parser reads from a head the length the head was made for: reading heads is
      the inverse of sending them. */
  lemma HeadParsed(w: Wire, flags: byte, len: nat)
    requires w.Ok() && !w.stopped && w.status == ST_FLAGS && len < 0x1_0000_0000
    ensures var h := ClientHead(flags, len);
            Fold(w, h) == w.(maskCtr := 0, flags := flags, len8 := h[1], len := len, status := ST_MASK1) && Masked(h[1])
  {
    hide ByteOf, Masked, LenOver, LenOf16, Step, Low7;
    SecondByte(len);
    var h := ClientHead(flags, len);
    FirstTwo(w, flags, h[1]);
    var w2 := Fold(w, [flags, h[1]]);
    FoldConcat(w, [flags, h[1]], h[2..]);
    assert h == [flags, h[1]] + h[2..];
    if len > 65535 {
      Value64(len);
      LastLengthByte(w2, h[2..]);
    } else if len > 125 {
      Value16(len);
      LastLengthByte(w2, h[2..]);
    } else {
      assert h[2..] == [];
      assert Fold(w2, []) == w2;
    }
  }

  lemma UnmaskTwice(data: seq<byte>, mask: seq<byte>, ctr: nat)
    requires |mask| == 4
    ensures Unmask(Unmask(data, mask, ctr), mask, ctr) == data
  {
    forall j | 0 <= j < |data| ensures (data[j] ^ mask[(ctr + j) % 4]) ^ mask[(ctr + j) % 4] == data[j] {
      XorTwice(data[j], mask[(ctr + j) % 4]);
    }
  }

  lemma XorTwice(a: byte, b: byte)
    ensures (a ^ b) ^ b == a
  {
  }

  /** A number written most significant byte first. */
  function Digits(bytes: seq<byte>): nat
  {
    if bytes == [] then 0 else 256 * Digits(bytes[..|bytes| - 1]) + Num(bytes[|bytes| - 1])
  }

  lemma {:induction false} DigitsBound(bytes: seq<byte>)
    ensures Digits(bytes) < Pow256(|bytes|)
  {
    if bytes != [] {
      DigitsBound(bytes[..|bytes| - 1]);
    }
  }

  lemma EightBytes()
    ensures Pow256(8) == WRAP64
  {
    assert Pow256(4) == 0x1_0000_0000;
  }

  lemma Pow256Mono(k: nat, n: nat)
    requires k <= n
    ensures Pow256(k) <= Pow256(n)
  {
    if k < n {
      Pow256Mono(k, n - 1);
    }
  }

  /** The length bytes do not wrap around. */
  lemma {:induction false} DigitsRead(bytes: seq<byte>)
    requires |bytes| <= 8
    ensures Value(bytes) == Digits(bytes) < WRAP64
  {
    hide Pow256, Num;
    DigitsBound(bytes);
    EightBytes();
    Pow256Mono(|bytes|, 8);
    if bytes != [] {
      DigitsRead(bytes[..|bytes| - 1]);
    }
  }

  /** A frame of section 5.2: the flags, the length byte with the mask bit, the longer forms
      of the length, the masking key if the mask bit is set, and the data. */
  ghost predicate IsFrame(stream: seq<byte>, flags: byte, len8: byte, longer: seq<byte>, key: seq<byte>, data: seq<byte>)
  {
    var low := (len8 & 0x7f) as nat;
    && stream == [flags, len8] + longer + key + data
    && |longer| == (if low < 126 then 0 else if low == 126 then 2 else 8)
    && |key| == (if len8 & 0x80 != 0 then 4 else 0)
    && |data| == if low < 126 then low else Digits(longer)
  }

  /** Where the head of a frame leads. */
  function HeadDone(w: Wire, flags: byte, len8: byte, len: nat, key: seq<byte>): Wire
    requires |w.mask| == 4
  {
    w.(status := ST_PAYLOAD, flags := flags, len8 := len8, len := len, maskCtr := 0, mask := if key == [] then w.mask else key)
  }

  lemma LengthForms(len8: byte)
    ensures Masked(len8) <==> len8 & 0x80 != 0
    ensures (len8 & 0x7f) as nat == Low7(len8)
    ensures LenOver(len8) <==> Low7(len8) >= 126
    ensures LenOf16(len8) <==> Low7(len8) == 126
  {
    SmallByte(126);
    var b := len8 & 127;
    assert b >= 126 <==> b as nat >= 126;
    assert b == 126 <==> b as nat == 126;
  }

  /** Flags, length byte and longer length: then comes the key, or the frame begins. */
  lemma LengthRead(w: Wire, flags: byte, len8: byte, longer: seq<byte>, len: nat)
    requires w.Ok() && !w.stopped && w.status == ST_FLAGS
    requires |longer| == (if LenOver(len8) then if LenOf16(len8) then 2 else 8 else 0)
    requires len == (if LenOver(len8) then Digits(longer) else Low7(len8)) < WRAP64
    ensures var h := HeadDone(w, flags, len8, len, []);
            Fold(w, [flags, len8] + longer) == if Masked(len8) then h.(status := ST_MASK1) else Begin(h)
  {
    hide Step, Begin, Masked, LenOver, LenOf16, Low7, Digits, Value;
    var w1 := w.(maskCtr := 0, flags := flags, status := ST_LEN0);
    FoldConcat(w, [flags, len8], longer);
    FoldCons(w, flags, [len8]);
    assert [flags, len8] == [flags] + [len8];
    assert Step(w, flags) == w1 by {
      FoldHeader(w, flags);
      FoldOne(w, flags);
    }
    FoldHeader(w1, len8);
    if LenOver(len8) {
      var w2 := w1.(len8 := len8, len := 0, status := ST_LEN1);
      var n := |longer| - 1;
      LengthBytes(w2, longer[..n]);
      FoldConcat(w2, longer[..n], [longer[n]]);
      assert longer == longer[..n] + [longer[n]];
      FoldHeader(Fold(w2, longer[..n]), longer[n]);
      ValueNext(longer[..n], longer[n]);
      DigitsRead(longer);
    } else {
      assert longer == [];
      FoldNothing(Fold(w, [flags, len8]));
    }
  }

  /** The whole head. */
  lemma HeadRead(w: Wire, stream: seq<byte>, flags: byte, len8: byte, longer: seq<byte>, key: seq<byte>, data: seq<byte>)
    requires w.Ok() && !w.stopped && w.status == ST_FLAGS && IsFrame(stream, flags, len8, longer, key, data)
    ensures |data| < WRAP64
    ensures Fold(w, [flags, len8] + longer + key) == Begin(HeadDone(w, flags, len8, |data|, key))
  {
    hide Begin, Masked, LenOver, LenOf16, Low7, Digits, Value, Step;
    LengthForms(len8);
    DigitsRead(longer);
    LengthRead(w, flags, len8, longer, |data|);
    FoldConcat(w, [flags, len8] + longer, key);
    if key == [] {
      FoldNothing(Fold(w, [flags, len8] + longer));
    } else {
      MaskBytes(HeadDone(w, flags, len8, |data|, []).(status := ST_MASK1), key);
    }
  }

  /** A frame is received: text, binary and continuation frames are delivered with their
      payload, a ping is answered with it, a close frame ends the connection, and so do
      data that is not masked and pings that are too long, which are answered with a close
      frame for reason 1002; other frames leave no trace.  Data that is not masked is
      unmasked all the same, with the key of the frame before. */
  lemma FrameReceived(w: Wire, stream: seq<byte>, flags: byte, len8: byte, longer: seq<byte>, key: seq<byte>, data: seq<byte>,
                      payload: seq<byte>)
    requires w.Ok() && !w.stopped && w.status == ST_FLAGS && IsFrame(stream, flags, len8, longer, key, data)
    requires var k := if key == [] then w.mask else key;
             |payload| == |data| && forall j :: 0 <= j < |data| ==> data[j] == payload[j] ^ k[j % 4]
    ensures var r, op, n := Fold(w, stream), flags & 0x0f, |payload|;
            var isData, masked := op == 0 || op == 1 || op == 2, len8 & 0x80 != 0;
            if op == 8 then r.stopped && r.frames == w.frames && r.sent == w.sent
            else if (isData && !masked) || (op == 9 && n > 125) then
              r.stopped && r.frames == w.frames && r.sent == w.sent + [0x88, 2, 0x03, 0xea]
            else
              && r.Ok() && !r.stopped && r.status == ST_FLAGS
              && r.frames == (if isData then w.frames + [Frame(op == 2, flags & 0x80 == 0, payload)] else w.frames)
              && r.sent == if op == 9 then w.sent + [0x8a, n as byte] + payload else w.sent
  {
    hide Begin, Masked, Step, Started, HeadDone, Unmask, FrameHead, CloseFrame;
    HeadRead(w, stream, flags, len8, longer, key, data);
    var h := HeadDone(w, flags, len8, |data|, key);
    HeadDoneIs(w, flags, len8, |data|, key);
    FoldConcat(w, [flags, len8] + longer + key, data);
    LengthForms(len8);
    if Refused(h) {
      BegunFacts(h);
      BeginRefused(h);
      FoldStopped(Begin(h), data);
      ReasonBytes();
    } else {
      PayloadServed(h, data, payload);
      StartedIs(h, payload);
    }
  }

  lemma HeadDoneIs(w: Wire, flags: byte, len8: byte, len: nat, key: seq<byte>)
    requires |w.mask| == 4 && len < WRAP64 && (|key| == 0 || |key| == 4) && !w.stopped
    ensures var h := HeadDone(w, flags, len8, len, key);
            && |h.mask| == 4 && h.status == ST_PAYLOAD && h.flags == flags && h.len8 == len8 && h.len == len && h.maskCtr == 0
            && h.mask == (if key == [] then w.mask else key) && !h.stopped && h.frames == w.frames && h.sent == w.sent
  {
  }

  /** The close frame for reason 1002. */
  lemma ReasonBytes()
    ensures CloseFrame(1002) == [0x88, 2, 0x03, 0xea]
  {
    assert (1002 / 256) % 256 == 3 && 1002 % 256 == 234;
    assert ByteOf(3) == 3 && ByteOf(1002) == 0xea && ByteOf(2) == 2;
    assert ByteOf(1002 / 256) == 3;
    assert FLAG_FIN | OP_CLOSE == 0x88;
  }

  lemma PayloadServed(h: Wire, data: seq<byte>, payload: seq<byte>)
    requires |h.mask| == 4 && h.status == ST_PAYLOAD && h.len == |data| < WRAP64 && h.maskCtr == 0 && !h.stopped && !Refused(h)
    requires |payload| == |data| && forall j :: 0 <= j < |data| ==> data[j] == payload[j] ^ h.mask[j % 4]
    ensures Begin(h).Ok() && Fold(Begin(h), data) == Started(h.(maskCtr := |data|), payload)
    ensures Fold(Begin(h), data).Ok()
  {
    hide Begin, Taken, Unmask, FrameHead, IsData, Masked, Step, Opcode, Refused;
    BegunFacts(h);
    var h' := h.(maskCtr := |data|);
    CtrFree(h, |data|);
    StartTaken(h', payload);
    UnmaskBack(data, h.mask, payload);
    TakenIsFold(Begin(h), data);
  }

  lemma UnmaskBack(data: seq<byte>, mask: seq<byte>, payload: seq<byte>)
    requires |mask| == 4 && |payload| == |data| && forall j :: 0 <= j < |data| ==> data[j] == payload[j] ^ mask[j % 4]
    ensures Unmask(data, mask, 0) == payload
  {
    forall j | 0 <= j < |data| ensures data[j] ^ mask[(0 + j) % 4] == payload[j] {
      XorTwice(payload[j], mask[j % 4]);
    }
  }

  lemma StartedIs(h: Wire, payload: seq<byte>)
    requires h.len == |payload| && !Refused(h) && |h.mask| == 4
    ensures var r, op := Started(h.(maskCtr := |payload|), payload), h.flags & 0x0f;
            && r.stopped == h.stopped && r.status == ST_FLAGS && op != 8 && !(op == 9 && |payload| > 125)
            && !((op == 0 || op == 1 || op == 2) && !Masked(h.len8))
            && r.frames == (if op == 0 || op == 1 || op == 2 then h.frames + [Frame(op == 2, h.flags & 0x80 == 0, payload)] else h.frames)
            && r.sent == if op == 9 then h.sent + [0x8a, |payload| as byte] + payload else h.sent
  {
    assert FLAG_FIN | OP_PONG == 0x8a;
  }

  function Concat(segments: seq<seq<byte>>): seq<byte>
  {
    if segments == [] then [] else Concat(segments[..|segments| - 1]) + segments[|segments| - 1]
  }

  const START: Wire := Wire(ST_FLAGS, 0, 0, 0, [0, 0, 0, 0], 0, [], [], false)

  /** The length of the segments before number `m`. */
  function Before(segments: seq<seq<byte>>, m: nat): nat
    requires m <= |segments|
  {
    |Concat(segments[..m])|
  }

  /** Receives a stream cut into segments; `memory` is what lies behind each of them.  What
      is delivered depends on the stream alone, and so does what is sent, but for the
      answer to a close frame: if its head ends at `at` in segment `m`, the answer holds
      the two bytes behind it, from that segment or from memory. */
  method Receive(segments: seq<seq<byte>>, memory: seq<seq<byte>>, closedHere: bool)
    returns (frames: seq<Frame>, sent: seq<byte>, ghost m: nat, ghost at: nat)
    requires |memory| == |segments| && forall i :: 0 <= i < |memory| ==> |memory[i]| == 2
    ensures frames == Fold(START, Concat(segments)).frames
    ensures !Fold(START, Concat(segments)).stopped ==> sent == Fold(START, Concat(segments)).sent
    ensures var w := Fold(START, Concat(segments));
            w.stopped ==>
                  && m < |segments| && at <= |segments[m]| && Ends(START, Concat(segments), Before(segments, m) + at) && at > 0
                  && sent == w.sent + CloseTail(closedHere, w.flags, CloseBytes(w, segments[m], at, memory[m]))
  {
    hide Step, Fold, CloseBytes, CloseTail, Ends, Refused;
    var ws := new Websock(closedHere);
    m, at := 0, 0;
    FoldNothing(START);
    assert segments[..0] == [];
    var i := 0;
    while i < |segments|
      invariant i <= |segments| && fresh(ws) && ws.Valid() && !ws.stopped && ws.closedHere == closedHere
      invariant ws.wsStatus == ST_PAYLOAD ==> !Refused(ws.State())
      invariant ws.State() == Fold(START, Concat(segments[..i]))
    {
      ConcatNext(segments, i);
      var data := new byte[|segments[i]|](k requires 0 <= k < |segments[i]| => segments[i][k]);
      assert data[..] == segments[i];
      FoldConcat(START, Concat(segments[..i]), segments[i]);
      var more;
      more, at := ws.Recv(data, memory[i]);
      if !more {
        StoppedForGood(START, segments, i + 1);
        EndsWhole(START, segments, i, at);
        m := i;
        return ws.frames, ws.sent, m, at;
      }
      i := i + 1;
    }
    assert segments[..i] == segments;
    return ws.frames, ws.sent, m, at;
  }

  /** The end of a connection in a segment is its end in the stream. */
  lemma EndsWhole(w0: Wire, segments: seq<seq<byte>>, m: nat, at: nat)
    requires w0.Ok() && m < |segments| && Ends(Fold(w0, Concat(segments[..m])), segments[m], at)
    ensures 0 < at <= |segments[m]| && Ends(w0, Concat(segments), Before(segments, m) + at)
  {
    hide Step, Fold, Concat, Ends;
    var front, stream, seg := Concat(segments[..m]), Concat(segments), segments[m];
    EndsInside(Fold(w0, front), seg, at);
    PrefixNext(segments, m);
    EndsAfter(w0, front, seg, stream, at);
  }

  lemma EndsInside(w: Wire, stream: seq<byte>, at: nat)
    requires w.Ok() && Ends(w, stream, at)
    ensures 0 < at <= |stream|
  {
  }

  lemma ConcatNext(segments: seq<seq<byte>>, m: nat)
    requires m < |segments|
    ensures Concat(segments[..m + 1]) == Concat(segments[..m]) + segments[m]
  {
    assert segments[..m + 1][..m] == segments[..m];
  }

  lemma EndsAfter(w0: Wire, front: seq<byte>, seg: seq<byte>, stream: seq<byte>, at: nat)
    requires w0.Ok() && Ends(Fold(w0, front), seg, at)
    requires |front| + |seg| <= |stream| && stream[..|front| + |seg|] == front + seg
    ensures Ends(w0, stream, |front| + at)
  {
    hide Fold, StoppedBy;
    StoppedAfter(w0, front, seg, stream, at);
    StoppedAfter(w0, front, seg, stream, at - 1);
  }

  lemma StoppedAfter(w0: Wire, front: seq<byte>, seg: seq<byte>, stream: seq<byte>, at: nat)
    requires w0.Ok() && at <= |seg| && |front| + |seg| <= |stream| && stream[..|front| + |seg|] == front + seg
    ensures StoppedBy(w0, stream[..|front| + at]) <==> StoppedBy(Fold(w0, front), seg[..at])
  {
    hide Fold;
    PrefixOf(front, seg, stream, at);
    FoldConcat(w0, front, seg[..at]);
  }

  lemma PrefixOf(front: seq<byte>, seg: seq<byte>, stream: seq<byte>, at: nat)
    requires at <= |seg| && |front| + |seg| <= |stream| && stream[..|front| + |seg|] == front + seg
    ensures stream[..|front| + at] == front + seg[..at]
  {
    assert stream[..|front| + at] == stream[..|front| + |seg|][..|front| + at];
  }

  lemma PrefixNext(segments: seq<seq<byte>>, m: nat)
    requires m < |segments|
    ensures var part := Concat(segments[..m]) + segments[m];
            |part| <= |Concat(segments)| && Concat(segments)[..|part|] == part
  {
    hide Concat;
    ConcatNext(segments, m);
    Prefix(segments, m + 1);
  }

  lemma {:induction false} Prefix(segments: seq<seq<byte>>, n: nat)
    requires n <= |segments|
    ensures Before(segments, n) <= |Concat(segments)| && Concat(segments)[..Before(segments, n)] == Concat(segments[..n])
    decreases |segments|
  {
    if n == |segments| {
      assert segments[..n] == segments;
    } else {
      var k := |segments| - 1;
      assert segments[..k][..n] == segments[..n];
      Prefix(segments[..k], n);
    }
  }

  /** Two cuts of one stream, each with both bytes behind the head of the close frame in
      the segment where the head ends, give the same answer. */
  lemma SameAnswer(w: Wire, s1: seq<seq<byte>>, m1: nat, a1: nat, s2: seq<seq<byte>>, m2: nat, a2: nat, mem1: seq<byte>, mem2: seq<byte>)
    requires |w.mask| == 4 && Concat(s1) == Concat(s2) && |mem1| == |mem2| == 2
    requires m1 < |s1| && a1 + 2 <= |s1[m1]| && Ends(START, Concat(s1), Before(s1, m1) + a1)
    requires m2 < |s2| && a2 + 2 <= |s2[m2]| && Ends(START, Concat(s2), Before(s2, m2) + a2)
    ensures CloseBytes(w, s1[m1], a1, mem1) == CloseBytes(w, s2[m2], a2, mem2)
  {
    hide Fold;
    EndsOnce(START, Concat(s1), Before(s1, m1) + a1, Before(s2, m2) + a2);
    InStream(w, s1, m1, a1, mem1);
    InStream(w, s2, m2, a2, mem2);
    InMemory(w, Concat(s1), Before(s1, m1) + a1, mem1, mem2);
  }

  lemma InStream(w: Wire, segments: seq<seq<byte>>, m: nat, at: nat, memory: seq<byte>)
    requires |w.mask| == 4 && m < |segments| && at + 2 <= |segments[m]| && |memory| == 2
    ensures Before(segments, m) + at + 2 <= |Concat(segments)|
    ensures CloseBytes(w, segments[m], at, memory) == CloseBytes(w, Concat(segments), Before(segments, m) + at, memory)
  {
    hide Concat, CloseBytes;
    var front := Concat(segments[..m]);
    PrefixNext(segments, m);
    var behind := Concat(segments)[|front| + |segments[m]|..];
    TakeDrop(Concat(segments), front + segments[m]);
    AnswerInStream(w, front, segments[m], behind, at, memory);
  }

  lemma TakeDrop(stream: seq<byte>, part: seq<byte>)
    requires |part| <= |stream| && stream[..|part|] == part
    ensures stream == part + stream[|part|..]
  {
  }

  lemma InMemory(w: Wire, stream: seq<byte>, at: nat, a: seq<byte>, b: seq<byte>)
    requires |w.mask| == 4 && at + 2 <= |stream| && |a| == |b| == 2
    ensures CloseBytes(w, stream, at, a) == CloseBytes(w, stream, at, b)
  {
  }

  /** A close frame with a reason of two bytes, received whole and cut behind its head:
      the answers are the reason and what memory happens to hold. */
  method CutClose(mask: seq<byte>, reason: seq<byte>, memory: seq<byte>) returns (whole: seq<byte>, cut: seq<byte>)
    requires |mask| == 4 && |reason| == |memory| == 2
    ensures whole == [0x88, 2] + reason
    ensures cut == [0x88, 2] + memory
  {
    hide Step, Fold, Begin, Unmask, ClientHead, FrameHead, Opcode, Ends, CloseBytes, Concat, Before, ClientFrame;
    var flags := FLAG_FIN | OP_CLOSE;
    var head := ClientHead(flags, 2) + mask;
    var stream := ClientFrame(flags, mask, reason);
    var masked := Unmask(reason, mask, 0);
    FrameParts(flags, mask, reason);
    CloseParsed(flags, mask, masked);
    ghost var w := Fold(START, stream);
    var frames;
    ghost var m, at;
    OneSegment(stream);
    frames, whole, m, at := Receive([stream], [memory], false);
    EndsOnce(START, stream, Before([stream], m) + at, |head|);
    assert at == |head|;
    ReasonRead(w, head, reason, mask, memory);
    TwoSegments(head, masked);
    frames, cut, m, at := Receive([head, masked], [memory, memory], false);
    EndsOnce(START, stream, Before([head, masked], m) + at, |head|);
    assert m == 0 && at == |head|;
    CloseAnswer(false, flags, reason);
    CloseAnswer(false, flags, memory);
    CloseFromMemory(w, head, memory);
  }

  lemma FrameParts(flags: byte, mask: seq<byte>, payload: seq<byte>)
    requires |mask| == 4
    ensures ClientFrame(flags, mask, payload) == ClientHead(flags, |payload|) + mask + Unmask(payload, mask, 0)
  {
  }

  lemma CloseFromMemory(w: Wire, head: seq<byte>, memory: seq<byte>)
    requires |w.mask| == 4 && |memory| == 2
    ensures CloseBytes(w, head, |head|, memory) == memory
  {
  }

  lemma OneSegment(stream: seq<byte>)
    ensures Concat([stream]) == stream && Before([stream], 0) == 0
  {
    assert [stream][..0] == [];
  }

  lemma TwoSegments(a: seq<byte>, b: seq<byte>)
    ensures Concat([a, b]) == a + b && Before([a, b], 0) == 0 && Before([a, b], 1) == |a|
  {
    assert [a, b][..1] == [a] && [a, b][..0] == [];
    OneSegment(a);
  }

  lemma ReasonRead(w: Wire, head: seq<byte>, reason: seq<byte>, mask: seq<byte>, memory: seq<byte>)
    requires |mask| == 4 && |reason| == |memory| == 2 && w.mask == mask && w.maskCtr == 0 && w.len == 2
    ensures CloseBytes(w, head + Unmask(reason, mask, 0), |head|, memory) == reason
  {
    hide Unmask, CloseBytes;
    MaskedReason(reason, mask);
    CloseTwo(w, head, reason[0] ^ mask[0], reason[1] ^ mask[1], memory);
    XorTwice(reason[0], mask[0]);
    XorTwice(reason[1], mask[1]);
  }

  lemma MaskedReason(reason: seq<byte>, mask: seq<byte>)
    requires |mask| == 4 && |reason| == 2
    ensures Unmask(reason, mask, 0) == [reason[0] ^ mask[0], reason[1] ^ mask[1]]
  {
    hide Unmask;
    UnmaskAt(reason, mask, 0, 0);
    UnmaskAt(reason, mask, 0, 1);
  }

  lemma CloseTwo(w: Wire, head: seq<byte>, a: byte, b: byte, memory: seq<byte>)
    requires |memory| == 2 && |w.mask| == 4 && w.maskCtr == 0 && w.len == 2
    ensures CloseBytes(w, head + [a, b], |head|, memory) == [a ^ w.mask[0], b ^ w.mask[1]]
  {
    var segment := head + [a, b];
    assert segment[|head|] == a && segment[|head| + 1] == b;
  }

  /** The head of a close frame ends the connection. */
  lemma CloseParsed(flags: byte, mask: seq<byte>, masked: seq<byte>)
    requires |mask| == 4 && |masked| == 2 && flags == FLAG_FIN | OP_CLOSE
    ensures var head := ClientHead(flags, 2) + mask;
            var w := Fold(START, head + masked);
            && Ends(START, head + masked, |head|) && w.stopped && w.sent == [] && Opcode(w.flags) == OP_CLOSE
            && w.mask == mask && w.maskCtr == 0 && w.len == 2 && w.frames == []
  {
    hide Step, Fold, FrameHead, ClientHead, Begin, StoppedBy, Opcode;
    var h := ClientHead(flags, 2);
    HeadParsed(START, flags, 2);
    CloseOpcode(flags);
    var w1 := Fold(START, h);
    CloseBegun(w1, mask);
    FoldConcat(START, h, mask);
    FoldConcat(START, h, mask[..3]);
    StoppedIs(START, h + mask);
    StoppedIs(START, h + mask[..3]);
    var stream := h + mask + masked;
    assert stream[..|h| + 4] == h + mask;
    assert stream[..|h| + 3] == h + mask[..3];
    FoldConcat(START, h + mask, masked);
    FoldStopped(Fold(START, h + mask), masked);
  }

  lemma StoppedIs(w: Wire, stream: seq<byte>)
    requires w.Ok()
    ensures StoppedBy(w, stream) == Fold(w, stream).stopped
  {
  }

  /** The masking key of a close frame ends the connection with its last byte. */
  lemma CloseBegun(w: Wire, mask: seq<byte>)
    requires w.Ok() && !w.stopped && w.status == ST_MASK1 && |mask| == 4 && Opcode(w.flags) == OP_CLOSE
    ensures !Fold(w, mask[..3]).stopped
    ensures Fold(w, mask) == w.(mask := mask, status := ST_PAYLOAD, stopped := true)
  {
    hide Step, Fold, Opcode;
    KeyBytes(w, mask[..3]);
    MaskBytes(w, mask);
  }

  lemma CloseOpcode(flags: byte)
    requires flags == FLAG_FIN | OP_CLOSE
    ensures Opcode(flags) == OP_CLOSE
  {
  }

  lemma {:induction false} StoppedForGood(w0: Wire, segments: seq<seq<byte>>, n: nat)
    requires w0.Ok() && n <= |segments| && Fold(w0, Concat(segments[..n])).stopped
    ensures Fold(w0, Concat(segments)) == Fold(w0, Concat(segments[..n]))
    decreases |segments|
  {
    hide Step;
    if n == |segments| {
      assert segments[..n] == segments;
    } else {
      var m := |segments| - 1;
      assert segments[..m][..n] == segments[..n];
      StoppedForGood(w0, segments[..m], n);
      FoldConcat(w0, Concat(segments[..m]), segments[m]);
      FoldStopped(Fold(w0, Concat(segments[..m])), segments[m]);
    }
  }
}
