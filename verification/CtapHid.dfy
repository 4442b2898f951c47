/** CTAPHID: messages cut into 64-byte frames, and put together again. */
module CtapHid {
  import opened Bytes
  import opened Options

  type Frame = seq<byte>

  const CANCEL: byte := 0x91

  /** Channel identifiers, in a frame and as numbers. */
  function CidBytes(cid: nat): (r: seq<byte>)
    ensures |r| == 4
  {
    [cid / 0x100_0000 % 256, cid / 0x1_0000 % 256, cid / 256 % 256, cid % 256]
  }

  function CidOf(f: Frame): nat
    requires 4 <= |f|
  {
    f[0] as int * 0x100_0000 + f[1] as int * 0x1_0000 + f[2] as int * 256 + f[3]
  }

  lemma CidRoundTrip(cid: nat, rest: seq<byte>)
    requires cid < 0x1_0000_0000
    ensures CidOf(CidBytes(cid) + rest) == cid
  {
    FourBytes(cid);
  }

  lemma FourBytes(v: nat)
    requires v < 0x1_0000_0000
    ensures v / 0x100_0000 % 256 * 0x100_0000 + v / 0x1_0000 % 256 * 0x1_0000 + v / 256 % 256 * 256 + v % 256 == v
  {
    var a, b, c := v / 256, v / 0x1_0000, v / 0x100_0000;
    assert a / 256 == b;
    assert b / 256 == c;
    assert c < 256;
  }

  function Min(a: int, b: int): int {
    if a < b then a else b
  }

  /** Lines 64-75: the first frame of a message. */
  function FirstFrame(cid: nat, cmd: byte, payload: seq<byte>): (r: Frame)
    requires |payload| <= 0xFFFF
    ensures |r| == 64
  {
    var n := Min(57, |payload|);
    CidBytes(cid) + [cmd, |payload| / 256, |payload| % 256] + payload[..n] + Zeros(57 - n)
  }

  /** Lines 93-102: a later frame, with the payload from `offset` on. */
  function NextFrame(cid: nat, seqNo: byte, payload: seq<byte>, offset: nat): (r: Frame)
    requires offset <= |payload|
    ensures |r| == 64
  {
    var n := Min(59, |payload| - offset);
    CidBytes(cid) + [seqNo] + payload[offset..offset + n] + Zeros(59 - n)
  }

  function NextSeq(seqNo: byte): byte {
    if seqNo == 255 then 0 else seqNo + 1
  }

  function LaterFrames(cid: nat, seqNo: byte, payload: seq<byte>, offset: nat): seq<Frame>
    decreases |payload| - offset
  {
    if |payload| <= offset then []
    else [NextFrame(cid, seqNo, payload, offset)] +
         LaterFrames(cid, NextSeq(seqNo), payload, offset + Min(59, |payload| - offset))
  }

  /** The frames of a message. */
  function Frames(cid: nat, cmd: byte, payload: seq<byte>): (r: seq<Frame>)
    requires |payload| <= 0xFFFF
    ensures 1 <= |r|
  {
    [FirstFrame(cid, cmd, payload)] + LaterFrames(cid, 0, payload, Min(57, |payload|))
  }

  datatype Message = Message(cid: nat, cmd: byte, payload: seq<byte>)

  /** The receiving side: what has come of the current message. */
  datatype Transaction = Transaction(buf: seq<byte>, reqLen: nat, expectedLen: nat, seqNo: byte, cmd: byte, cid: nat)
  {
    /** While a message is open, some of it is missing. */
    predicate Valid() {
      && |buf| == 1024 && reqLen <= 1024 && expectedLen <= 1024
      && (expectedLen != 0 ==> reqLen < expectedLen && 0x80 <= cmd)
    }
  }

  datatype Received = Received(next: Transaction, message: Option<Message>)

  function Overwrite(buf: seq<byte>, at: nat, s: seq<byte>): (r: seq<byte>)
    requires at + |s| <= |buf|
    ensures |r| == |buf|
  {
    buf[..at] + s + buf[at + |s|..]
  }

  /** Lines 145-158: a first frame opens a message and forgets any other. */
  function Start(t: Transaction, f: Frame): Transaction
    requires t.Valid() && 7 <= |f| && f[5] as int * 256 + f[6] <= 1024
  {
    var size := f[5] as int * 256 + f[6];
    var n := Min(|f| - 7, size);
    Transaction(Overwrite(t.buf, 0, f[7..7 + n]), n, size, 0, f[4], CidOf(f))
  }

  /** Lines 160-171: a later frame adds to the message. */
  function Continue(t: Transaction, f: Frame): Transaction
    requires t.Valid() && 5 <= |f| && t.expectedLen != 0
  {
    var n := Min(|f| - 5, t.expectedLen - t.reqLen);
    t.(buf := Overwrite(t.buf, t.reqLen, f[5..5 + n]), reqLen := t.reqLen + n, seqNo := NextSeq(t.seqNo))
  }

  /** Lines 174-214: a complete message is handed over and the transaction closed. */
  function Complete(t: Transaction): Received
    requires t.expectedLen <= |t.buf|
  {
    if t.reqLen == t.expectedLen && 0x80 <= t.cmd
    then Received(t.(expectedLen := 0, cmd := 0), Some(Message(t.cid, t.cmd, t.buf[..t.expectedLen])))
    else Received(t, None)
  }

  function Receive(t: Transaction, f: Frame): (r: Received)
    requires t.Valid()
    ensures r.next.Valid() && (r.message.Some? ==> |r.message.value.payload| <= 1024)
  {
    if |f| < 5 || f[4] == CANCEL then Received(t, None)
    else if 0x80 <= f[4] then
      if |f| < 7 || 1024 < f[5] as int * 256 + f[6] then Received(t, None)
      else Complete(Start(t, f))
    else if CidOf(f) != t.cid || t.expectedLen == 0 then Received(t, None)
    else if f[4] != t.seqNo then Received(t.(expectedLen := 0), None)
    else Complete(Continue(t, f))
  }

  datatype Run = Run(final: Transaction, messages: seq<Message>)

  function Only(m: Option<Message>): seq<Message> {
    if m.Some? then [m.value] else []
  }

  function ReceiveAll(t: Transaction, fs: seq<Frame>): (r: Run)
    requires t.Valid()
    ensures r.final.Valid()
    decreases |fs|
  {
    if |fs| == 0 then Run(t, [])
    else
      var r := Receive(t, fs[0]);
      var rest := ReceiveAll(r.next, fs[1..]);
      Run(rest.final, Only(r.message) + rest.messages)
  }

  /** The first `done` bytes of the payload have arrived, in the first frame and `seqNo`
      later ones. */
  ghost predicate Arrived(t: Transaction, m: Message, done: nat, seqNo: byte) {
    && t.Valid() && t.cid == m.cid && t.cmd == m.cmd && t.expectedLen == |m.payload| && t.seqNo == seqNo
    && t.reqLen == done < |m.payload| && t.buf[..done] == m.payload[..done]
  }

  ghost predicate Sendable(m: Message) {
    m.cid < 0x1_0000_0000 && 0x80 <= m.cmd && m.cmd != CANCEL && |m.payload| <= 1024
  }

  ghost predicate HandedOver(r: Received, m: Message, done: nat, seqNo: byte) {
    if done < |m.payload| then r.message == None && Arrived(r.next, m, done, seqNo)
    else r.message == Some(m) && r.next.expectedLen == 0
  }

  /** The same, of a message that may be complete. */
  ghost predicate Collected(t: Transaction, m: Message, done: nat, seqNo: byte) {
    && |t.buf| == 1024 && t.cid == m.cid && t.cmd == m.cmd && t.expectedLen == |m.payload| && t.seqNo == seqNo
    && t.reqLen == done <= |m.payload| <= 1024 && t.buf[..done] == m.payload[..done]
  }

  lemma CompleteHandsOver(t: Transaction, m: Message, done: nat, seqNo: byte)
    requires Sendable(m) && Collected(t, m, done, seqNo)
    ensures HandedOver(Complete(t), m, done, seqNo)
  {
    assert m.payload[..|m.payload|] == m.payload;
  }

  lemma FrameReads(f: Frame, cid: nat, rest: seq<byte>)
    requires cid < 0x1_0000_0000 && f == CidBytes(cid) + rest && 1 <= |rest|
    ensures CidOf(f) == cid && f[4] == rest[0]
  {
    CidRoundTrip(cid, rest);
  }

  lemma FirstFrameReads(m: Message)
    requires Sendable(m)
    ensures var f, n := FirstFrame(m.cid, m.cmd, m.payload), Min(57, |m.payload|);
      && CidOf(f) == m.cid && f[4] == m.cmd && f[5] as int * 256 + f[6] == |m.payload|
      && f[7..7 + n] == m.payload[..n]
  {
    var f := FirstFrame(m.cid, m.cmd, m.payload);
    assert f == CidBytes(m.cid) + f[4..];
    FrameReads(f, m.cid, f[4..]);
  }

  lemma FirstArrives(t: Transaction, m: Message)
    requires t.Valid() && Sendable(m)
    ensures HandedOver(Receive(t, FirstFrame(m.cid, m.cmd, m.payload)), m, Min(57, |m.payload|), 0)
  {
    hide FirstFrame, CidOf, Complete, HandedOver;
    var f, n := FirstFrame(m.cid, m.cmd, m.payload), Min(57, |m.payload|);
    FirstFrameReads(m);
    assert Start(t, f).buf[..n] == m.payload[..n];
    CompleteHandsOver(Start(t, f), m, n, 0);
  }

  lemma NextFrameReads(m: Message, done: nat, seqNo: byte)
    requires Sendable(m) && done <= |m.payload|
    ensures var f, n := NextFrame(m.cid, seqNo, m.payload, done), Min(59, |m.payload| - done);
      CidOf(f) == m.cid && f[4] == seqNo && f[5..5 + n] == m.payload[done..done + n]
  {
    var f := NextFrame(m.cid, seqNo, m.payload, done);
    assert f == CidBytes(m.cid) + f[4..];
    FrameReads(f, m.cid, f[4..]);
  }

  lemma NextArrives(t: Transaction, m: Message, done: nat, seqNo: byte)
    requires Sendable(m) && Arrived(t, m, done, seqNo) && seqNo < 0x80
    ensures HandedOver(Receive(t, NextFrame(m.cid, seqNo, m.payload, done)), m,
                       done + Min(59, |m.payload| - done), NextSeq(seqNo))
  {
    hide NextFrame, CidOf, Complete, HandedOver;
    var f, n := NextFrame(m.cid, seqNo, m.payload, done), Min(59, |m.payload| - done);
    NextFrameReads(m, done, seqNo);
    AppendPrefix(t.buf, m.payload, done, n);
    CompleteHandsOver(Continue(t, f), m, done + n, NextSeq(seqNo));
  }

  lemma AppendPrefix(buf: seq<byte>, payload: seq<byte>, done: nat, n: nat)
    requires done + n <= |payload| && done + n <= |buf| && buf[..done] == payload[..done]
    ensures Overwrite(buf, done, payload[done..done + n])[..done + n] == payload[..done + n]
  {
  }

  /** The frames hand over `m` once, the last of them does, and nothing is left open. */
  ghost predicate Delivers(t: Transaction, fs: seq<Frame>, m: Message)
    requires t.Valid()
  {
    && 1 <= |fs| && ReceiveAll(t, fs[..|fs| - 1]).messages == []
    && ReceiveAll(t, fs).messages == [m] && ReceiveAll(t, fs).final.expectedLen == 0
  }

  lemma LastDelivers(t: Transaction, f: Frame, m: Message)
    requires t.Valid() && Receive(t, f).message == Some(m) && Receive(t, f).next.expectedLen == 0
    ensures Delivers(t, [f], m)
  {
    hide Receive;
    var none: seq<Frame> := [];
    assert [f][1..] == none && [f][..0] == none;
    assert ReceiveAll(Receive(t, f).next, none).messages == [];
  }

  lemma EarlierDelivers(t: Transaction, f: Frame, rest: seq<Frame>, m: Message)
    requires t.Valid() && Receive(t, f).message == None && Delivers(Receive(t, f).next, rest, m)
    ensures Delivers(t, [f] + rest, m)
  {
    hide Receive;
    var fs := [f] + rest;
    assert fs[1..] == rest && fs[..|rest|][1..] == rest[..|rest| - 1];
  }

  lemma {:induction false} RestArrives(t: Transaction, m: Message, done: nat, seqNo: byte)
    requires Sendable(m) && Arrived(t, m, done, seqNo) && 57 + 59 * seqNo <= done
    ensures Delivers(t, LaterFrames(m.cid, seqNo, m.payload, done), m)
    decreases |m.payload| - done
  {
    hide NextFrame, Receive, Delivers;
    var n := Min(59, |m.payload| - done);
    var f := NextFrame(m.cid, seqNo, m.payload, done);
    NextArrives(t, m, done, seqNo);
    if done + n < |m.payload| {
      RestArrives(Receive(t, f).next, m, done + n, NextSeq(seqNo));
      EarlierDelivers(t, f, LaterFrames(m.cid, NextSeq(seqNo), m.payload, done + n), m);
    } else {
      LastDelivers(t, f, m);
      assert LaterFrames(m.cid, seqNo, m.payload, done) == [f];
    }
  }

  /** Sent in frames, a message of up to 1024 bytes is handed over exactly once, with the
      last frame, whatever was going on before. */
  lemma RoundTrip(t: Transaction, m: Message)
    requires t.Valid() && Sendable(m)
    ensures Delivers(t, Frames(m.cid, m.cmd, m.payload), m)
  {
    hide FirstFrame, Receive, Delivers;
    var n := Min(57, |m.payload|);
    var f := FirstFrame(m.cid, m.cmd, m.payload);
    FirstArrives(t, m);
    if n < |m.payload| {
      RestArrives(Receive(t, f).next, m, n, 0);
      EarlierDelivers(t, f, LaterFrames(m.cid, 0, m.payload, n), m);
    } else {
      LastDelivers(t, f, m);
      assert Frames(m.cid, m.cmd, m.payload) == [f];
    }
  }

  /** Frames that never touch the transaction: CANCEL, and those too short or announcing too
      much. */
  predicate Ignored(f: Frame) {
    |f| < 5 || f[4] == CANCEL || (0x80 <= f[4] && (|f| < 7 || 1024 < f[5] as int * 256 + f[6]))
  }

  function WithoutIgnored(fs: seq<Frame>): seq<Frame> {
    if |fs| == 0 then []
    else (if Ignored(fs[0]) then [] else [fs[0]]) + WithoutIgnored(fs[1..])
  }

  /** CANCEL frames anywhere change neither what is handed over nor what is left open. */
  lemma {:induction false} CancelsDoNotDisturb(t: Transaction, fs: seq<Frame>)
    requires t.Valid()
    ensures ReceiveAll(t, fs) == ReceiveAll(t, WithoutIgnored(fs))
    decreases |fs|
  {
    if |fs| > 0 {
      hide Complete, Start, Continue;
      var r := Receive(t, fs[0]);
      CancelsDoNotDisturb(r.next, fs[1..]);
      if !Ignored(fs[0]) {
        assert WithoutIgnored(fs)[1..] == WithoutIgnored(fs[1..]);
      } else {
        assert WithoutIgnored(fs) == WithoutIgnored(fs[1..]);
      }
    }
  }

  lemma DeliveredDespiteCancels(t: Transaction, m: Message, fs: seq<Frame>)
    requires t.Valid() && Sendable(m) && WithoutIgnored(fs) == Frames(m.cid, m.cmd, m.payload)
    ensures ReceiveAll(t, fs).messages == [m]
  {
    hide Frames, Sendable;
    RoundTrip(t, m);
    CancelsDoNotDisturb(t, fs);
  }

  /** A later frame that does not fit hands over nothing, and closes the transaction if that
      is one of its channel. */
  lemma UnexpectedFrame(t: Transaction, m: Message, offset: nat, seqNo: byte)
    requires t.Valid() && Sendable(m) && (t.expectedLen == 0 || t.cid != m.cid || t.seqNo != seqNo)
    requires offset < |m.payload| && seqNo < 0x80
    ensures var r := Receive(t, NextFrame(m.cid, seqNo, m.payload, offset));
      r.message == None && r.next.cid == t.cid && (r.next.expectedLen == 0 || t.cid != m.cid)
  {
    hide NextFrame, CidOf, Complete, Continue, Start;
    NextFrameReads(m, offset, seqNo);
  }

  /** A message that loses a frame is never handed over: the frames after the gap find no open
      transaction, one of another channel, or are out of order and close it. */
  lemma {:induction false} GapDropsMessage(t: Transaction, m: Message, offset: nat, seqNo: byte)
    requires t.Valid() && Sendable(m) && (t.expectedLen == 0 || t.cid != m.cid || t.seqNo != seqNo)
    requires 57 + 59 * seqNo <= offset
    ensures ReceiveAll(t, LaterFrames(m.cid, seqNo, m.payload, offset)).messages == []
    decreases |m.payload| - offset
  {
    if offset < |m.payload| {
      hide NextFrame, Receive;
      var n := Min(59, |m.payload| - offset);
      var f := NextFrame(m.cid, seqNo, m.payload, offset);
      var rest := LaterFrames(m.cid, NextSeq(seqNo), m.payload, offset + n);
      UnexpectedFrame(t, m, offset, seqNo);
      if offset + n < |m.payload| {
        GapDropsMessage(Receive(t, f).next, m, offset + n, NextSeq(seqNo));
      }
      assert ([f] + rest)[1..] == rest;
    }
  }

  /** What is sent back, and the channel given out next: lines 175-211.  `reply` is what
      the CBOR command produced, and `buf` still holds the request. */
  datatype Answer = Answer(cmd: byte, payload: seq<byte>, lastCid: nat)

  function AnswerTo(m: Message, buf: seq<byte>, lastCid: nat, reply: seq<byte>): (r: Answer)
    requires 8 <= |buf|
    ensures |reply| <= 1024 && |m.payload| <= 1024 ==> |r.payload| <= 1024
  {
    if m.cmd == 0x90 then Answer(0x90, reply, lastCid)
    else if m.cmd == 0x86 then
      var channel := if m.cid == 0xFFFF_FFFF then lastCid else m.cid;
      Answer(0x86, buf[..8] + CidBytes(channel) + [2, 1, 0, 0, 0x0D], channel)
    else if m.cmd == 0x81 then Answer(0x81, m.payload, lastCid)
    else if m.cmd == 0x88 || m.cmd == 0x84 then Answer(m.cmd, [], lastCid)
    else Answer(0xBF, [0x01], lastCid)
  }

  /** The frames that the host takes in time; after the first that it does not take, the
      rest are dropped. */
  function Taken(fs: seq<Frame>, n: nat): (r: seq<Frame>)
    ensures r <= fs && |r| == Min(n, |fs|) && (|fs| <= n ==> r == fs)
  {
    if n < |fs| then fs[..n] else fs
  }

  /** What a device that handed over a message, or none, has sent, and the channel it gives
      out next. */
  datatype Outcome = Outcome(frames: seq<Frame>, lastCid: nat)

  function OutcomeOf(r: Received, lastCid: nat, reply: seq<byte>, cid: nat, taken: nat): Outcome
    requires |r.next.buf| == 1024 && |reply| <= 1024 && (r.message.Some? ==> |r.message.value.payload| <= 1024)
  {
    if r.message.None? then Outcome([], lastCid)
    else
      var x := AnswerTo(r.message.value, r.next.buf, lastCid, reply);
      Outcome(Taken(Frames(cid, x.cmd, x.payload), taken), x.lastCid)
  }

  /** The device end of the channel.  `sent` lists the frames the host took and
      `handled` the messages handed over. */
  class Device {
    const reqBuf: array<byte>
    var reqLen: nat
    var expectedLen: nat
    var seqNo: byte
    var cmd: byte
    var cid: nat
    var currentCid: nat
    var allocatedCid: nat
    var cancelRequested: bool
    var sent: seq<Frame>
    ghost var handled: seq<Message>

    ghost predicate Valid()
      reads this, reqBuf
    {
      reqBuf.Length == 1024 && State().Valid() && allocatedCid < 0x1_0000_0000
    }

    ghost function State(): Transaction
      reads this, reqBuf
    {
      Transaction(reqBuf[..], reqLen, expectedLen, seqNo, cmd, cid)
    }

    constructor ()
      ensures Valid() && fresh(reqBuf) && sent == [] && handled == [] && !cancelRequested
      ensures expectedLen == 0 && allocatedCid == 0xCAFE_BABE
    {
      reqBuf := new byte[1024](i => 0);
      reqLen, expectedLen, seqNo, cmd, cid, currentCid := 0, 0, 0, 0, 0, 0;
      allocatedCid, cancelRequested, sent, handled := 0xCAFE_BABE, false, [], [];
    }

    /** ctap_send_response: `taken` is how many frames the host takes before it is too late
        for the next. */
    method SendResponse(to: nat, response: byte, payload: seq<byte>, taken: nat)
      requires |payload| <= 1024
      modifies this`sent
      ensures sent == old(sent) + Taken(Frames(to, response, payload), taken)
    {
      if taken == 0 {
        return;
      }
      var offset: nat := Min(57, |payload|);
      sent := sent + [FirstFrame(to, response, payload)];
      var no: byte := 0;
      var count := 1;
      while offset < |payload|
        invariant offset <= |payload| && 1 <= count <= taken && |sent| == |old(sent)| + count
        invariant old(sent) + Frames(to, response, payload) == sent + LaterFrames(to, no, payload, offset)
      {
        if count == taken {
          ghost var fs := Frames(to, response, payload);
          assert (old(sent) + fs)[..|old(sent)| + count] == sent;
          return;
        }
        sent := sent + [NextFrame(to, no, payload, offset)];
        offset := offset + Min(59, |payload| - offset);
        no := NextSeq(no);
        count := count + 1;
      }
    }

    method CopyIn(at: nat, f: Frame, from: nat, n: nat)
      requires at + n <= reqBuf.Length && from + n <= |f|
      modifies reqBuf
      ensures reqBuf[..] == Overwrite(old(reqBuf[..]), at, f[from..from + n])
    {
      for i := 0 to n
        invariant reqBuf[..at] == old(reqBuf[..at]) && reqBuf[at..at + i] == f[from..from + i]
        invariant reqBuf[at + n..] == old(reqBuf[at + n..])
      {
        reqBuf[at + i] := f[from + i];
      }
    }

    /** Lines 145-158. */
    method OpenMessage(f: Frame, size: nat)
      requires Valid() && 7 <= |f| && size == f[5] as int * 256 + f[6] <= 1024
      modifies this`reqLen, this`expectedLen, this`seqNo, this`cmd, this`cid, reqBuf
      ensures reqBuf.Length == 1024 && State() == Start(old(State()), f)
    {
      cid := CidOf(f);
      cmd := f[4];
      expectedLen := size;
      reqLen := Min(|f| - 7, size);
      CopyIn(0, f, 7, reqLen);
      seqNo := 0;
    }

    /** Lines 160-171. */
    method ExtendMessage(f: Frame)
      requires Valid() && 5 <= |f| && expectedLen != 0
      modifies this`reqLen, this`seqNo, reqBuf
      ensures reqBuf.Length == 1024 && State() == Continue(old(State()), f)
    {
      seqNo := NextSeq(seqNo);
      var n := Min(|f| - 5, expectedLen - reqLen);
      CopyIn(reqLen, f, 5, n);
      reqLen := reqLen + n;
    }

    /** Lines 174-214. */
    method HandOver(reply: seq<byte>, taken: nat)
      requires reqBuf.Length == 1024 && expectedLen <= 1024 && |reply| <= 1024
      modifies this`expectedLen, this`cmd, this`allocatedCid, this`sent, this`handled
      ensures var r := Complete(old(State())); var o := OutcomeOf(r, old(allocatedCid), reply, cid, taken);
        State() == r.next && handled == old(handled) + Only(r.message)
        && sent == old(sent) + o.frames && allocatedCid == o.lastCid
    {
      hide Frames, Taken;
      if reqLen == expectedLen && 0x80 <= cmd {
        var m := Message(cid, cmd, reqBuf[..expectedLen]);
        var x := AnswerTo(m, reqBuf[..], allocatedCid, reply);
        handled := handled + [m];
        allocatedCid := x.lastCid;
        SendResponse(cid, x.cmd, x.payload, taken);
        expectedLen := 0;
        cmd := 0;
      }
    }

    /** Lines 145-172: whether the frame is to be looked at further. */
    method Accept(f: Frame) returns (go: bool)
      requires Valid() && 5 <= |f| && f[4] != CANCEL
      modifies this`reqLen, this`expectedLen, this`seqNo, this`cmd, this`cid, reqBuf
      ensures reqBuf.Length == 1024 && expectedLen <= 1024
      ensures Receive(old(State()), f) == if go then Complete(State()) else Received(State(), None)
      ensures go ==> cid == CidOf(f)
    {
      hide Complete, CidOf;
      if 0x80 <= f[4] {
        if |f| < 7 {
          return false;
        }
        var size := f[5] as int * 256 + f[6];
        if 1024 < size {
          return false;
        }
        OpenMessage(f, size);
      } else {
        if CidOf(f) != cid || expectedLen == 0 {
          return false;
        }
        if f[4] != seqNo {
          expectedLen := 0;
          return false;
        }
        ExtendMessage(f);
      }
      go := true;
    }

    /** ProcessCTAPHID: `reply` is what the CBOR command would answer to this frame, and
        `taken` how many frames of the answer the host takes. */
    method ProcessCTAPHID(f: Frame, reply: seq<byte>, taken: nat)
      requires Valid() && |reply| <= 1024
      modifies this, reqBuf
      ensures Valid()
      ensures var r := Receive(old(State()), f);
        var o := OutcomeOf(r, old(allocatedCid), reply, if 4 <= |f| then CidOf(f) else 0, taken);
        State() == r.next && handled == old(handled) + Only(r.message)
        && sent == old(sent) + o.frames && allocatedCid == o.lastCid
      ensures cancelRequested == (old(cancelRequested) || (5 <= |f| && f[4] == CANCEL))
      ensures currentCid == if 5 <= |f| then CidOf(f) else old(currentCid)
    {
      if |f| < 5 {
        return;
      }
      currentCid := CidOf(f);
      if f[4] == CANCEL {
        cancelRequested := true;
        return;
      }
      hide Complete, Start, Continue, Frames, Taken;
      ChannelInRange(State(), f, allocatedCid, reply, taken);
      var go := Accept(f);
      if go {
        HandOver(reply, taken);
      }
    }
  }

  /** The channel given out stays a 32-bit number. */
  lemma ChannelInRange(t: Transaction, f: Frame, lastCid: nat, reply: seq<byte>, taken: nat)
    requires t.Valid() && 4 <= |f| && lastCid < 0x1_0000_0000 && |reply| <= 1024
    ensures OutcomeOf(Receive(t, f), lastCid, reply, CidOf(f), taken).lastCid < 0x1_0000_0000
  {
    hide Frames, Taken, Overwrite;
  }

  /** PING reproduces its own frames, byte for byte. */
  lemma PingEchoes(t: Transaction, cid: nat, payload: seq<byte>, buf: seq<byte>, lastCid: nat, reply: seq<byte>)
    requires t.Valid() && cid < 0x1_0000_0000 && |payload| <= 1024 && 8 <= |buf|
    ensures var fs := Frames(cid, 0x81, payload); var ms := ReceiveAll(t, fs).messages;
      && ms == [Message(cid, 0x81, payload)]
      && var x := AnswerTo(ms[0], buf, lastCid, reply); |x.payload| <= 1024 && Frames(cid, x.cmd, x.payload) == fs
  {
    hide Frames;
    RoundTrip(t, Message(cid, 0x81, payload));
  }

  /** INIT echoes the nonce and names a channel: that of the request, or for a broadcast the
      one named last; a broadcast that follows is given the same channel. */
  lemma InitNamesChannel(m: Message, buf: seq<byte>, lastCid: nat, reply: seq<byte>, next: Message, buf': seq<byte>)
    requires m.cmd == 0x86 && 8 <= |buf| && m.cid < 0x1_0000_0000 && lastCid < 0x1_0000_0000
    requires next.cmd == 0x86 && next.cid == 0xFFFF_FFFF && 8 <= |buf'|
    ensures var x := AnswerTo(m, buf, lastCid, reply);
      && |x.payload| == 17 && x.payload[..8] == buf[..8] && CidOf(x.payload[8..]) == x.lastCid
      && x.lastCid == (if m.cid == 0xFFFF_FFFF then lastCid else m.cid)
      && CidOf(AnswerTo(next, buf', x.lastCid, reply).payload[8..]) == x.lastCid
  {
    hide CidOf;
    var rest: seq<byte> := [2, 1, 0, 0, 0x0D];
    var x := AnswerTo(m, buf, lastCid, reply);
    CidRoundTrip(x.lastCid, rest);
    assert x.payload[8..] == CidBytes(x.lastCid) + rest;
    var y := AnswerTo(next, buf', x.lastCid, reply);
    assert y.payload[8..] == CidBytes(x.lastCid) + rest;
  }
}
