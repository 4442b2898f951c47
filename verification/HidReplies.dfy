/** What reaches the host: the layout of the frames on the wire, and the answer to every
    message. */
module HidReplies {
  import opened Bytes
  import opened Options
  import opened CtapHid

  /** Byte `i` of the payload, or the padding behind it. */
  function At(payload: seq<byte>, i: int): byte {
    if 0 <= i < |payload| then payload[i] else 0
  }

  /** The frame is filled up, from byte `at` on, with the payload from byte `from` on. */
  ghost predicate Carries(f: Frame, at: nat, payload: seq<byte>, from: nat) {
    |f| == 64 && forall j :: at <= j < 64 ==> f[j] == At(payload, from + (j - at))
  }

  /** Frame `k` of a message as section 11.2.4 of CTAP 2.1 lays it out: channel, command and
      length in the first, channel and number in the others, and then the payload. */
  ghost predicate IsFrame(f: Frame, cid: nat, cmd: byte, payload: seq<byte>, k: nat) {
    && |f| == 64 && BigEndian(f[..4]) == cid
    && if k == 0 then f[4] == cmd && BigEndian(f[5..7]) == |payload| && Carries(f, 7, payload, 0)
       else f[4] as int == k - 1 && Carries(f, 5, payload, 57 + 59 * (k - 1))
  }

  lemma TwoBytes(a: byte, b: byte)
    ensures BigEndian([a, b]) == 256 * a + b
  {
    assert [a, b][..1] == [a];
    assert [a][..0] == [] && BigEndian([a]) == BigEndian([a][..0]) * 256 + a;
  }

  lemma FourBytesNumber(cid: nat)
    requires cid < 0x1_0000_0000
    ensures BigEndian(CidBytes(cid)) == cid
  {
    var s := CidBytes(cid);
    assert s[..3][..2] == [s[0], s[1]] && s[..3][2] == s[2] && s[3] == cid % 256;
    TwoBytes(s[0], s[1]);
    FourBytes(cid);
  }

  lemma FirstIsFrame(cid: nat, cmd: byte, payload: seq<byte>)
    requires cid < 0x1_0000_0000 && |payload| <= 1024
    ensures IsFrame(FirstFrame(cid, cmd, payload), cid, cmd, payload, 0)
  {
    hide BigEndian, CidBytes;
    var f := FirstFrame(cid, cmd, payload);
    FourBytesNumber(cid);
    assert f[..4] == CidBytes(cid);
    assert f[5..7] == [f[5], f[6]];
    TwoBytes(f[5], f[6]);
  }

  lemma NextIsFrame(cid: nat, cmd: byte, payload: seq<byte>, k: nat)
    requires cid < 0x1_0000_0000 && 1 <= k <= 128 && 59 * k - 2 <= |payload|
    ensures IsFrame(NextFrame(cid, k - 1, payload, 59 * k - 2), cid, cmd, payload, k)
  {
    hide BigEndian, CidBytes;
    var f := NextFrame(cid, k - 1, payload, 59 * k - 2);
    FourBytesNumber(cid);
    assert f[..4] == CidBytes(cid);
  }

  /** How many frames a message takes. */
  function FrameCount(n: nat): nat {
    if n <= 57 then 1 else 1 + (n - 57 + 58) / 59
  }

  lemma {:induction false} LaterAreFrames(cid: nat, cmd: byte, payload: seq<byte>, k: nat, i: nat)
    requires cid < 0x1_0000_0000 && |payload| <= 1024 && 1 <= k && 59 * k - 2 <= |payload|
    ensures var fs := LaterFrames(cid, k - 1, payload, 59 * k - 2);
      && |fs| == (|payload| - (59 * k - 2) + 58) / 59
      && (i < |fs| ==> IsFrame(fs[i], cid, cmd, payload, k + i))
    decreases |payload| - 59 * k
  {
    hide NextFrame, IsFrame;
    var offset := 59 * k - 2;
    if offset < |payload| {
      NextIsFrame(cid, cmd, payload, k);
      if offset + 59 <= |payload| {
        LaterAreFrames(cid, cmd, payload, k + 1, if i == 0 then 0 else i - 1);
      }
    }
  }

  /** The frames of a message, one by one. */
  lemma MessageInFrames(cid: nat, cmd: byte, payload: seq<byte>, k: nat)
    requires cid < 0x1_0000_0000 && |payload| <= 1024
    ensures var fs := Frames(cid, cmd, payload);
      |fs| == FrameCount(|payload|) <= 18 && (k < |fs| ==> IsFrame(fs[k], cid, cmd, payload, k))
  {
    hide FirstFrame, IsFrame;
    FirstIsFrame(cid, cmd, payload);
    if 57 <= |payload| {
      LaterAreFrames(cid, cmd, payload, 1, if k == 0 then 0 else k - 1);
    }
  }

  /** A later frame of another channel. */
  predicate Foreign(f: Frame, cid: nat) {
    5 <= |f| && f[4] < 0x80 && CidOf(f) != cid
  }

  /** The frames without those that are ignored and those later ones of other channels. */
  function OwnFrames(fs: seq<Frame>, cid: nat): seq<Frame> {
    if |fs| == 0 then []
    else (if Ignored(fs[0]) || Foreign(fs[0], cid) then [] else [fs[0]]) + OwnFrames(fs[1..], cid)
  }

  /** Nothing is open, unless on this channel. */
  predicate OpenOnlyOn(t: Transaction, cid: nat) {
    t.expectedLen == 0 || t.cid == cid
  }

  lemma ForeignLeavesState(t: Transaction, f: Frame, cid: nat)
    requires t.Valid() && OpenOnlyOn(t, cid) && (Ignored(f) || Foreign(f, cid))
    ensures Receive(t, f) == Received(t, None)
  {
    hide CidOf, Start, Continue;
  }

  lemma OwnFrameStays(t: Transaction, f: Frame, cid: nat)
    requires t.Valid() && OpenOnlyOn(t, cid) && 5 <= |f| && CidOf(f) == cid
    ensures OpenOnlyOn(Receive(t, f).next, cid)
  {
    hide CidOf, Overwrite;
  }

  lemma ReceiveFirst(t: Transaction, f: Frame, rest: seq<Frame>)
    requires t.Valid()
    ensures var r := Receive(t, f); var x := ReceiveAll(r.next, rest);
      ReceiveAll(t, [f] + rest) == Run(x.final, Only(r.message) + x.messages)
  {
    hide Receive;
    assert ([f] + rest)[1..] == rest;
  }

  /** Later frames of other channels disturb a message no more than ignored frames do. */
  lemma {:induction false} OthersDoNotDisturb(t: Transaction, fs: seq<Frame>, cid: nat)
    requires t.Valid() && OpenOnlyOn(t, cid)
    requires forall f :: f in OwnFrames(fs, cid) ==> 5 <= |f| && CidOf(f) == cid
    ensures ReceiveAll(t, fs) == ReceiveAll(t, OwnFrames(fs, cid))
    decreases |fs|
  {
    if |fs| > 0 {
      var f, rest := fs[0], OwnFrames(fs[1..], cid);
      assert fs == [f] + fs[1..];
      hide Receive, ReceiveAll, Ignored, Foreign, CidOf, OpenOnlyOn;
      ReceiveFirst(t, f, fs[1..]);
      ReceiveFirst(t, f, rest);
      if Ignored(f) || Foreign(f, cid) {
        ForeignLeavesState(t, f, cid);
        assert OwnFrames(fs, cid) == rest;
        OthersDoNotDisturb(t, fs[1..], cid);
      } else {
        assert OwnFrames(fs, cid) == [f] + rest;
        assert f in OwnFrames(fs, cid);
        OwnFrameStays(t, f, cid);
        OthersDoNotDisturb(Receive(t, f).next, fs[1..], cid);
      }
    }
  }

  lemma {:induction false} FramesAreOwn(m: Message, seqNo: byte, offset: nat)
    requires Sendable(m)
    ensures forall f :: f in LaterFrames(m.cid, seqNo, m.payload, offset) ==> 5 <= |f| && CidOf(f) == m.cid
    decreases |m.payload| - offset
  {
    hide NextFrame, CidOf;
    if offset < |m.payload| {
      NextFrameReads(m, offset, seqNo);
      FramesAreOwn(m, NextSeq(seqNo), offset + Min(59, |m.payload| - offset));
    }
  }

  /** A message arrives although later frames of other channels, CANCEL and malformed frames
      come in between. */
  lemma DeliveredAmongOthers(t: Transaction, m: Message, fs: seq<Frame>)
    requires t.Valid() && Sendable(m) && OpenOnlyOn(t, m.cid)
    requires OwnFrames(fs, m.cid) == Frames(m.cid, m.cmd, m.payload)
    ensures ReceiveAll(t, fs).messages == [m]
  {
    hide FirstFrame, CidOf, ReceiveAll, LaterFrames;
    FirstFrameReads(m);
    FramesAreOwn(m, 0, Min(57, |m.payload|));
    OthersDoNotDisturb(t, fs, m.cid);
    RoundTrip(t, m);
  }

  /** The answer to INIT: the nonce, the channel that is to be used, the version of the
      protocol, three numbers of the device, and what it is capable of. */
  ghost predicate NamesChannel(s: seq<byte>, m: Message, lastCid: nat) {
    && |s| == 17 && (8 <= |m.payload| ==> s[..8] == m.payload[..8])
    && BigEndian(s[8..12]) == (if m.cid == 0xFFFF_FFFF then lastCid else m.cid)
    && s[12..] == [2, 1, 0, 0, 0x0D]
  }

  /** The answer to a message: the same command with what CBOR, PING, WINK and LOCK give back,
      and ERROR 1 for commands that are not known. */
  ghost predicate Answers(x: Message, m: Message, lastCid: nat, reply: seq<byte>) {
    && x.cid == m.cid
    && (m.cmd == 0x90 ==> x.cmd == 0x90 && x.payload == reply)
    && (m.cmd == 0x81 ==> x.cmd == 0x81 && x.payload == m.payload)
    && (m.cmd == 0x88 ==> x.cmd == 0x88 && x.payload == [])
    && (m.cmd == 0x84 ==> x.cmd == 0x84 && x.payload == [])
    && (m.cmd == 0x86 ==> x.cmd == 0x86 && NamesChannel(x.payload, m, lastCid))
    && (m.cmd != 0x90 && m.cmd != 0x81 && m.cmd != 0x88 && m.cmd != 0x84 && m.cmd != 0x86 ==>
          x.cmd == 0xBF && x.payload == [0x01])
  }

  lemma CidFits(f: Frame)
    requires 4 <= |f|
    ensures CidOf(f) < 0x1_0000_0000
  {
  }

  /** A message handed over by a frame is on the channel of the frame. */
  lemma MessageOfFrame(t: Transaction, f: Frame)
    requires t.Valid() && 4 <= |f| && Receive(t, f).message.Some?
    ensures var r := Receive(t, f);
      r.message.value.cid == CidOf(f) && r.message.value.payload <= r.next.buf
  {
    hide CidOf, Overwrite;
  }

  lemma InitAnswer(m: Message, buf: seq<byte>, lastCid: nat, reply: seq<byte>)
    requires m.cmd == 0x86 && m.cid < 0x1_0000_0000 && lastCid < 0x1_0000_0000 && |buf| == 1024 && m.payload <= buf
    ensures NamesChannel(AnswerTo(m, buf, lastCid, reply).payload, m, lastCid)
  {
    hide BigEndian, CidBytes;
    var s, channel := AnswerTo(m, buf, lastCid, reply).payload, if m.cid == 0xFFFF_FFFF then lastCid else m.cid;
    FourBytesNumber(channel);
    assert s[8..12] == CidBytes(channel);
    if 8 <= |m.payload| {
      assert buf[..|m.payload|][..8] == buf[..8];
    }
  }

  /** Every message that a frame completes is answered with exactly one message, on its own
      channel: the frames that go out, if the host takes them all, hand it over to a host that
      may have been in the middle of anything. */
  lemma AnswerReachesHost(t: Transaction, f: Frame, lastCid: nat, reply: seq<byte>, taken: nat, host: Transaction)
    requires t.Valid() && 4 <= |f| && lastCid < 0x1_0000_0000
    requires |reply| <= 1024 && 18 <= taken && host.Valid()
    requires Receive(t, f).message.Some?
    ensures var r := Receive(t, f);
      var got := ReceiveAll(host, OutcomeOf(r, lastCid, reply, CidOf(f), taken).frames).messages;
      |got| == 1 && Answers(got[0], r.message.value, lastCid, reply)
  {
    hide CidOf, Receive, Frames, ReceiveAll, NamesChannel, BigEndian;
    var r := Receive(t, f);
    MessageOfFrame(t, f);
    CidFits(f);
    var x := AnswerTo(r.message.value, r.next.buf, lastCid, reply);
    if x.cmd == 0x86 {
      InitAnswer(r.message.value, r.next.buf, lastCid, reply);
    }
    MessageInFrames(CidOf(f), x.cmd, x.payload, 0);
    RoundTrip(host, Message(CidOf(f), x.cmd, x.payload));
  }

  /** The reply of a CBOR command reaches the host as it is. */
  lemma CborReplyReachesHost(t: Transaction, f: Frame, lastCid: nat, reply: seq<byte>, taken: nat, host: Transaction)
    requires t.Valid() && 4 <= |f| && lastCid < 0x1_0000_0000
    requires |reply| <= 1024 && 18 <= taken && host.Valid()
    requires Receive(t, f).message.Some? && Receive(t, f).message.value.cmd == 0x90
    ensures ReceiveAll(host, OutcomeOf(Receive(t, f), lastCid, reply, CidOf(f), taken).frames).messages
         == [Message(CidOf(f), 0x90, reply)]
  {
    hide CidOf, Receive, OutcomeOf, ReceiveAll;
    AnswerReachesHost(t, f, lastCid, reply, taken, host);
    MessageOfFrame(t, f);
  }
}
