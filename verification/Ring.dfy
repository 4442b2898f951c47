/** The ring of received packets: the endpoint interrupt that fills it, the main loop and
    the out-of-band service that empty it, and the flow control between them. */
module Ring {
  import opened Bytes
  import opened Options
  import opened CtapHid

  const SLOTS := 16
  const FULL := 12
  const LOW := 6

  /** Where the main loop is.  `cbor` says that the packet or report it is working on
      completed a CBOR command, the only one that serves other packets while it waits. */
  datatype Phase =
    | Top
    | Processing(packet: Frame, cbor: bool)
    | ReportTurn
    | Reporting(cbor: bool)
    | Testing
    | SawLow
    | Reopening

  /** `ack` is the response the endpoint gives, `dma` the slot the hardware fills next.
      `arrived` and `left` record every packet accepted and every packet removed. */
  datatype State = State(data: seq<Frame>, packLen: seq<nat>, load: nat, deal: nat, remain: nat, stop: bool,
                         ack: bool, dma: nat, phase: Phase, transaction: Transaction,
                         arrived: seq<Frame>, left: seq<Frame>)
  {
    predicate Shaped() {
      && |data| == SLOTS && |packLen| == SLOTS && load < SLOTS && deal < SLOTS && dma < SLOTS
      && transaction.Valid()
    }

    /** The packet in a slot, as the consumers read it. */
    function Slot(i: nat): Frame
      requires Shaped() && i < SLOTS
    {
      if packLen[i] <= |data[i]| then data[i][..packLen[i]] else data[i]
    }
  }

  function Next(i: nat): nat {
    if i + 1 == SLOTS then 0 else i + 1
  }

  function Plus(i: nat, n: nat): nat {
    (i + n) % 16
  }

  /** The endpoint 1 OUT interrupt: the packet is in the slot the hardware was given. */
  function Interrupt(s: State, f: Frame): (r: State)
    requires s.Shaped()
    ensures r.Shaped()
  {
    var load' := Next(s.load);
    var full := FULL <= s.remain + 1;
    s.(data := s.data[s.dma := f], packLen := s.packLen[s.load := |f|], load := load', dma := load',
       remain := s.remain + 1, ack := s.ack && !full, stop := s.stop || full, arrived := s.arrived + [f])
  }

  /** Removing the oldest packet, as all the consumers do with the interrupt disabled. */
  function Pop(s: State): (r: State)
    requires s.Shaped() && 0 < s.remain
    ensures r.Shaped()
  {
    s.(remain := s.remain - 1, deal := Next(s.deal), left := s.left + [s.Slot(s.deal)])
  }

  function IsCbor(r: Received): bool {
    r.message.Some? && r.message.value.cmd == 0x90
  }

  /** One step of the main loop; `report` is the pending endpoint 0 report, if any. */
  function MainStep(s: State, report: Option<Frame>): (r: State)
    requires s.Shaped()
    ensures r.Shaped()
  {
    match s.phase
    case Top =>
      if s.remain == 0 then s.(phase := ReportTurn)
      else
        var f := s.Slot(s.deal);
        var r := Receive(s.transaction, f);
        s.(phase := Processing(f, IsCbor(r)), transaction := r.next)
    case Processing(_, _) =>
      if s.remain == 0 then s.(phase := ReportTurn) else Pop(s).(phase := ReportTurn)
    case ReportTurn =>
      if report.None? then s.(phase := Testing)
      else
        var r := Receive(s.transaction, report.value);
        s.(phase := Reporting(IsCbor(r)), transaction := r.next)
    case Reporting(_) => s.(phase := Testing)
    case Testing => s.(phase := if s.remain < LOW then SawLow else Top)
    case SawLow => if s.stop then s.(phase := Reopening, stop := false) else s.(phase := Top)
    case Reopening => s.(phase := Top, ack := true)
  }

  /** The packets that are served while a CBOR command waits for the user. */
  predicate OutOfBand(f: Frame) {
    5 <= |f| && (f[4] == 0x88 || f[4] == 0x84 || f[4] == CANCEL || f[4] == 0x86)
  }

  predicate Waiting(s: State) {
    (s.phase.Processing? || s.phase.Reporting?) && s.phase.cbor
  }

  /** Process_OOB_Commands, called while a CBOR command waits. */
  function ServeOutOfBand(s: State): (r: State)
    requires s.Shaped()
    ensures r.Shaped()
  {
    if 0 < s.remain && OutOfBand(s.Slot(s.deal)) then Pop(s) else s
  }

  /** The endpoint is stopped by the packet that leaves 12 or more waiting, and the main loop
      goes on to look at the stop flag exactly if it finds less than 6. */
  lemma Thresholds(s: State, f: Frame, report: Option<Frame>)
    requires s.Shaped()
    ensures var t := Interrupt(s, f);
      && t.remain == s.remain + 1 && (t.ack <==> s.ack && s.remain < 11) && (t.stop <==> s.stop || 11 <= s.remain)
    ensures s.phase == Testing ==> (MainStep(s, report).phase == SawLow <==> s.remain < 6)
  {
  }

  /** While a command waits, the oldest packet is taken out exactly if it is one of CANCEL,
      WINK, LOCK and INIT: a later frame or the first of another command stays. */
  lemma ServedWhileWaiting(s: State, cid: nat, cmd: byte, payload: seq<byte>)
    requires s.Shaped() && 0 < s.remain && |payload| <= 0xFFFF && s.Slot(s.deal) == FirstFrame(cid, cmd, payload)
    ensures var t := ServeOutOfBand(s);
      if cmd == 0x91 || cmd == 0x88 || cmd == 0x84 || cmd == 0x86
      then t.left == s.left + [FirstFrame(cid, cmd, payload)] && t.remain == s.remain - 1
      else t == s
  {
  }

  lemma LaterFramesWait(s: State, cid: nat, seqNo: byte, payload: seq<byte>, offset: nat)
    requires s.Shaped() && 0 < s.remain && offset <= |payload| && seqNo < 0x80
    requires s.Slot(s.deal) == NextFrame(cid, seqNo, payload, offset)
    ensures ServeOutOfBand(s) == s
  {
  }

  /** Any step of the system: an interrupt whenever the endpoint accepts packets, the main
      loop at any time, the out-of-band service while a CBOR command waits. */
  ghost predicate Step(s: State, s': State)
    requires s.Shaped()
  {
    || (s.ack && exists f: Frame :: |f| <= 64 && s' == Interrupt(s, f))
    || (exists report: Option<Frame> :: s' == MainStep(s, report))
    || (Waiting(s) && s' == ServeOutOfBand(s))
  }

  ghost predicate Initial(s: State) {
    && s.Shaped() && s.load == 0 && s.deal == 0 && s.dma == 0 && s.remain == 0 && !s.stop && s.ack
    && s.phase == Top && s.arrived == [] && s.left == []
  }

  /** The slots from the oldest packet on hold what arrived and has not left, in order. */
  ghost predicate InOrder(s: State)
    requires s.Shaped()
  {
    && |s.arrived| == |s.left| + s.remain && s.left == s.arrived[..|s.left|]
    && forall i :: 0 <= i < s.remain ==>
         Held(s, Plus(s.deal, i), s.arrived[|s.left| + i])
  }

  ghost predicate Held(s: State, slot: nat, f: Frame)
    requires s.Shaped()
  {
    slot < SLOTS && s.data[slot] == f && s.packLen[slot] == |f|
  }

  ghost predicate FlowControl(s: State) {
    && (s.ack <==> !s.stop && s.phase != Reopening)
    && (s.ack ==> s.remain <= 12) && (!s.ack ==> s.remain <= 13)
    && (s.phase.SawLow? && s.ack ==> s.remain < 12)
    && (s.phase.SawLow? || s.phase.Reopening? ==> s.remain <= 12)
    && (s.phase.Reopening? ==> !s.stop)
  }

  /** The packet being worked on is still the oldest one, and not one that is served out of
      band if it completed a CBOR command. */
  ghost predicate Current(s: State)
    requires s.Shaped()
  {
    s.phase.Processing? ==>
      && 0 < s.remain && Held(s, s.deal, s.phase.packet)
      && (s.phase.cbor ==> !OutOfBand(s.phase.packet))
  }

  ghost predicate Inv(s: State) {
    && s.Shaped() && s.load == Plus(s.deal, s.remain) && s.dma == s.load
    && InOrder(s) && FlowControl(s) && Current(s)
  }

  lemma InitialInv(s: State)
    requires Initial(s)
    ensures Inv(s)
  {
  }

  lemma PlusNext(i: nat, n: nat)
    requires i < SLOTS && n <= SLOTS
    ensures Plus(i, n) < SLOTS && Plus(i, n + 1) == Next(Plus(i, n)) && Plus(Next(i), n) == Plus(i, n + 1)
  {
  }

  /** Fewer than 16 places ahead is a different slot. */
  lemma PlusDiffers(i: nat, n: nat, m: nat)
    requires i < SLOTS && n < m < SLOTS
    ensures Plus(i, n) != Plus(i, m)
  {
  }

  lemma InterruptInv(s: State, f: Frame)
    requires Inv(s) && s.ack
    ensures Inv(Interrupt(s, f))
  {
    var r := Interrupt(s, f);
    PlusNext(s.deal, s.remain);
    forall i | 0 <= i < r.remain ensures Held(r, Plus(r.deal, i), r.arrived[|r.left| + i]) {
      if i < s.remain {
        PlusDiffers(s.deal, i, s.remain);
        assert Held(s, Plus(s.deal, i), s.arrived[|s.left| + i]);
      }
    }
    if s.phase.Processing? {
      assert s.deal == Plus(s.deal, 0);
      PlusDiffers(s.deal, 0, s.remain);
    }
  }

  lemma PopInOrder(s: State)
    requires s.Shaped() && InOrder(s) && 0 < s.remain
    ensures InOrder(Pop(s)) && s.Slot(s.deal) == s.arrived[|s.left|]
  {
    var r := Pop(s);
    assert Held(s, Plus(s.deal, 0), s.arrived[|s.left|]);
    assert s.Slot(s.deal) == s.arrived[|s.left|];
    forall i | 0 <= i < r.remain ensures Held(r, Plus(r.deal, i), r.arrived[|r.left| + i]) {
      NextPlus(s.deal, i);
      assert Held(s, Plus(s.deal, i + 1), s.arrived[|s.left| + (i + 1)]);
    }
  }

  lemma NextPlus(i: nat, n: nat)
    requires i < SLOTS
    ensures Plus(Next(i), n) == Plus(i, n + 1)
  {
  }

  /** A message of the CBOR command is completed by a packet that is not served out of
      band. */
  lemma CborIsInBand(t: Transaction, f: Frame)
    requires t.Valid() && IsCbor(Receive(t, f))
    ensures !OutOfBand(f)
  {
  }

  lemma MainInv(s: State, report: Option<Frame>)
    requires Inv(s)
    ensures Inv(MainStep(s, report))
  {
    hide InOrder, Receive;
    match s.phase {
      case Top =>
        if 0 < s.remain {
          assert Held(s, s.deal, s.Slot(s.deal)) by {
            OldestHeld(s);
          }
          var r := Receive(s.transaction, s.Slot(s.deal));
          if IsCbor(r) {
            CborIsInBand(s.transaction, s.Slot(s.deal));
          }
        }
      case Processing(_, _) =>
        PopInOrder(s);
        NextPlus(s.deal, s.remain - 1);
      case _ =>
    }
    SameQueue(if s.phase.Processing? then Pop(s) else s, MainStep(s, report));
  }

  lemma OldestHeld(s: State)
    requires Inv(s) && 0 < s.remain
    ensures Held(s, s.deal, s.Slot(s.deal))
  {
    assert Held(s, Plus(s.deal, 0), s.arrived[|s.left| + 0]);
  }

  lemma SameQueue(s: State, r: State)
    requires s.Shaped() && r.Shaped() && InOrder(s)
    requires r.data == s.data && r.packLen == s.packLen && r.deal == s.deal && r.remain == s.remain
    requires r.arrived == s.arrived && r.left == s.left
    ensures InOrder(r)
  {
  }

  /** The out-of-band service never removes the packet the main loop is working on. */
  lemma ServeInv(s: State)
    requires Inv(s) && Waiting(s)
    ensures Inv(ServeOutOfBand(s)) && (s.phase.Processing? ==> ServeOutOfBand(s) == s)
  {
    hide InOrder;
    if 0 < s.remain {
      OldestHeld(s);
      PopInOrder(s);
      NextPlus(s.deal, s.remain - 1);
    }
  }

  lemma StepInv(s: State, s': State)
    requires Inv(s) && Step(s, s')
    ensures Inv(s')
  {
    if s.ack && exists f: Frame :: |f| <= 64 && s' == Interrupt(s, f) {
      var f: Frame :| |f| <= 64 && s' == Interrupt(s, f);
      InterruptInv(s, f);
    } else if exists report: Option<Frame> :: s' == MainStep(s, report) {
      var report: Option<Frame> :| s' == MainStep(s, report);
      MainInv(s, report);
    } else {
      ServeInv(s);
    }
  }

  /** A run: any interleaving of the three kinds of steps, from the start. */
  ghost predicate IsRun(ss: seq<State>) {
    && 1 <= |ss| && Initial(ss[0])
    && forall i :: 0 <= i < |ss| - 1 ==> Follows(ss[i], ss[i + 1])
  }

  ghost predicate Follows(s: State, s': State) {
    s.Shaped() && Step(s, s')
  }

  ghost predicate Reachable(s: State) {
    exists ss :: IsRun(ss) && ss[|ss| - 1] == s
  }

  lemma ReachNext(s: State, s': State)
    requires Reachable(s) && s.Shaped() && Step(s, s')
    ensures Reachable(s')
  {
    hide Step;
    var ss :| IsRun(ss) && ss[|ss| - 1] == s;
    var more := ss + [s'];
    forall i | 0 <= i < |more| - 1 ensures Follows(more[i], more[i + 1]) {
      if i < |ss| - 1 {
        assert Follows(ss[i], ss[i + 1]);
      }
    }
    assert IsRun(more) && more[|more| - 1] == s';
  }

  lemma {:induction false} RunInv(ss: seq<State>, i: nat)
    requires IsRun(ss) && i < |ss|
    ensures Inv(ss[i])
  {
    hide Inv, Step;
    if i == 0 {
      InitialInv(ss[0]);
    } else {
      RunInv(ss, i - 1);
      assert Follows(ss[i - 1], ss[i]);
      StepInv(ss[i - 1], ss[i]);
    }
  }

  /** Whatever the interleaving: the pointers agree with the count, there is always room,
      the hardware never fills the slot being worked on, packets leave in the order they
      arrived, and the packet being worked on is the next to leave. */
  lemma RunsAreSafe(s: State)
    requires Reachable(s)
    ensures s.Shaped() && s.load == Plus(s.deal, s.remain) && s.dma == s.load && s.remain <= 13
    ensures |s.arrived| == |s.left| + s.remain && s.left <= s.arrived
    ensures s.phase.Processing? ==>
      0 < s.remain && s.dma != s.deal && s.phase.packet == s.Slot(s.deal) == s.arrived[|s.left|]
  {
    var ss :| IsRun(ss) && ss[|ss| - 1] == s;
    RunInv(ss, |ss| - 1);
    if s.phase.Processing? {
      PlusDiffers(s.deal, 0, s.remain);
      assert Held(s, Plus(s.deal, 0), s.arrived[|s.left| + 0]);
    }
  }

  /** How many steps of the main loop a closed endpoint needs at most to open again. */
  function Rank(s: State): nat {
    32 * s.remain +
    match s.phase
    case Top => if s.remain == 0 then 25 else 14
    case Processing(_, _) => 13
    case ReportTurn => 20
    case Reporting(_) => 19
    case Testing => 18
    case SawLow => 2
    case Reopening => 1
  }

  lemma ClosedMakesProgress(s: State, report: Option<Frame>)
    requires Inv(s) && !s.ack
    ensures MainStep(s, report).ack || Rank(MainStep(s, report)) < Rank(s)
    ensures Waiting(s) ==> Rank(ServeOutOfBand(s)) <= Rank(s)
  {
    hide Receive, InOrder;
    if Waiting(s) {
      ServeInv(s);
    }
  }

  /** Any interleaving of steps, from any state that keeps the invariant. */
  ghost predicate IsPath(ss: seq<State>) {
    && 1 <= |ss| && Inv(ss[0])
    && forall i :: 0 <= i < |ss| - 1 ==> Follows(ss[i], ss[i + 1])
  }

  ghost predicate IsMainStep(s: State, s': State) {
    s.Shaped() && exists report: Option<Frame> :: s' == MainStep(s, report)
  }

  /** How many of the first `n` steps are steps of the main loop. */
  ghost function MainSteps(ss: seq<State>, n: nat): nat
    requires n < |ss|
  {
    if n == 0 then 0 else MainSteps(ss, n - 1) + if IsMainStep(ss[n - 1], ss[n]) then 1 else 0
  }

  /** While the endpoint stays closed, every step of the main loop lowers the rank, and no
      other step raises it. */
  lemma {:induction false} RankFalls(ss: seq<State>, n: nat)
    requires IsPath(ss) && n < |ss| && forall k :: 0 <= k <= n ==> !ss[k].ack
    ensures Inv(ss[n]) && MainSteps(ss, n) + Rank(ss[n]) <= Rank(ss[0])
  {
    hide Inv, Rank, Step, IsMainStep;
    if 0 < n {
      RankFalls(ss, n - 1);
      assert Follows(ss[n - 1], ss[n]);
      StepInv(ss[n - 1], ss[n]);
      ClosedStep(ss[n - 1], ss[n]);
    }
  }

  lemma ClosedStep(s: State, s': State)
    requires Inv(s) && !s.ack && !s'.ack && Follows(s, s')
    ensures Rank(s') + (if IsMainStep(s, s') then 1 else 0) <= Rank(s)
  {
    hide Inv, Rank, MainStep, ServeOutOfBand, Waiting;
    if IsMainStep(s, s') {
      var report: Option<Frame> :| s' == MainStep(s, report);
      ClosedMakesProgress(s, report);
    } else {
      ClosedMakesProgress(s, None);
    }
  }

  /** Flow control always reopens: whatever is interleaved, once the main loop has made as
      many steps as the rank of the first state, the endpoint has been open. */
  lemma AlwaysReopens(ss: seq<State>, n: nat)
    requires IsPath(ss) && n < |ss| && Rank(ss[0]) <= MainSteps(ss, n)
    ensures exists k :: 0 <= k <= n && ss[k].ack
  {
    hide Inv, Rank, Step, IsMainStep;
    if forall k :: 0 <= k <= n ==> !ss[k].ack {
      RankFalls(ss, n);
      RankPositive(ss[n]);
    }
  }

  lemma RankPositive(s: State)
    ensures 0 < Rank(s)
  {
  }

  /** The state in which the flow control gives up its limit of 12: the main loop has seen
      room for more, and so many packets have come since that none is left. */
  ghost predicate FilledBetween(s: State) {
    s.phase.SawLow? && s.remain == 12
  }

  /** What holds as long as that does not happen. */
  ghost predicate Tight(s: State) {
    && Inv(s) && s.remain <= 12 && (s.ack ==> s.remain < 12)
    && (s.phase.Reopening? ==> s.remain < 12)
  }

  lemma InitialTight(s: State)
    requires Initial(s)
    ensures Tight(s)
  {
    InitialInv(s);
  }

  lemma TightInterrupt(s: State, f: Frame)
    requires Tight(s) && s.ack
    ensures Tight(Interrupt(s, f))
  {
    hide InOrder;
    InterruptInv(s, f);
  }

  lemma TightMain(s: State, report: Option<Frame>)
    requires Tight(s) && !FilledBetween(s)
    ensures Tight(MainStep(s, report))
  {
    hide InOrder, Receive;
    MainInv(s, report);
  }

  lemma TightStep(s: State, s': State)
    requires Tight(s) && !FilledBetween(s) && Step(s, s')
    ensures Tight(s')
  {
    hide InOrder, Interrupt, MainStep;
    if s.ack && exists f: Frame :: |f| <= 64 && s' == Interrupt(s, f) {
      var f: Frame :| |f| <= 64 && s' == Interrupt(s, f);
      TightInterrupt(s, f);
    } else if exists report: Option<Frame> :: s' == MainStep(s, report) {
      var report: Option<Frame> :| s' == MainStep(s, report);
      TightMain(s, report);
    } else {
      ServeInv(s);
    }
  }

  /** At most 12 packets wait in every run that does not fill up between the two tests. */
  lemma {:induction false} TwelveIsTheLimit(ss: seq<State>, i: nat)
    requires IsRun(ss) && i < |ss| && forall k :: 0 <= k < i ==> !FilledBetween(ss[k])
    ensures Tight(ss[i])
  {
    hide Tight, Step;
    if i == 0 {
      InitialTight(ss[0]);
    } else {
      TwelveIsTheLimit(ss, i - 1);
      assert Follows(ss[i - 1], ss[i]);
      TightStep(ss[i - 1], ss[i]);
    }
  }

  /** The three steps that follow when it does: the endpoint is opened with 12 packets
      waiting, and takes one more. */
  function Overflow(s: State): (r: seq<State>)
    requires s.Shaped()
    ensures |r| == 3
  {
    var t := MainStep(s, None);
    var u := MainStep(t, None);
    [t, u, Interrupt(u, [])]
  }

  lemma FilledOverflows(s: State)
    requires Inv(s) && FilledBetween(s)
    ensures var r := Overflow(s);
      && Follows(s, r[0]) && Follows(r[0], r[1]) && Follows(r[1], r[2]) && r[2].remain == 13
      && forall k :: 0 <= k < 3 ==> !FilledBetween(r[k])
  {
    hide InOrder;
    var t := MainStep(s, None);
    var u := MainStep(t, None);
    assert s.stop && t.phase == Reopening && u.phase == Top && u.ack && u.remain == 12;
    var e: Frame := [];
    assert |e| <= 64 && Overflow(s)[2] == Interrupt(u, e);
  }

  ghost predicate Overfull(ss: seq<State>) {
    exists i :: 0 <= i < |ss| && 12 < ss[i].remain
  }

  ghost predicate Fills(ss: seq<State>) {
    exists i :: 0 <= i < |ss| && FilledBetween(ss[i])
  }

  /** Some beginning of the run goes on to more than 12 packets, without filling up between
      the tests again. */
  ghost predicate GoesOver(ss: seq<State>) {
    exists i, more :: 0 <= i < |ss| && IsContinuation(ss, i, more)
  }

  ghost predicate IsContinuation(ss: seq<State>, i: nat, more: seq<State>)
    requires i < |ss|
  {
    IsRun(ss[..i + 1] + more) && !Fills(more) && Overfull(ss[..i + 1] + more)
  }

  /** The exact condition for the limit of 12: a run can go over it if and only if it fills
      up between the test of the count and the test of the flag. */
  lemma OverTwelveExactly(ss: seq<State>)
    requires IsRun(ss)
    ensures GoesOver(ss) <==> Fills(ss)
  {
    if Fills(ss) {
      var i: nat :| i < |ss| && FilledBetween(ss[i]);
      FillingGoesOver(ss, i);
    }
    if GoesOver(ss) {
      var i: nat, more :| i < |ss| && IsContinuation(ss, i, more);
      OverfullFilled(ss[..i + 1], more);
      var k: nat :| k < |ss[..i + 1]| && FilledBetween(ss[..i + 1][k]);
      assert FilledBetween(ss[k]);
    }
  }

  lemma FillingGoesOver(ss: seq<State>, i: nat)
    requires IsRun(ss) && i < |ss| && FilledBetween(ss[i])
    ensures GoesOver(ss)
  {
    hide Step, FilledBetween, Inv, Overflow;
    RunInv(ss, i);
    FilledOverflows(ss[i]);
    var more := Overflow(ss[i]);
    var all := ss[..i + 1] + more;
    forall k | 0 <= k < |all| - 1 ensures Follows(all[k], all[k + 1]) {
      if k < i {
        assert Follows(ss[k], ss[k + 1]);
      }
    }
    assert 12 < all[i + 3].remain;
    assert IsContinuation(ss, i, more);
  }

  lemma OverfullFilled(ss: seq<State>, more: seq<State>)
    requires IsRun(ss + more) && Overfull(ss + more) && !Fills(more)
    ensures Fills(ss)
  {
    hide Tight, Step, FilledBetween;
    var all := ss + more;
    var i: nat :| i < |all| && 12 < all[i].remain;
    if forall k :: 0 <= k < i ==> !FilledBetween(all[k]) {
      TwelveIsTheLimit(all, i);
      OverIsNotTight(all[i]);
    }
    var k: nat :| k < i && FilledBetween(all[k]);
    FilledInPart(ss, more, k);
  }

  lemma FilledInPart(ss: seq<State>, more: seq<State>, k: nat)
    requires k < |ss + more| && FilledBetween((ss + more)[k]) && !Fills(more)
    ensures Fills(ss)
  {
    hide FilledBetween;
    if k < |ss| {
      assert FilledBetween(ss[k]);
    }
  }

  lemma OverIsNotTight(s: State)
    requires 12 < s.remain
    ensures !Tight(s)
  {
  }

  /** After it fills up there, the next step leads to the reopening and the one after it to
      an open endpoint with 12 packets waiting, as nothing else can happen in between. */
  lemma FilledOpens(s: State, t: State, u: State)
    requires Inv(s) && FilledBetween(s) && Follows(s, t) && Follows(t, u)
    ensures !s.ack && !t.ack && u.ack && u.remain == 12
  {
    hide InOrder, Receive;
  }

  /** In the same run: the endpoint is open with 12 packets waiting if and only if the run
      has filled up between the tests, two steps or more before its end. */
  lemma OpenWhenFullExactly(ss: seq<State>)
    requires IsRun(ss)
    ensures (exists j :: 0 <= j < |ss| && OpenWhenFull(ss[j])) <==> (exists i :: 0 <= i < |ss| - 2 && FilledBetween(ss[i]))
  {
    hide Step, Inv, FilledBetween, OpenWhenFull;
    if exists i :: 0 <= i < |ss| - 2 && FilledBetween(ss[i]) {
      var i: nat :| i < |ss| - 2 && FilledBetween(ss[i]);
      FilledThenOpen(ss, i);
    }
    if exists j :: 0 <= j < |ss| && OpenWhenFull(ss[j]) {
      var j: nat :| j < |ss| && OpenWhenFull(ss[j]);
      OpenNeedsFilling(ss, j);
    }
  }

  ghost predicate OpenWhenFull(s: State) {
    s.ack && 12 <= s.remain
  }

  lemma FilledThenOpen(ss: seq<State>, i: nat)
    requires IsRun(ss) && i + 2 < |ss| && FilledBetween(ss[i])
    ensures OpenWhenFull(ss[i + 2])
  {
    hide Step, Inv;
    RunInv(ss, i);
    assert Follows(ss[i], ss[i + 1]) && Follows(ss[i + 1], ss[i + 2]);
    FilledOpens(ss[i], ss[i + 1], ss[i + 2]);
  }

  lemma OpenNeedsFilling(ss: seq<State>, j: nat)
    requires IsRun(ss) && j < |ss| && OpenWhenFull(ss[j])
    ensures exists i :: 0 <= i < j - 1 && FilledBetween(ss[i])
  {
    hide Step, Inv, FilledBetween;
    if forall k :: 0 <= k < j - 1 ==> !FilledBetween(ss[k]) {
      if 0 < j {
        TwelveIsTheLimit(ss, j - 1);
        assert Follows(ss[j - 1], ss[j]);
        NotYetOpen(ss[j - 1], ss[j]);
      }
    }
  }

  lemma NotYetOpen(s: State, s': State)
    requires Tight(s) && Follows(s, s')
    ensures !OpenWhenFull(s')
  {
    hide Step;
    if FilledBetween(s) {
      FilledStaysClosed(s, s');
    } else {
      TightStep(s, s');
    }
  }

  lemma FilledStaysClosed(s: State, s': State)
    requires Inv(s) && FilledBetween(s) && Follows(s, s')
    ensures !s'.ack
  {
    hide InOrder, Receive;
  }

  lemma PacketBefore(ss: seq<State>, j: nat)
    requires IsRun(ss) && j < |ss| && ss[j].phase.SawLow? && LOW <= ss[j].remain
    ensures 0 < j && ss[j - 1].phase.SawLow? && ss[j].remain == ss[j - 1].remain + 1
    ensures |ss[j].arrived| == |ss[j - 1].arrived| + 1
  {
    hide Follows;
    assert 0 < j by {
      assert ss[0].phase == Top;
    }
    assert Follows(ss[j - 1], ss[j]);
    OnlyPackets(ss[j - 1], ss[j]);
  }

  /** Filling up there takes seven packets in a row, all between the two tests. */
  lemma {:induction false} SevenPackets(ss: seq<State>, i: nat, n: nat)
    requires IsRun(ss) && i < |ss| && FilledBetween(ss[i]) && n <= 7
    ensures n <= i && ss[i - n].phase.SawLow? && ss[i - n].remain == 12 - n
    ensures |ss[i].arrived| == |ss[i - n].arrived| + n
  {
    hide IsRun;
    if 0 < n {
      var m := n - 1;
      SevenPackets(ss, i, m);
      var j := i - m;
      PacketBefore(ss, j);
      assert i - n == j - 1;
    }
  }

  lemma OnlyPackets(s: State, s': State)
    requires Follows(s, s') && s'.phase.SawLow? && LOW <= s'.remain
    ensures s.phase.SawLow? && s'.remain == s.remain + 1 && |s'.arrived| == |s.arrived| + 1
  {
    hide MainStep;
    if exists report: Option<Frame> :: s' == MainStep(s, report) {
      var report: Option<Frame> :| s' == MainStep(s, report);
      EntersLow(s, report);
    }
  }

  lemma EntersLow(s: State, report: Option<Frame>)
    requires s.Shaped() && MainStep(s, report).phase.SawLow?
    ensures MainStep(s, report).remain < LOW
  {
    hide Receive;
  }

  function Burst(s: State, n: nat): (r: State)
    requires s.Shaped()
    ensures r.Shaped()
  {
    if n == 0 then s else Interrupt(Burst(s, n - 1), [])
  }

  lemma {:induction false} BurstReaches(s: State, n: nat)
    requires Reachable(s) && s.Shaped() && s.ack && !s.stop && s.remain + n <= 12
    ensures var r := Burst(s, n);
      && Reachable(r) && r.remain == s.remain + n && r.phase == s.phase
      && (if s.remain + n < 12 || n == 0 then r.ack && !r.stop else !r.ack && r.stop)
  {
    if 0 < n {
      BurstReaches(s, n - 1);
      var e: Frame := [];
      assert |e| <= 64;
      ReachNext(Burst(s, n - 1), Burst(s, n));
    }
  }

  lemma ReachMain(s: State)
    requires Reachable(s) && s.Shaped()
    ensures Reachable(MainStep(s, None))
  {
    ReachNext(s, MainStep(s, None));
  }

  lemma StartReaches(s: State)
    requires Initial(s)
    ensures Reachable(s)
  {
    assert IsRun([s]) && [s][0] == s;
  }

  /** The limit of 12 is exceeded when packets arrive between the test of the count and the
      test of the flag: the endpoint is reopened with 12 packets waiting, and takes a 13th. */
  lemma TestsCanBeSplit(s: State)
    requires Initial(s)
    ensures exists t :: Reachable(t) && t.Shaped() && t.remain == 13
  {
    hide Reachable, Interrupt;
    StartReaches(s);
    ReachMain(s);
    var a := MainStep(s, None);
    ReachMain(a);
    var b := MainStep(a, None);
    ReachMain(b);
    var c := MainStep(b, None);
    assert c.phase == SawLow && c.remain == 0 && c.ack && !c.stop;
    BurstReaches(c, 12);
    var d := Burst(c, 12);
    ReachMain(d);
    var e := MainStep(d, None);
    ReachMain(e);
    var f := MainStep(e, None);
    assert f.ack && f.remain == 12;
    OneMore(f);
  }

  lemma OneMore(s: State)
    requires Reachable(s) && s.Shaped() && s.ack
    ensures exists t :: Reachable(t) && t.Shaped() && t.remain == s.remain + 1
  {
    var e: Frame := [];
    assert |e| <= 64;
    ReachNext(s, Interrupt(s, e));
  }

  /** The ring itself, with the endpoint registers it drives. */
  class Endpoint {
    const data: array<Frame>
    const packLen: array<nat>
    var load: nat
    var deal: nat
    var remain: nat
    var stop: bool
    var ack: bool
    var dma: nat
    ghost var phase: Phase
    ghost var transaction: Transaction
    ghost var arrived: seq<Frame>
    ghost var left: seq<Frame>

    ghost function View(): State
      reads this, data, packLen
    {
      State(data[..], packLen[..], load, deal, remain, stop, ack, dma, phase, transaction, arrived, left)
    }

    constructor ()
      ensures Initial(View()) && fresh(data) && fresh(packLen)
    {
      data := new Frame[16](i => []);
      packLen := new nat[16](i => 0);
      load, deal, remain, stop, ack, dma := 0, 0, 0, false, true, 0;
      phase, transaction, arrived, left := Top, Transaction(Zeros(1024), 0, 0, 0, 0, 0), [], [];
    }

    /** Lines 260-279 of ch32x035_usbfs_device.c, after the hardware has stored the packet. */
    method OnPacket(f: Frame)
      requires View().Shaped()
      modifies this`load, this`dma, this`remain, this`ack, this`stop, this`arrived, data, packLen
      ensures View() == Interrupt(old(View()), f)
    {
      data[dma] := f;
      packLen[load] := |f|;
      load := load + 1;
      if load == SLOTS {
        load := 0;
      }
      dma := load;
      remain := remain + 1;
      if FULL <= remain {
        ack := false;
        stop := true;
      }
      arrived := arrived + [f];
    }

    /** The removal shared by the main loop and Process_OOB_Commands. */
    method RemoveOldest()
      requires View().Shaped() && 0 < remain
      modifies this`remain, this`deal, this`left
      ensures View() == Pop(old(View()))
    {
      left := left + [View().Slot(deal)];
      remain := remain - 1;
      deal := deal + 1;
      if deal == SLOTS {
        deal := 0;
      }
    }

    method Oldest() returns (f: Frame)
      requires View().Shaped()
      ensures f == View().Slot(deal)
    {
      f := if packLen[deal] <= |data[deal]| then data[deal][..packLen[deal]] else data[deal];
    }

    method ProcessOobCommands()
      requires View().Shaped()
      modifies this`remain, this`deal, this`left
      ensures View() == ServeOutOfBand(old(View()))
    {
      if remain != 0 {
        var f := Oldest();
        if 5 <= |f| && f[4] >= 0x80 {
          if f[4] == 0x88 || f[4] == 0x84 {
            RemoveOldest();
          } else if f[4] == CANCEL {
            RemoveOldest();
          } else if f[4] == 0x86 {
            RemoveOldest();
          }
        }
      }
    }

    /** Lines 260-267 of main.c, with no interrupt between the tests. */
    method Reopen()
      requires View().Shaped() && phase == Testing
      modifies this`stop, this`ack, this`phase
      ensures var t := MainStep(old(View()), None);
        View() == if t.phase == Top then t
                  else var u := MainStep(t, None); if u.phase == Top then u else MainStep(u, None)
    {
      if remain < LOW {
        if stop {
          stop := false;
          ack := true;
        }
      }
      phase := Top;
    }
  }
}
