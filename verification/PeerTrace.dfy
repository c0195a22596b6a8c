/**
 What every run of a peer slot keeps: the slot invariant, and that the slot's visible acts are a run
 of a small session automaton. From the automaton follow at-most-once delivery, the authentication
 of automatic sessions and the discipline of the offline-queue flush.
 */
module PeerTrace {
  import opened Bytes
  import opened Frames
  import opened Onion
  import opened Receiver
  import opened Peer

  ghost predicate CoreInv(c: Core) {
    && c.rxSeq < TWO32 && c.txSeq < TWO32
    && (c.session.Some? ==> Established(c.st) && c.connected && c.hs.None?)
    && (Established(c.st) ==> c.session.Some?)
    && (c.hs.Some? ==> InHandshake(c.st) || (c.st == TofuPending && c.hs.value.index >= 3))
    && (InHandshake(c.st) ==> c.hs.Some? && c.hs.value.index < 3 && c.connected)
    && (c.st == TofuPending ==> c.hs.Some? && c.connected)
    && (c.connected <==> c.st != Idle)
    && (c.st == Idle ==> c.target == [])
    && c.st != Connecting
    && (c.verified ==> c.session.Some?)
    && (c.rx.active ==> c.session.Some?)
    && RxInv(c.rx, c.disk)
  }

  ghost predicate SlotInv(s: Slot) {
    CoreInv(s.core) && |s.buf| <= BUF_CAPACITY && (s.core.st == Idle ==> s.buf == [])
  }

  // ----- the session automaton -----

  /** How the current connection came about. */
  datatype Conn = ByDial(target: seq<Byte>) | ByAccept

  /** Where a log of acts stands: outside any session, with the connection if there is one, or inside one with what
      has happened in it; and the address book as the log has built it up. */
  datatype Phase =
    | Outside(conn: Option<Conn>, book: Book)
    | Inside(auto: bool, onion: seq<Byte>, delivered: nat, flushed: bool, book: Book)

  /** What the claim itself must show: right length and version, an address of a real key, and a signature by that
      key binding the address to the static key of the handshake. */
  ghost predicate GoodClaim(env: Env, claim: seq<Byte>, remoteStatic: seq<Byte>)
    requires IsDigest(env.sha3)
  {
    && |claim| == PAYLOAD_V1_LEN && claim[0] == PAYLOAD_V1_VER
    && var onion := ClaimedOnion(claim);
       var key := OnionPubkey(env.sha3, onion);
       key.Key? && env.verify(claim[63..127], BindMessage(onion, remoteStatic), key.pub)
  }

  /** An automatic session: a good claim, of the dialled address if the connection was dialled, whose static key is
      the non-zero key the address book holds for the address. */
  ghost predicate Justified(env: Env, p: Phase, a: Act)
    requires a.AutoSession? && p.Outside? && IsDigest(env.sha3)
  {
    && GoodClaim(env, a.claim, a.remoteStatic)
    && var onion := ClaimedOnion(a.claim);
       && p.conn.Some? && (p.conn.value.ByDial? ==> p.conn.value.target == onion)
       && !env.ghostMode && onion in p.book && p.book[onion] == a.remoteStatic && !AllZero(a.remoteStatic)
  }

  ghost predicate Allowed(env: Env, p: Phase, a: Act)
    requires IsDigest(env.sha3)
  {
    match a
    case Dialled(_) => p.Outside? && p.conn.None?
    case Accepted => p.Outside? && p.conn.None?
    case BookSet(_) => true
    case BookPut(_, _) => p.Outside? && p.conn.Some? && !env.ghostMode
    case AutoSession(_, _) => p.Outside? && Justified(env, p, a)
    case TofuSession(_) => p.Outside? && p.conn.Some?
    case TextShown(n, t) => p.Inside? && n == p.delivered % TWO32 && |t| > 0
    case FileHandled(n, _, _) => p.Inside? && n == p.delivered % TWO32
    case QueueFlush(o) => p.Inside? && p.auto && !p.flushed && p.onion == o && p.delivered > 0
    case QueueWithheld => p.Inside? && !p.auto
    case Closed => true
  }

  function Advance(p: Phase, a: Act): (p': Phase) {
    match a
    case Dialled(t) => if p.Outside? then p.(conn := Some(ByDial(t))) else p
    case Accepted => if p.Outside? then p.(conn := Some(ByAccept)) else p
    case BookSet(b) => p.(book := b)
    case BookPut(o, k) => p.(book := p.book[o := k])
    case AutoSession(claim, _) => Inside(true, if |claim| == PAYLOAD_V1_LEN then ClaimedOnion(claim) else [], 0, false, p.book)
    case TofuSession(o) => Inside(false, o, 0, false, p.book)
    case TextShown(_, _) => if p.Inside? then p.(delivered := p.delivered + 1) else p
    case FileHandled(_, _, _) => if p.Inside? then p.(delivered := p.delivered + 1) else p
    case QueueFlush(_) => if p.Inside? then p.(flushed := true) else p
    case QueueWithheld => p
    case Closed => Outside(None, p.book)
  }

  function PhaseAfter(p: Phase, log: seq<Act>): (p': Phase)
    decreases |log|
  {
    if log == [] then p else PhaseAfter(Advance(p, log[0]), log[1..])
  }

  ghost predicate Accepts(env: Env, p: Phase, log: seq<Act>)
    requires IsDigest(env.sha3)
    decreases |log|
  {
    log == [] || (Allowed(env, p, log[0]) && Accepts(env, Advance(p, log[0]), log[1..]))
  }

  lemma {:induction false} AcceptsAppend(env: Env, p: Phase, a: seq<Act>, b: seq<Act>)
    requires IsDigest(env.sha3) && Accepts(env, p, a) && Accepts(env, PhaseAfter(p, a), b)
    ensures Accepts(env, p, a + b)
    ensures PhaseAfter(p, a + b) == PhaseAfter(PhaseAfter(p, a), b)
    decreases |a|
  {
    if a == [] {
      assert a + b == b;
    } else {
      assert (a + b)[0] == a[0] && (a + b)[1..] == a[1..] + b;
      AcceptsAppend(env, Advance(p, a[0]), a[1..], b);
    }
  }

  lemma OneAct(env: Env, p: Phase, a: Act)
    requires IsDigest(env.sha3)
    ensures PhaseAfter(p, [a]) == Advance(p, a)
    ensures Accepts(env, p, [a]) <==> Allowed(env, p, a)
  {
    assert [a][1..] == [];
  }

  /** The slot's fields agree with where its log stands. */
  ghost predicate Coupled(c: Core, p: Phase) {
    c.contacts == p.book &&
    if p.Outside? then
      c.session.None? &&
      match p.conn
      case None => !c.connected
      case Some(ByDial(t)) => c.connected && c.target == t && t != []
      case Some(ByAccept) => c.connected && c.target == []
    else
      && c.session.Some? && c.rxSeq == p.delivered % TWO32
      && c.verified == p.auto && c.onion == p.onion
      && (p.flushed ==> c.queueFlushed)
  }

  // ----- one frame -----

  ghost predicate Simulates(env: Env, p: Phase, o: Out)
    requires IsDigest(env.sha3)
  {
    && CoreInv(o.core) && Accepts(env, p, o.log) && Coupled(o.core, PhaseAfter(p, o.log))
    && (o.core.st == Idle ==> o.reset) && (o.flow == Break ==> o.reset)
  }

  lemma FailSimulates(env: Env, c: Core, p: Phase, ev: SmEvent, flow: Flow)
    requires IsDigest(env.sha3) && RxInv(c.rx, c.disk) && c.contacts == p.book
    requires Transition(c.st, ev) == Some(Idle)
    ensures Simulates(env, p, Fail(c, ev, flow)) && Fail(c, ev, flow).reset
  {
    OneAct(env, p, Closed);
  }

  lemma ClaimSimulates(env: Env, c: Core, p: Phase, hs: Handshake, pl: seq<Byte>)
    requires IsDigest(env.sha3) && Coupled(c, p)
    requires InHandshake(c.st) && c.session.None? && c.hs == Some(hs) && hs.index >= 3 && c.connected
    requires c.rxSeq < TWO32 && c.txSeq < TWO32 && !c.verified && !c.rx.active
    ensures Simulates(env, p, HandleClaim(env, c, hs, pl))
  {
    hide CString;
    hide OnionPubkey;
    FailSimulates(env, c, p, HandshakeError, Continue);
    FailSimulates(env, c, p, ArenaFail, Continue);
    var o := HandleClaim(env, c, hs, pl);
    if o.log != [] && o.log[0].AutoSession? {
      OneAct(env, p, o.log[0]);
    }
  }

  lemma HandshakeSimulates(env: Env, c: Core, p: Phase, payload: seq<Byte>)
    requires IsDigest(env.sha3) && CoreInv(c) && Coupled(c, p) && c.hs.Some? && c.hs.value.index < 3
    ensures Simulates(env, p, HandleHandshake(env, c, payload))
  {
    match env.hsRead(c.hs.value, payload)
    case None => FailSimulates(env, c, p, HandshakeError, Break);
    case Some((hs, pl)) =>
      var read := c.(hs := Some(hs));
      var replied := if hs.index < 3 then env.hsReply(hs) else Some(hs);
      if replied.None? {
        FailSimulates(env, read, p, HandshakeError, Break);
      } else {
        var c1 := read.(hs := replied, txSeq := if hs.index < 3 then Next32(c.txSeq) else c.txSeq);
        if replied.value.index >= 3 {
          ClaimSimulates(env, c1, p, replied.value, pl);
        }
      }
  }

  lemma FlushSimulates(env: Env, c: Core, p: Phase)
    requires IsDigest(env.sha3) && CoreInv(c) && c.session.Some? && p.Inside? && p.delivered > 0
    requires c.verified == p.auto && c.onion == p.onion && (p.flushed ==> c.queueFlushed) && c.contacts == p.book
    requires Next32(c.rxSeq) == p.delivered % TWO32
    ensures var (c', acts, reset) := FlushQueue(env, c);
            Simulates(env, p, Out(c'.(rxSeq := Next32(c'.rxSeq)), acts, reset, Continue))
  {
    var (c', acts, reset) := FlushQueue(env, c);
    if acts != [] {
      OneAct(env, p, acts[0]);
      if reset {
        OneAct(env, Advance(p, acts[0]), Closed);
        AcceptsAppend(env, p, [acts[0]], [Closed]);
        assert acts == [acts[0]] + [Closed];
      } else {
        assert acts == [acts[0]];
      }
    }
  }

  lemma TextSimulates(env: Env, c: Core, p: Phase, s: Session, f: Frame)
    requires IsDigest(env.sha3) && CoreInv(c) && Coupled(c, p) && c.session == Some(s) && f.seqNo == c.rxSeq
    ensures Simulates(env, p, HandleText(env, c, s, f))
  {
    var (s', pt) := Decrypt(env, s, f.payload);
    if pt.Some? && |pt.value| > 0 {
      var c1 := c.(session := Some(s'));
      var shown := TextShown(f.seqNo, pt.value);
      OneAct(env, p, shown);
      ModShift(p.delivered, 1);
      FlushSimulates(env, c1, Advance(p, shown));
      AcceptsAppend(env, p, [shown], FlushQueue(env, c1).1);
    }
  }

  lemma StepKeepsRx(env: Env, c: Core, plain: Option<seq<Byte>>)
    requires RxInv(c.rx, c.disk)
    ensures var step := RxStep(env.hash, c.rx, c.disk, plain, env.world(c.clock).answers); RxInv(step.rx, step.disk)
  {
    hide RxInv;
    hide RxStep;
    ApplyKeepsInv(env.hash, c.rx, c.disk, Deliver(plain, env.world(c.clock).answers));
  }

  /** Handling a file frame, whatever the receiver made of it. */
  lemma HandledSimulates(env: Env, c: Core, p: Phase, c': Core, seqNo: nat, plain: Option<seq<Byte>>, note: Note)
    requires IsDigest(env.sha3) && CoreInv(c) && Coupled(c, p) && c.session.Some? && seqNo == c.rxSeq
    requires c'.session.Some? && RxInv(c'.rx, c'.disk) && c'.st == AfterRx(c.st, c.rx.active, note)
    requires c' == c.(session := c'.session, rx := c'.rx, disk := c'.disk, rxSeq := Next32(c.rxSeq), st := c'.st)
    ensures Simulates(env, p, Out(c', [FileHandled(seqNo, plain, note)], false, Continue))
  {
    hide RxInv;
    OneAct(env, p, FileHandled(seqNo, plain, note));
    ModShift(p.delivered, 1);
  }

  lemma FileSimulates(env: Env, c: Core, p: Phase, s: Session, f: Frame)
    requires IsDigest(env.sha3) && CoreInv(c) && Coupled(c, p) && c.session == Some(s) && f.seqNo == c.rxSeq
    ensures Simulates(env, p, HandleFile(env, c, s, f))
  {
    hide RxStep;
    hide RxInv;
    if MAC_LEN <= |f.payload| <= MAX_PAYLOAD {
      hide Simulates;
      var (_, pt) := Decrypt(env, s, f.payload);
      var plain := if pt.Some? && |pt.value| > 0 then pt else None;
      StepKeepsRx(env, c, plain);
      var o := HandleFile(env, c, s, f);
      HandledSimulates(env, c, p, o.core, f.seqNo, plain, o.log[0].note);
    }
  }

  lemma DispatchSimulates(env: Env, c: Core, p: Phase, f: Frame)
    requires IsDigest(env.sha3) && CoreInv(c) && Coupled(c, p) && c.st != Idle
    ensures Simulates(env, p, Dispatch(env, c, f))
  {
    hide HandleHandshake;
    hide HandleText;
    hide HandleFile;
    if f.typ == MSG_CTRL && c.hs.Some? && c.hs.value.index < 3 {
      HandshakeSimulates(env, c, p, f.payload);
    } else if (f.typ == MSG_TEXT || f.typ == MSG_FILE) && c.session.Some? {
      if f.seqNo != c.rxSeq {
        FailSimulates(env, c, p, SeqMismatch, Break);
      } else if f.typ == MSG_TEXT {
        TextSimulates(env, c, p, c.session.value, f);
      } else {
        FileSimulates(env, c, p, c.session.value, f);
      }
    }
  }

  // ----- the loop, one input, whole runs -----

  lemma {:induction false} ProcessSimulates(env: Env, s: Slot, p: Phase)
    requires IsDigest(env.sha3) && SlotInv(s) && Coupled(s.core, p)
    ensures var r := Process(env, s);
            SlotInv(r.slot) && Accepts(env, p, r.log) && Coupled(r.slot.core, PhaseAfter(p, r.log))
    decreases |s.buf|
  {
    var front := ParseFront(s.buf);
    if front.Complete? && !Held(s.core, front.frame) {
      var o := Dispatch(env, s.core, front.frame);
      DispatchSimulates(env, s.core, p, front.frame);
      if o.flow == Continue {
        var s' := Slot(o.core, if o.reset then [] else front.rest);
        ProcessSimulates(env, s', PhaseAfter(p, o.log));
        AcceptsAppend(env, p, o.log, Process(env, s').log);
      }
    }
  }

  lemma CloseSimulates(env: Env, s: Slot, p: Phase, ev: SmEvent)
    requires IsDigest(env.sha3) && SlotInv(s) && Coupled(s.core, p)
    requires Transition(s.core.st, ev) in {None, Some(Idle)}
    ensures var r := Close(s, ev);
            SlotInv(r.slot) && Accepts(env, p, r.log) && Coupled(r.slot.core, PhaseAfter(p, r.log))
  {
    OneAct(env, p, Closed);
  }

  /** The slot after some input, and its log, follow the automaton. */
  ghost predicate Follows(env: Env, p: Phase, r: Run)
    requires IsDigest(env.sha3)
  {
    SlotInv(r.slot) && Accepts(env, p, r.log) && Coupled(r.slot.core, PhaseAfter(p, r.log))
  }

  lemma FullSimulates(env: Env, s: Slot, p: Phase)
    requires IsDigest(env.sha3) && SlotInv(s) && Coupled(s.core, p)
    ensures Follows(env, p, React(env, s, BufferFull))
  {
    hide Process;
    hide Close;
    hide Accepts;
    hide PhaseAfter;
    hide CoreInv;
    hide Coupled;
    ProcessSimulates(env, s, p);
    var r := Process(env, s);
    if r.slot.core.connected {
      CloseSimulates(env, r.slot, PhaseAfter(p, r.log), PeerDisconnected);
      AcceptsAppend(env, p, r.log, Close(r.slot, PeerDisconnected).log);
    }
  }

  lemma AnswerSimulates(env: Env, s: Slot, p: Phase, i: Input)
    requires IsDigest(env.sha3) && SlotInv(s) && Coupled(s.core, p) && i.TofuAnswer?
    ensures Follows(env, p, React(env, s, i))
  {
    hide AcceptTofu;
    hide Close;
    hide Coupled;
    if s.core.st == TofuPending {
      CloseSimulates(env, s, p, TofuRejected);
      if i.accept && i.tokenOk { TofuSimulates(env, s, p, i.saved, i.alloc); }
    }
  }

  lemma NothingSimulates(env: Env, s: Slot, p: Phase)
    requires IsDigest(env.sha3) && SlotInv(s) && Coupled(s.core, p)
    ensures Follows(env, p, Run(s, []))
  {
  }

  /** One input of any kind keeps the invariant and extends the log as the automaton allows. */
  lemma {:induction false} ReactSimulates(env: Env, s: Slot, p: Phase, i: Input)
    requires IsDigest(env.sha3) && SlotInv(s) && Coupled(s.core, p) && Enabled(s, i)
    ensures var r := React(env, s, i);
            SlotInv(r.slot) && Accepts(env, p, r.log) && Coupled(r.slot.core, PhaseAfter(p, r.log))
  {
    hide Process;
    hide AcceptTofu;
    hide Close;
    hide Accepts;
    hide PhaseAfter;
    NothingSimulates(env, s, p);
    match i
    case Receive(data) => ProcessSimulates(env, s.(buf := s.buf + data), p);
    case BufferFull => FullSimulates(env, s, p);
    case Drain => ProcessSimulates(env, s, p);
    case TofuAnswer(_, _, _, _) => AnswerSimulates(env, s, p, i);
    case Lost(ev) => CloseSimulates(env, s, p, ev);
    case Dial(_, _) => ConnectSimulates(env, s, p, i);
    case Accept(_) => ConnectSimulates(env, s, p, i);
    case SweepRx(now) => SweepSimulates(env, s, p, now);
    case AddressBook(b) => OneAct(env, p, BookSet(b));
    case Transmit(_, broken) => if broken { CloseSimulates(env, s, p, PeerDisconnected); } else { LocalSimulates(env, s, p, i); }
    case FileCommand(_) => LocalSimulates(env, s, p, i);
  }

  /** A new connection in an idle slot. */
  lemma ConnectSimulates(env: Env, s: Slot, p: Phase, i: Input)
    requires IsDigest(env.sha3) && SlotInv(s) && Coupled(s.core, p) && Enabled(s, i) && (i.Dial? || i.Accept?)
    ensures var r := React(env, s, i);
            SlotInv(r.slot) && Accepts(env, p, r.log) && Coupled(r.slot.core, PhaseAfter(p, r.log))
  {
    hide Process;
    hide AcceptTofu;
    assert s.core.session.None?;
    if i.Dial? { OneAct(env, p, Dialled(i.target)); } else { OneAct(env, p, Accepted); }
  }

  /** The chunk timeout logs nothing. */
  lemma SweepSimulates(env: Env, s: Slot, p: Phase, now: int)
    requires IsDigest(env.sha3) && SlotInv(s) && Coupled(s.core, p)
    ensures var r := React(env, s, SweepRx(now)); SlotInv(r.slot) && r.log == [] && Coupled(r.slot.core, p)
  {
    hide Process;
    hide AcceptTofu;
    hide RxInv;
    hide Apply;
    hide Cleaned;
    ApplyKeepsInv(env.hash, s.core.rx, s.core.disk, Tick(now));
    TickStops(env.hash, s.core.rx, s.core.disk, now);
  }

  lemma TickStops(h: HashFn, rx: Rx, disk: Disk, now: int)
    ensures Apply(h, rx, disk, Tick(now)).rx.active ==> rx.active
  {
  }

  /** Nor do frames sent and the file commands. */
  lemma LocalSimulates(env: Env, s: Slot, p: Phase, i: Input)
    requires IsDigest(env.sha3) && SlotInv(s) && Coupled(s.core, p) && Enabled(s, i)
    requires i.FileCommand? || (i.Transmit? && !i.broken)
    ensures var r := React(env, s, i); SlotInv(r.slot) && r.log == [] && Coupled(r.slot.core, p)
  {
    hide Process;
    hide AcceptTofu;
    hide RxInv;
    hide Cleaned;
  }

  lemma TofuSimulates(env: Env, s: Slot, p: Phase, saved: bool, alloc: bool)
    requires IsDigest(env.sha3) && SlotInv(s) && Coupled(s.core, p) && s.core.st == TofuPending
    ensures var r := AcceptTofu(env, s, saved, alloc);
            SlotInv(r.slot) && Accepts(env, p, r.log) && Coupled(r.slot.core, PhaseAfter(p, r.log))
  {
    var store := !env.ghostMode && saved;
    var put := if store then [BookPut(s.core.tofuOnion, s.core.tofuKey)] else [];
    var c := if store then s.core.(contacts := s.core.contacts[s.core.tofuOnion := s.core.tofuKey]) else s.core;
    if store { OneAct(env, p, put[0]); }
    var p1 := PhaseAfter(p, put);
    assert Accepts(env, p, put) && Coupled(c, p1);
    if !alloc || env.split(c.hs.value).None? {
      CloseSimulates(env, Slot(c, s.buf), p1, PeerDisconnected);
      AcceptsAppend(env, p, put, Close(Slot(c, s.buf), PeerDisconnected).log);
    } else {
      OneAct(env, p1, TofuSession(c.tofuOnion));
      AcceptsAppend(env, p, put, [TofuSession(c.tofuOnion)]);
    }
  }

  /** An idle slot with an empty buffer. */
  function Fresh(disk: Disk, book: Book): (s: Slot) {
    Slot(Core(Idle, false, None, None, 0, 0, false, false, [], [], [], [], BLANK, disk, book, 0), [])
  }

  /** Where a slot's log may stand. */
  function PhaseOf(c: Core): (p: Phase) {
    if c.session.Some? then Inside(c.verified, c.onion, c.rxSeq, false, c.contacts)
    else Outside(if !c.connected then None else Some(if c.target == [] then ByAccept else ByDial(c.target)), c.contacts)
  }

  lemma PhaseOfCoupled(c: Core)
    requires CoreInv(c)
    ensures Coupled(c, PhaseOf(c))
  {
  }

  lemma FreshInv(disk: Disk, book: Book)
    ensures SlotInv(Fresh(disk, book)) && Coupled(Fresh(disk, book).core, Outside(None, book))
  {
  }

  function RunAll(env: Env, s: Slot, inputs: seq<Input>): (r: Run)
    requires IsDigest(env.sha3)
    decreases |inputs|
  {
    if inputs == [] then Run(s, [])
    else
      var first := React(env, s, inputs[0]);
      var rest := RunAll(env, first.slot, inputs[1..]);
      Run(rest.slot, first.log + rest.log)
  }

  ghost predicate EnabledAll(env: Env, s: Slot, inputs: seq<Input>)
    requires IsDigest(env.sha3)
    decreases |inputs|
  {
    inputs == [] || (Enabled(s, inputs[0]) && EnabledAll(env, React(env, s, inputs[0]).slot, inputs[1..]))
  }

  lemma {:induction false} RunSimulates(env: Env, s: Slot, p: Phase, inputs: seq<Input>)
    requires IsDigest(env.sha3) && SlotInv(s) && Coupled(s.core, p) && EnabledAll(env, s, inputs)
    ensures var r := RunAll(env, s, inputs);
            SlotInv(r.slot) && Accepts(env, p, r.log) && Coupled(r.slot.core, PhaseAfter(p, r.log))
    decreases |inputs|
  {
    if inputs != [] {
      ReactSimulates(env, s, p, inputs[0]);
      var first := React(env, s, inputs[0]);
      RunSimulates(env, first.slot, PhaseAfter(p, first.log), inputs[1..]);
      AcceptsAppend(env, p, first.log, RunAll(env, first.slot, inputs[1..]).log);
    }
  }

  // ----- what the automaton says about every act of every run -----

  lemma {:induction false} EveryActAllowed(env: Env, p: Phase, log: seq<Act>, k: nat)
    requires IsDigest(env.sha3) && Accepts(env, p, log) && k < |log|
    ensures Allowed(env, PhaseAfter(p, log[..k]), log[k])
    decreases k
  {
    if k > 0 {
      assert log[..k][0] == log[0] && log[..k][1..] == log[1..][..k - 1];
      EveryActAllowed(env, Advance(p, log[0]), log[1..], k - 1);
    }
  }

  predicate Delivery(a: Act) {
    a.TextShown? || a.FileHandled?
  }

  /** Where a session begins or ends. */
  predicate Boundary(a: Act) {
    a.AutoSession? || a.TofuSession? || a.Closed?
  }

  /** How many frames log[i..j] delivers. */
  function Deliveries(log: seq<Act>, i: int, j: int): (n: nat)
    requires 0 <= i <= j <= |log|
    ensures i < j && Delivery(log[i]) ==> n > 0
    decreases j - i
  {
    if i == j then 0 else (if Delivery(log[i]) then 1 else 0) + Deliveries(log, i + 1, j)
  }

  ghost predicate SameSession(log: seq<Act>, i: nat, j: nat) {
    i <= j < |log| && forall k :: i <= k <= j ==> !Boundary(log[k])
  }

  lemma PhaseStep(p: Phase, log: seq<Act>, k: nat)
    requires k < |log|
    ensures PhaseAfter(p, log[..k + 1]) == Advance(PhaseAfter(p, log[..k]), log[k])
    decreases k
  {
    if k == 0 {
      assert log[..1] == [log[0]] && log[..1][1..] == [];
    } else {
      assert log[..k + 1][1..] == log[1..][..k] && log[..k][1..] == log[1..][..k - 1];
      PhaseStep(Advance(p, log[0]), log[1..], k - 1);
    }
  }

  lemma {:induction false} PhaseCounts(p: Phase, log: seq<Act>, i: nat, j: nat)
    requires i <= j <= |log| && (forall k :: i <= k < j ==> !Boundary(log[k])) && PhaseAfter(p, log[..i]).Inside?
    ensures var a, b := PhaseAfter(p, log[..i]), PhaseAfter(p, log[..j]);
            && b.Inside? && b.delivered == a.delivered + Deliveries(log, i, j) && b.auto == a.auto && b.onion == a.onion
            && (a.flushed || (exists k :: i <= k < j && log[k].QueueFlush?) ==> b.flushed)
    decreases j - i
  {
    if i < j {
      PhaseStep(p, log, i);
      PhaseCounts(p, log, i + 1, j);
    }
  }

  lemma ModShift(d: nat, n: nat)
    ensures (d + n) % TWO32 == (d % TWO32 + n) % TWO32
    ensures 0 < n < TWO32 ==> (d + n) % TWO32 != d % TWO32
  {
    var q, r := d / TWO32, d % TWO32;
    assert d + n == TWO32 * q + (r + n);
  }

  /** A log the session automaton accepts numbers the deliveries of a session consecutively. */
  lemma {:induction false} DeliveriesAreNumbered(env: Env, p: Phase, log: seq<Act>, i: nat, j: nat)
    requires IsDigest(env.sha3) && Accepts(env, p, log)
    requires i < j < |log| && SameSession(log, i, j) && Delivery(log[i]) && Delivery(log[j])
    ensures var n := Deliveries(log, i, j);
            && n > 0 && log[j].seqNo == (log[i].seqNo + n) % TWO32
            && (n < TWO32 ==> log[j].seqNo != log[i].seqNo)
  {
    hide Accepts;
    hide PhaseAfter;
    EveryActAllowed(env, p, log, i);
    EveryActAllowed(env, p, log, j);
    PhaseCounts(p, log, i, j);
    ModShift(PhaseAfter(p, log[..i]).delivered, Deliveries(log, i, j));
  }

  /** The acts of the session that is open just before position k start at this index. */
  lemma {:induction false} OpenedAt(p: Phase, log: seq<Act>, k: nat) returns (j: nat)
    requires p.Outside? && k <= |log| && PhaseAfter(p, log[..k]).Inside?
    ensures j < k && (log[j].AutoSession? || log[j].TofuSession?)
    ensures forall i :: j < i < k ==> !Boundary(log[i])
    decreases k
  {
    hide PhaseAfter;
    NoActs(p, log);
    if k > 0 {
      PhaseStep(p, log, k - 1);
      if log[k - 1].AutoSession? || log[k - 1].TofuSession? {
        j := k - 1;
      } else {
        j := OpenedAt(p, log, k - 1);
      }
    }
  }

  lemma NoActs(p: Phase, log: seq<Act>)
    ensures PhaseAfter(p, log[..0]) == p
  {
    assert log[..0] == [];
  }

  predicate Connection(a: Act) {
    a.Dialled? || a.Accepted?
  }

  /** The connection that is open just before position k was made by this act. */
  lemma {:induction false} ConnectedAt(p: Phase, log: seq<Act>, k: nat) returns (j: nat)
    requires p.Outside? && p.conn.None? && k <= |log|
    requires var q := PhaseAfter(p, log[..k]); q.Outside? && q.conn.Some?
    ensures j < k && Connection(log[j]) && (forall i :: j < i < k ==> !Connection(log[i]) && !log[i].Closed?)
    ensures PhaseAfter(p, log[..k]).conn.value == if log[j].Dialled? then ByDial(log[j].target) else ByAccept
    decreases k
  {
    hide PhaseAfter;
    NoActs(p, log);
    if k > 0 {
      PhaseStep(p, log, k - 1);
      if Connection(log[k - 1]) && PhaseAfter(p, log[..k - 1]).Outside? {
        j := k - 1;
      } else {
        j := ConnectedAt(p, log, k - 1);
      }
    }
  }

  /** Act i gave the address this key. */
  predicate Gives(a: Act, onion: seq<Byte>, key: seq<Byte>) {
    a == BookPut(onion, key) || (a.BookSet? && onion in a.book && a.book[onion] == key)
  }

  predicate Touches(a: Act, onion: seq<Byte>) {
    a.BookSet? || (a.BookPut? && a.onion == onion)
  }

  /** Where the key that the book holds just before position k came from: the book at the start (index -1), or the
      last act that touched the address. */
  lemma {:induction false} KeyCameFrom(p: Phase, log: seq<Act>, k: nat, onion: seq<Byte>) returns (i: int)
    requires k <= |log| && onion in PhaseAfter(p, log[..k]).book
    ensures var key := PhaseAfter(p, log[..k]).book[onion];
            && -1 <= i < k && (if i == -1 then onion in p.book && p.book[onion] == key else Gives(log[i], onion, key))
            && forall m :: i < m < k ==> !Touches(log[m], onion)
    decreases k
  {
    hide PhaseAfter;
    NoActs(p, log);
    if k == 0 {
      i := -1;
    } else {
      PhaseStep(p, log, k - 1);
      if Touches(log[k - 1], onion) {
        i := k - 1;
      } else {
        i := KeyCameFrom(p, log, k - 1, onion);
      }
    }
  }

  /** In a log the automaton accepts, a flush happens inside an automatic session of the same address, and is the
      first flush in it. */
  lemma FlushInAutoSession(env: Env, p: Phase, log: seq<Act>, k: nat) returns (j: nat)
    requires IsDigest(env.sha3) && p.Outside? && Accepts(env, p, log) && k < |log| && log[k].QueueFlush?
    ensures j < k && log[j].AutoSession? && GoodClaim(env, log[j].claim, log[j].remoteStatic)
    ensures log[k].onion == ClaimedOnion(log[j].claim)
    ensures forall i :: j < i < k ==> !Boundary(log[i]) && !log[i].QueueFlush?
  {
    hide Accepts;
    hide PhaseAfter;
    EveryActAllowed(env, p, log, k);
    j := OpenedAt(p, log, k);
    EveryActAllowed(env, p, log, j);
    PhaseStep(p, log, j);
    PhaseCounts(p, log, j + 1, k);
  }

  // ----- every run -----

  /** A run of the slot from the start of the program. */
  ghost predicate IsRun(env: Env, disk: Disk, book: Book, inputs: seq<Input>, log: seq<Act>)
    requires IsDigest(env.sha3)
  {
    EnabledAll(env, Fresh(disk, book), inputs) && log == RunAll(env, Fresh(disk, book), inputs).log
  }

  lemma RunAccepted(env: Env, disk: Disk, book: Book, inputs: seq<Input>, log: seq<Act>)
    requires IsDigest(env.sha3) && IsRun(env, disk, book, inputs, log)
    ensures Accepts(env, Outside(None, book), log)
  {
    FreshInv(disk, book);
    RunSimulates(env, Fresh(disk, book), Outside(None, book), inputs);
  }

  /** At most once and in order: in every run, of two frames delivered in one session the later one
      carries a number larger by exactly the deliveries in between (modulo 2^32), so with fewer than
      2^32 of them no number is delivered twice. */
  lemma {:induction false} AtMostOnce(env: Env, disk: Disk, book: Book, inputs: seq<Input>, log: seq<Act>, i: nat, j: nat)
    requires IsDigest(env.sha3) && IsRun(env, disk, book, inputs, log)
    requires i < j < |log| && SameSession(log, i, j) && Delivery(log[i]) && Delivery(log[j])
    ensures var n := Deliveries(log, i, j);
            && n > 0 && log[j].seqNo == (log[i].seqNo + n) % TWO32
            && (n < TWO32 ==> log[j].seqNo != log[i].seqNo)
  {
    hide IsRun;
    hide Accepts;
    RunAccepted(env, disk, book, inputs, log);
    DeliveriesAreNumbered(env, Outside(None, book), log, i, j);
  }

  lemma OpenedPhase(p: Phase, log: seq<Act>, i: nat)
    requires i < |log| && (log[i].AutoSession? || log[i].TofuSession?)
    ensures var q := PhaseAfter(p, log[..i + 1]); q.Inside? && q.delivered == 0
  {
    hide PhaseAfter;
    PhaseStep(p, log, i);
  }

  lemma AllowedNumber(env: Env, p: Phase, a: Act)
    requires IsDigest(env.sha3) && Allowed(env, p, a) && Delivery(a)
    ensures p.Inside? && a.seqNo == p.delivered % TWO32
  {
    hide Justified;
  }

  /** The first delivery of a session carries number 0. */
  lemma {:induction false} SessionsStartAtZero(env: Env, disk: Disk, book: Book, inputs: seq<Input>, log: seq<Act>, i: nat, j: nat)
    requires IsDigest(env.sha3) && IsRun(env, disk, book, inputs, log)
    requires i < j < |log| && SameSession(log, i + 1, j) && Delivery(log[j])
    requires (log[i].AutoSession? || log[i].TofuSession?) && Deliveries(log, i + 1, j) == 0
    ensures log[j].seqNo == 0
  {
    hide IsRun;
    hide Accepts;
    hide PhaseAfter;
    hide Allowed;
    hide Deliveries;
    var p := Outside(None, book);
    RunAccepted(env, disk, book, inputs, log);
    EveryActAllowed(env, p, log, j);
    OpenedPhase(p, log, i);
    PhaseCounts(p, log, i + 1, j);
    AllowedNumber(env, PhaseAfter(p, log[..j]), log[j]);
  }

  /** Authentication over every run. An automatic session at k has a good claim; the connection it runs on was made by
      act j, and if that was a dial, the claimed address is the one dialled; and the static key of the handshake is the
      key that the address book at the start (i == -1), an address-book change or an accepted question (act i) gave
      the claimed address, and that nothing has changed since. */
  lemma AutoSessionsAreAuthentic(env: Env, disk: Disk, book: Book, inputs: seq<Input>, log: seq<Act>, k: nat)
    returns (j: nat, i: int)
    requires IsDigest(env.sha3) && IsRun(env, disk, book, inputs, log) && k < |log| && log[k].AutoSession?
    ensures GoodClaim(env, log[k].claim, log[k].remoteStatic) && !env.ghostMode && !AllZero(log[k].remoteStatic)
    ensures j < k && Connection(log[j]) && (forall m :: j < m < k ==> !Connection(log[m]) && !log[m].Closed?)
    ensures log[j].Dialled? ==> ClaimedOnion(log[k].claim) == log[j].target
    ensures var onion, key := ClaimedOnion(log[k].claim), log[k].remoteStatic;
            && -1 <= i < k && (if i == -1 then onion in book && book[onion] == key else Gives(log[i], onion, key))
            && forall m :: i < m < k ==> !Touches(log[m], onion)
  {
    hide IsRun;
    hide Accepts;
    hide PhaseAfter;
    var p := Outside(None, book);
    RunAccepted(env, disk, book, inputs, log);
    EveryActAllowed(env, p, log, k);
    j := ConnectedAt(p, log, k);
    i := KeyCameFrom(p, log, k, ClaimedOnion(log[k].claim));
  }

  /** In every run the offline queue is flushed only inside a session that was opened automatically, by
      a good claim of that very address, and at most once in it. */
  lemma FlushOnlyOnceAndAuthentic(env: Env, disk: Disk, book: Book, inputs: seq<Input>, log: seq<Act>, k: nat) returns (j: nat)
    requires IsDigest(env.sha3) && IsRun(env, disk, book, inputs, log) && k < |log| && log[k].QueueFlush?
    ensures j < k && log[j].AutoSession? && GoodClaim(env, log[j].claim, log[j].remoteStatic)
    ensures log[k].onion == ClaimedOnion(log[j].claim)
    ensures forall i :: j < i < k ==> !Boundary(log[i]) && !log[i].QueueFlush?
  {
    hide IsRun;
    hide Accepts;
    RunAccepted(env, disk, book, inputs, log);
    j := FlushInAutoSession(env, Outside(None, book), log, k);
  }

  // ----- the acts from outside are the inputs -----

  /** Acts that only inputs from outside log. */
  predicate Outer(a: Act) {
    a.Dialled? || a.Accepted? || a.BookSet?
  }

  predicate AllInner(log: seq<Act>) {
    forall k :: 0 <= k < |log| ==> !Outer(log[k])
  }

  lemma ClaimLogsInner(env: Env, c: Core, hs: Handshake, pl: seq<Byte>)
    requires IsDigest(env.sha3)
    ensures AllInner(HandleClaim(env, c, hs, pl).log)
  {
    hide OnionPubkey;
    hide OnionVerify;
    hide Cleaned;
  }

  lemma DispatchLogsInner(env: Env, c: Core, f: Frame)
    requires IsDigest(env.sha3)
    ensures AllInner(Dispatch(env, c, f).log)
  {
    hide HandleClaim;
    hide RxStep;
    hide Cleaned;
    if c.hs.Some? {
      var read := env.hsRead(c.hs.value, f.payload);
      if read.Some? {
        var (hs, pl) := read.value;
        var replied := if hs.index < 3 then env.hsReply(hs) else Some(hs);
        if replied.Some? {
          var c1 := c.(hs := replied, txSeq := if hs.index < 3 then Next32(c.txSeq) else c.txSeq);
          ClaimLogsInner(env, c1, replied.value, pl);
        }
      }
    }
  }

  lemma {:induction false} ProcessLogsInner(env: Env, s: Slot)
    requires IsDigest(env.sha3)
    ensures AllInner(Process(env, s).log)
    decreases |s.buf|
  {
    hide Dispatch;
    var front := ParseFront(s.buf);
    if front.Complete? && !Held(s.core, front.frame) {
      var o := Dispatch(env, s.core, front.frame);
      DispatchLogsInner(env, s.core, front.frame);
      if o.flow == Continue { ProcessLogsInner(env, Slot(o.core, if o.reset then [] else front.rest)); }
    }
  }

  /** The input an outer act stands for. */
  predicate Matches(a: Act, i: Input) {
    match a
    case Dialled(t) => i.Dial? && i.target == t
    case Accepted => i.Accept?
    case BookSet(b) => i == AddressBook(b)
    case _ => true
  }

  lemma OuterActsAreInputs(env: Env, s: Slot, i: Input, k: nat)
    requires IsDigest(env.sha3) && k < |React(env, s, i).log|
    ensures Matches(React(env, s, i).log[k], i)
  {
    hide Process;
    ProcessLogsInner(env, s);
    if i.Receive? { ProcessLogsInner(env, s.(buf := s.buf + i.data)); }
  }

  /** In every run, each dial, accept and address-book change in the log is an input of the run. */
  lemma {:induction false} LoggedInputs(env: Env, s: Slot, inputs: seq<Input>, k: nat) returns (n: nat)
    requires IsDigest(env.sha3) && k < |RunAll(env, s, inputs).log|
    ensures n < |inputs| && Matches(RunAll(env, s, inputs).log[k], inputs[n])
    decreases |inputs|
  {
    hide React;
    var first := React(env, s, inputs[0]);
    if k < |first.log| {
      n := 0;
      OuterActsAreInputs(env, s, inputs[0], k);
    } else {
      var m := LoggedInputs(env, first.slot, inputs[1..], k - |first.log|);
      n := m + 1;
    }
  }
}
