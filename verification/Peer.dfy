/**
 One peer slot: the state machine (src/state_machine.c:130-318, 369-456) and the frame dispatcher
 process_peer_frames (src/event_loop.c:109-535) as functions on the slot's value. Cryptography, the
 operating system and the address book's storage are parameters.
 */
module Peer {
  import opened Bytes
  import opened Frames
  import opened Onion
  import opened Receiver

  // ----- the state machine -----

  datatype PeerState = Idle | Connecting | HandshakeInit | HandshakeResp | TofuPending | Active | FileTx | FileRx

  datatype SmEvent =
    | ConnectCmd | PeerAccepted | HandshakeDone | SessionReady | TofuRejected | PeerDisconnected
    | HandshakeTimeout | HandshakeError | FileStart | FileRxStart | FileDone | SeqMismatch | ArenaFail | RateLimit
    | TorDied

  predicate InHandshake(st: PeerState) { st == HandshakeInit || st == HandshakeResp }

  predicate Established(st: PeerState) { st == Active || st == FileTx || st == FileRx }

  /** The transition table; every entry that leads to Idle runs the central cleanup, and no other does. */
  function Transition(st: PeerState, ev: SmEvent): (to: Option<PeerState>) {
    match ev
    case ConnectCmd => if st == Idle then Some(HandshakeInit) else None
    case PeerAccepted => if st == Idle then Some(HandshakeResp) else None
    case SessionReady => if InHandshake(st) then Some(Active) else None
    case HandshakeDone => if InHandshake(st) then Some(TofuPending) else None
    case TofuRejected => if st == TofuPending then Some(Idle) else None
    case FileStart => if st == Active then Some(FileTx) else None
    case FileRxStart => if st == Active then Some(FileRx) else None
    case FileDone => if st == FileTx || st == FileRx then Some(Active) else None
    case PeerDisconnected => if st != Idle then Some(Idle) else None
    case HandshakeTimeout => if InHandshake(st) then Some(Idle) else None
    case HandshakeError => if InHandshake(st) then Some(Idle) else None
    case SeqMismatch => if Established(st) then Some(Idle) else None
    case ArenaFail => if InHandshake(st) then Some(Idle) else None
    case RateLimit => if InHandshake(st) then Some(Idle) else None
    case TorDied => Some(Idle)
  }

  // ----- the slot -----

  /** The receiving half of a Noise session: which key, and the nonce counter. */
  datatype Session = Session(id: nat, nonce: nat)

  datatype Handshake = Handshake(index: nat, transcript: nat, remoteStatic: seq<Byte>)

  /** The keys stored for addresses. */
  type Book = map<seq<Byte>, seq<Byte>>

  datatype Core = Core(
    st: PeerState, connected: bool, session: Option<Session>, hs: Option<Handshake>,
    txSeq: nat, rxSeq: nat, queueFlushed: bool, verified: bool,
    onion: seq<Byte>, target: seq<Byte>, tofuOnion: seq<Byte>, tofuKey: seq<Byte>,
    rx: Rx, disk: Disk, contacts: Book, clock: nat)

  /** What the outside world does while frame number `clock` is handled. */
  datatype World = World(answers: Answers, flushSent: nat, flushBreaks: bool, alloc: bool)

  datatype Env = Env(
    sha3: Sha3, verify: Verify, hash: HashFn,
    decrypt: (nat, nat, seq<Byte>) -> Option<seq<Byte>>,
    hsRead: (Handshake, seq<Byte>) -> Option<(Handshake, seq<Byte>)>,
    hsReply: Handshake -> Option<Handshake>,
    split: Handshake -> Option<nat>,
    world: nat -> World,
    ghostMode: bool)

  const PAYLOAD_V1_LEN: nat := 127
  const PAYLOAD_V1_VER: Byte := 1

  /** What happens at a slot, in order: connections and address-book changes from outside, then what it does. */
  datatype Act =
    | Dialled(target: seq<Byte>)
    | Accepted
    | BookSet(book: Book)
    | BookPut(onion: seq<Byte>, key: seq<Byte>)
    | AutoSession(claim: seq<Byte>, remoteStatic: seq<Byte>)
    | TofuSession(onion: seq<Byte>)
    | TextShown(seqNo: nat, text: seq<Byte>)
    | FileHandled(seqNo: nat, plain: Option<seq<Byte>>, note: Note)
    | QueueFlush(onion: seq<Byte>)
    | QueueWithheld
    | Closed

  /** action_cleanup */
  function Cleaned(c: Core): (c': Core) {
    Core(Idle, false, None, None, 0, 0, false, false, [], [], [], [],
         if c.rx.active then BLANK else c.rx,
         if c.rx.active then Unlink(c.disk, c.rx.localName) else c.disk,
         c.contacts, c.clock)
  }

  /** sm_dispatch; the second component says that the receive buffer was emptied. */
  function SmDispatch(c: Core, ev: SmEvent): (r: (Core, bool)) {
    match Transition(c.st, ev)
    case None => (c, false)
    case Some(to) => if to == Idle then (Cleaned(c), true) else (c.(st := to), false)
  }

  datatype Flow = Continue | Break

  datatype Out = Out(core: Core, log: seq<Act>, reset: bool, flow: Flow)

  function Fail(c: Core, ev: SmEvent, flow: Flow): (o: Out) {
    var (c', reset) := SmDispatch(c, ev);
    Out(c', if reset then [Closed] else [], reset, flow)
  }

  function Next32(x: nat): (y: nat) {
    (x + 1) % TWO32
  }

  // ----- handshake frames -----

  /** The 62 claimed address bytes as the C string they are copied into. */
  function ClaimedOnion(pl: seq<Byte>): (o: seq<Byte>)
    requires |pl| == PAYLOAD_V1_LEN
  {
    CString(pl[1..63] + [0])
  }

  /** The end of a handshake: length, version, address, signature and dial target are checked in this
      order, then the stored key decides between an automatic session and asking the user. */
  function HandleClaim(env: Env, c: Core, hs: Handshake, pl: seq<Byte>): (o: Out)
    requires IsDigest(env.sha3)
  {
    if |pl| != PAYLOAD_V1_LEN || pl[0] != PAYLOAD_V1_VER then Fail(c, HandshakeError, Continue)
    else
      var onion := ClaimedOnion(pl);
      if !OnionPubkey(env.sha3, onion).Key? then Fail(c, HandshakeError, Continue)
      else if !OnionVerify(env.sha3, env.verify, pl[63..127], onion, hs.remoteStatic) then Fail(c, HandshakeError, Continue)
      else if c.target != [] && onion != c.target then Fail(c, HandshakeError, Continue)
      else if !env.ghostMode && onion in c.contacts && !AllZero(c.contacts[onion]) && c.contacts[onion] == hs.remoteStatic then
        if !env.world(c.clock).alloc then Fail(c, ArenaFail, Continue)
        else
          match env.split(hs)
          case None => Fail(c, HandshakeError, Continue)
          case Some(id) =>
            var c1 := c.(session := Some(Session(id, 0)), hs := None, txSeq := 0, rxSeq := 0,
                         queueFlushed := false, verified := true);
            var c2 := SmDispatch(c1, SessionReady).0;
            Out(c2.(onion := onion), [AutoSession(pl, hs.remoteStatic)], false, Continue)
      else
        var c1 := c.(verified := false, tofuOnion := onion, tofuKey := hs.remoteStatic);
        Out(SmDispatch(c1, HandshakeDone).0, [], false, Continue)
  }

  function HandleHandshake(env: Env, c: Core, payload: seq<Byte>): (o: Out)
    requires IsDigest(env.sha3) && c.hs.Some?
  {
    match env.hsRead(c.hs.value, payload)
    case None => Fail(c, HandshakeError, Break)
    case Some((hs, pl)) =>
      var read := c.(hs := Some(hs));
      var replied := if hs.index < 3 then env.hsReply(hs) else Some(hs);
      if replied.None? then Fail(read, HandshakeError, Break)
      else
        var c1 := read.(hs := replied, txSeq := if hs.index < 3 then Next32(c.txSeq) else c.txSeq);
        if replied.value.index >= 3 then HandleClaim(env, c1, replied.value, pl)
        else Out(c1, [], false, Continue)
  }

  // ----- session frames -----

  /** Decryption in order: only a success advances the nonce. */
  function Decrypt(env: Env, s: Session, ct: seq<Byte>): (r: (Session, Option<seq<Byte>>)) {
    match env.decrypt(s.id, s.nonce, ct)
    case None => (s, None)
    case Some(pt) => (s.(nonce := s.nonce + 1), Some(pt))
  }

  /** The offline queue goes out on the first text of a session, and only to a verified peer. */
  function FlushQueue(env: Env, c: Core): (r: (Core, seq<Act>, bool)) {
    if c.queueFlushed || env.ghostMode then (c, [], false)
    else if !c.verified then (c.(queueFlushed := true), [QueueWithheld], false)
    else
      var w := env.world(c.clock);
      var c1 := c.(queueFlushed := true, txSeq := (c.txSeq + w.flushSent) % TWO32);
      if w.flushBreaks then
        var (c2, reset) := SmDispatch(c1, PeerDisconnected);
        (c2, [QueueFlush(c.onion)] + (if reset then [Closed] else []), reset)
      else (c1, [QueueFlush(c.onion)], false)
  }

  function HandleText(env: Env, c: Core, s: Session, f: Frame): (o: Out) {
    var (s', pt) := Decrypt(env, s, f.payload);
    var c1 := c.(session := Some(s'));
    if pt.None? || |pt.value| == 0 then Out(c1, [], false, Continue)
    else
      var (c2, acts, reset) := FlushQueue(env, c1);
      Out(c2.(rxSeq := Next32(c2.rxSeq)), [TextShown(f.seqNo, pt.value)] + acts, reset, Continue)
  }

  function Moved(st: PeerState, ev: SmEvent): (to: PeerState) {
    match Transition(st, ev)
    case None => st
    case Some(to) => to
  }

  /** The state after the events a receiver step raises: file start, file done, or one after the other. */
  function AfterRx(st: PeerState, wasActive: bool, note: Note): (to: PeerState)
    ensures Established(st) ==> Established(to)
  {
    if note.Started? then Moved(st, FileRxStart)
    else if note.Kept? || (note.Dropped? && wasActive) then Moved(st, FileDone)
    else if note.Dropped? then Moved(Moved(st, FileRxStart), FileDone)
    else st
  }

  function HandleFile(env: Env, c: Core, s: Session, f: Frame): (o: Out) {
    if |f.payload| < MAC_LEN || |f.payload| > MAX_PAYLOAD then Out(c, [], false, Continue)
    else
      var (s', pt) := Decrypt(env, s, f.payload);
      var plain := if pt.Some? && |pt.value| > 0 then pt else None;
      var step := RxStep(env.hash, c.rx, c.disk, plain, env.world(c.clock).answers);
      Out(c.(session := Some(s'), rx := step.rx, disk := step.disk, rxSeq := Next32(c.rxSeq),
             st := AfterRx(c.st, c.rx.active, step.note)),
          [FileHandled(f.seqNo, plain, step.note)], false, Continue)
  }

  predicate Held(c: Core, f: Frame) {
    (f.typ == MSG_TEXT || f.typ == MSG_FILE) && c.session.None?
  }

  function DispatchAt(env: Env, c: Core, f: Frame): (o: Out)
    requires IsDigest(env.sha3)
  {
    if f.typ == MSG_CTRL && c.hs.Some? && c.hs.value.index < 3 then HandleHandshake(env, c, f.payload)
    else if (f.typ == MSG_TEXT || f.typ == MSG_FILE) && c.session.Some? then
      if f.seqNo != c.rxSeq then Fail(c, SeqMismatch, Break)
      else if f.typ == MSG_TEXT then HandleText(env, c, c.session.value, f)
      else HandleFile(env, c, c.session.value, f)
    else Out(c, [], false, Continue)
  }

  /** One complete frame taken off the buffer. */
  function Dispatch(env: Env, c: Core, f: Frame): (o: Out)
    requires IsDigest(env.sha3)
  {
    var o := DispatchAt(env, c, f);
    o.(core := o.core.(clock := c.clock + 1))
  }

  // ----- the loop -----

  datatype Slot = Slot(core: Core, buf: seq<Byte>)

  datatype Run = Run(slot: Slot, log: seq<Act>)

  /** process_peer_frames: handle complete frames until the buffer runs short, a frame must be held
      back, the front is garbage (the whole buffer is dropped) or the dispatcher gives up. */
  function Process(env: Env, s: Slot): (r: Run)
    requires IsDigest(env.sha3)
    decreases |s.buf|
  {
    match ParseFront(s.buf)
    case Incomplete => Run(s, [])
    case Malformed => Run(s.(buf := []), [])
    case Complete(f, rest) =>
      if Held(s.core, f) then Run(s, [])
      else
        var o := Dispatch(env, s.core, f);
        var s' := Slot(o.core, if o.reset then [] else rest);
        if o.flow == Break then Run(s', o.log)
        else
          var r := Process(env, s');
          Run(r.slot, o.log + r.log)
  }

  // ----- everything that can happen to a slot -----

  datatype Input =
    | Receive(data: seq<Byte>)
    | BufferFull
    | Drain
    | TofuAnswer(accept: bool, tokenOk: bool, saved: bool, alloc: bool)
    | Lost(ev: SmEvent)
    | Dial(target: seq<Byte>, hs: Handshake)
    | Accept(hs: Handshake)
    | SweepRx(now: int)
    | AddressBook(contacts: Book)
    | Transmit(frames: nat, broken: bool)
    | FileCommand(ev: SmEvent)

  function Close(s: Slot, ev: SmEvent): (r: Run) {
    var (c, reset) := SmDispatch(s.core, ev);
    Run(Slot(c, if reset then [] else s.buf), if reset then [Closed] else [])
  }

  /** action_tofu_accept behind the y/n answer; saved and alloc say whether the address book and the allocator
      cooperate. */
  function AcceptTofu(env: Env, s: Slot, saved: bool, alloc: bool): (r: Run)
    requires s.core.hs.Some?
  {
    var store := !env.ghostMode && saved;
    var put := if store then [BookPut(s.core.tofuOnion, s.core.tofuKey)] else [];
    var c := if store then s.core.(contacts := s.core.contacts[s.core.tofuOnion := s.core.tofuKey]) else s.core;
    var id := env.split(c.hs.value);
    if !alloc || id.None? then
      var r := Close(Slot(c, s.buf), PeerDisconnected);
      Run(r.slot, put + r.log)
    else
      Run(Slot(c.(session := Some(Session(id.value, 0)), hs := None, txSeq := 0, rxSeq := 0, queueFlushed := false,
                  verified := false, onion := c.tofuOnion, st := Active), s.buf),
          put + [TofuSession(c.tofuOnion)])
  }

  /** Whether an input can occur in this state of the slot. */
  ghost predicate Enabled(s: Slot, i: Input) {
    match i
    case Receive(data) => s.core.connected && 1 <= |data| <= BUF_CAPACITY - |s.buf|
    case BufferFull => s.core.connected && |s.buf| == BUF_CAPACITY
    case Lost(ev) =>
      ev == PeerDisconnected || ev == HandshakeTimeout || ev == HandshakeError || ev == RateLimit || ev == TorDied
    case FileCommand(ev) => ev == FileStart || ev == FileDone
    case Dial(target, hs) => !s.core.connected && s.core.st == Idle && hs.index < 3 && target != []
    case Accept(hs) => !s.core.connected && s.core.st == Idle && hs.index < 3
    case _ => true
  }

  function React(env: Env, s: Slot, i: Input): (r: Run)
    requires IsDigest(env.sha3)
  {
    match i
    case Receive(data) => Process(env, s.(buf := s.buf + data))
    case BufferFull =>
      var r := Process(env, s);
      if r.slot.core.connected then
        var closed := Close(r.slot, PeerDisconnected);
        Run(closed.slot, r.log + closed.log)
      else r
    case Drain =>
      if s.core.session.Some? && s.core.connected && |s.buf| >= HEADER_SIZE then Process(env, s) else Run(s, [])
    case TofuAnswer(accept, tokenOk, saved, alloc) =>
      if s.core.st != TofuPending then Run(s, [])
      else if !accept then Close(s, TofuRejected)
      else if !tokenOk then Run(s, [])
      else if s.core.hs.None? then Close(s, PeerDisconnected)
      else AcceptTofu(env, s, saved, alloc)
    case Lost(ev) => Close(s, ev)
    case Dial(target, hs) =>
      Run(s.(core := SmDispatch(s.core.(connected := true, onion := target, target := target, hs := Some(hs),
                                        txSeq := Next32(s.core.txSeq)), ConnectCmd).0), [Dialled(target)])
    case Accept(hs) =>
      Run(s.(core := SmDispatch(s.core.(connected := true, hs := Some(hs)), PeerAccepted).0), [Accepted])
    case SweepRx(now) =>
      var step := Apply(env.hash, s.core.rx, s.core.disk, Tick(now));
      var c := s.core.(rx := step.rx, disk := step.disk);
      Run(s.(core := if step.note.Dropped? && c.st == FileRx then SmDispatch(c, FileDone).0 else c), [])
    case AddressBook(contacts) => Run(s.(core := s.core.(contacts := contacts)), [BookSet(contacts)])
    case Transmit(frames, broken) =>
      if broken then Close(s, PeerDisconnected)
      else Run(s.(core := s.core.(txSeq := (s.core.txSeq + frames) % TWO32)), [])
    case FileCommand(ev) => Run(s.(core := SmDispatch(s.core, ev).0), [])
  }
}
