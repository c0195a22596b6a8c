/**
 Frames held back until a session exists, over whole runs of one connection (src/event_loop.c:132-155, 829-849,
 989-1028): a slot with a receive buffer against one without.
 */
module PeerHold {
  import opened Bytes
  import opened Frames
  import opened Onion
  import opened Receiver
  import opened Peer
  import opened PeerTrace
  import opened PeerStream

  // ----- runs of one connection: the buffer changes nothing but the time of delivery -----

  /** What a slot without a receive buffer would do: take a frame, or react to an input that is not a read. */
  datatype Move = Take(frame: Frame) | Do(input: Input)

  function PlayOne(env: Env, c: Core, m: Move): (r: Outcome)
    requires IsDigest(env.sha3)
  {
    match m
    case Take(f) => Outcome(Dispatch(env, c, f).core, Dispatch(env, c, f).log)
    case Do(i) => Outcome(React(env, Slot(c, []), i).slot.core, React(env, Slot(c, []), i).log)
  }

  /** Such a slot. */
  function Play(env: Env, c: Core, moves: seq<Move>): (r: Outcome)
    requires IsDigest(env.sha3)
    decreases |moves|
  {
    if moves == [] then Outcome(c, [])
    else
      var first := PlayOne(env, c, moves[0]);
      var rest := Play(env, first.core, moves[1..]);
      Outcome(rest.core, first.log + rest.log)
  }

  function Takes(fs: seq<Frame>): (ms: seq<Move>)
    ensures |ms| == |fs| && forall i :: 0 <= i < |fs| ==> ms[i] == Take(fs[i])
  {
    seq(|fs|, i requires 0 <= i < |fs| => Take(fs[i]))
  }

  /** The frames among some moves. */
  function FramesOf(moves: seq<Move>): (fs: seq<Frame>) {
    if moves == [] then [] else (if moves[0].Take? then [moves[0].frame] else []) + FramesOf(moves[1..])
  }

  /** What one input makes the slot do. */
  function Moves(env: Env, s: Slot, i: Input): (ms: seq<Move>)
    requires IsDigest(env.sha3)
  {
    match i
    case Receive(data) => Takes(Taken(env, s.(buf := s.buf + data)))
    case Drain =>
      if s.core.session.Some? && s.core.connected && |s.buf| >= HEADER_SIZE then Takes(Taken(env, s)) else []
    case BufferFull => Takes(Taken(env, s)) + [Do(Lost(PeerDisconnected))]
    case _ => [Do(i)]
  }

  function MovesOf(env: Env, s: Slot, inputs: seq<Input>): (ms: seq<Move>)
    requires IsDigest(env.sha3)
    decreases |inputs|
  {
    if inputs == [] then []
    else Moves(env, s, inputs[0]) + MovesOf(env, React(env, s, inputs[0]).slot, inputs[1..])
  }

  function Data(inputs: seq<Input>): (b: seq<Byte>) {
    if inputs == [] then [] else (if inputs[0].Receive? then inputs[0].data else []) + Data(inputs[1..])
  }

  /** No new connection is made. */
  predicate OneConnection(inputs: seq<Input>) {
    forall k :: 0 <= k < |inputs| ==> !inputs[k].Dial? && !inputs[k].Accept?
  }

  lemma {:induction false} PlayAppend(env: Env, c: Core, a: seq<Move>, b: seq<Move>)
    requires IsDigest(env.sha3)
    ensures var first := Play(env, c, a);
            var rest := Play(env, first.core, b);
            Play(env, c, a + b) == Outcome(rest.core, first.log + rest.log)
    decreases |a|
  {
    hide PlayOne;
    if a == [] {
      assert a + b == b;
    } else {
      assert (a + b)[0] == a[0] && (a + b)[1..] == a[1..] + b;
      var first := PlayOne(env, c, a[0]);
      PlayAppend(env, first.core, a[1..], b);
      var x, y := Play(env, first.core, a[1..]).log, Play(env, Play(env, c, a).core, b).log;
      ThreeLogs(first.log, x, y);
    }
  }

  lemma {:induction false} FramesAppend(a: seq<Move>, b: seq<Move>)
    ensures FramesOf(a + b) == FramesOf(a) + FramesOf(b)
  {
    if a == [] {
      assert a + b == b;
    } else {
      assert (a + b)[0] == a[0] && (a + b)[1..] == a[1..] + b;
      FramesAppend(a[1..], b);
    }
  }

  lemma {:induction false} PlayTakes(env: Env, c: Core, fs: seq<Frame>)
    requires IsDigest(env.sha3)
    ensures Play(env, c, Takes(fs)) == DispatchAll(env, c, fs) && FramesOf(Takes(fs)) == fs
    decreases |fs|
  {
    hide Dispatch;
    if fs != [] {
      assert Takes(fs)[1..] == Takes(fs[1..]);
      PlayTakes(env, Dispatch(env, c, fs[0]).core, fs[1..]);
    }
  }

  /** What some inputs have made of a stream: a beginning of the frames has been taken, in order, with the effects of
      taking them; the rest of what was received is in the buffer, unless the connection was closed. */
  ghost predicate Faithful(env: Env, s: Slot, r: Run, moves: seq<Move>, fs: seq<Frame>, data: seq<Byte>, more: seq<Byte>)
    requires IsDigest(env.sha3) && AllWellFormed(fs)
  {
    var k := |FramesOf(moves)|;
    && k <= |fs| && FramesOf(moves) == fs[..k]
    && Play(env, s.core, moves) == Outcome(r.slot.core, r.log)
    && (r.slot.core.st != Idle ==>
          s.buf + data == EncodeFrames(fs[..k]) + r.slot.buf && r.slot.buf + more <= EncodeFrames(fs[k..]))
  }

  /** The loop on a buffer is faithful. */
  lemma LoopFaithful(env: Env, s: Slot, data: seq<Byte>, fs: seq<Frame>, more: seq<Byte>)
    requires IsDigest(env.sha3) && AllWellFormed(fs) && Alive(s.core) && s.buf + data + more <= EncodeFrames(fs)
    ensures var t := s.(buf := s.buf + data);
            Faithful(env, s, Process(env, t), Takes(Taken(env, t)), fs, data, more)
  {
    hide Process;
    hide Taken;
    hide Play;
    hide EncodeFrame;
    hide CoreInv;
    var t := s.(buf := s.buf + data);
    ProcessTakes(env, s.core, fs, t.buf, more);
    PlayTakes(env, s.core, Taken(env, t));
  }

  /** A slot that is idle stays idle, and takes nothing, without a new connection. */
  lemma IdleStays(env: Env, s: Slot, i: Input)
    requires IsDigest(env.sha3) && SlotInv(s) && s.core.st == Idle && Enabled(s, i) && !i.Dial? && !i.Accept?
    ensures React(env, s, i).slot.core.st == Idle && FramesOf(Moves(env, s, i)) == []
    ensures !i.Receive? && Play(env, s.core, Moves(env, s, i)) == Outcome(React(env, s, i).slot.core, React(env, s, i).log)
  {
    hide Process;
    hide Taken;
    if !i.Drain? { PlayDo(env, s.core, i); }
  }

  lemma PlayDo(env: Env, c: Core, i: Input)
    requires IsDigest(env.sha3)
    ensures var r := React(env, Slot(c, []), i); Play(env, c, [Do(i)]) == Outcome(r.slot.core, r.log)
    ensures FramesOf([Do(i)]) == []
  {
    hide React;
    assert [Do(i)][1..] == [];
    var r := React(env, Slot(c, []), i);
    assert r.log + [] == r.log;
  }

  predicate Reads(i: Input) {
    i.Receive? || i.Drain? || i.BufferFull?
  }

  /** What is not a read does to the slot what it does to one without a buffer. */
  lemma OtherInput(env: Env, s: Slot, i: Input)
    requires IsDigest(env.sha3) && !Reads(i) && !i.Dial? && !i.Accept?
    ensures var r, q := React(env, s, i), React(env, Slot(s.core, []), i);
            q.slot.core == r.slot.core && q.log == r.log && (r.slot.buf == s.buf || r.slot.core.st == Idle)
  {
    hide Process;
    hide SmDispatch;
    hide Apply;
    hide AcceptTofu;
    hide Close;
    match i
    case TofuAnswer(_, _, saved, alloc) =>
      CloseSame(s, TofuRejected);
      CloseSame(s, PeerDisconnected);
      if s.core.hs.Some? { AcceptSame(env, s, saved, alloc); }
    case Lost(ev) => CloseSame(s, ev);
    case Transmit(_, _) => CloseSame(s, PeerDisconnected);
    case _ =>
  }

  lemma CloseSame(s: Slot, ev: SmEvent)
    ensures var r, q := Close(s, ev), Close(Slot(s.core, []), ev);
            q.slot.core == r.slot.core && q.log == r.log && (r.slot.buf == s.buf || r.slot.core.st == Idle)
  {
  }

  lemma AcceptSame(env: Env, s: Slot, saved: bool, alloc: bool)
    requires s.core.hs.Some?
    ensures var r, q := AcceptTofu(env, s, saved, alloc), AcceptTofu(env, Slot(s.core, []), saved, alloc);
            q.slot.core == r.slot.core && q.log == r.log && (r.slot.buf == s.buf || r.slot.core.st == Idle)
  {
    hide Close;
    var store := !env.ghostMode && saved;
    var c := if store then s.core.(contacts := s.core.contacts[s.core.tofuOnion := s.core.tofuKey]) else s.core;
    CloseSame(Slot(c, s.buf), PeerDisconnected);
  }

  lemma OtherFaithful(env: Env, s: Slot, i: Input, fs: seq<Frame>, more: seq<Byte>)
    requires IsDigest(env.sha3) && AllWellFormed(fs) && !Reads(i) && !i.Dial? && !i.Accept?
    requires s.buf + more <= EncodeFrames(fs)
    ensures Faithful(env, s, React(env, s, i), Moves(env, s, i), fs, [], more)
  {
    hide React;
    hide EncodeFrame;
    OtherInput(env, s, i);
    PlayDo(env, s.core, i);
    assert fs[..0] == [] && fs[0..] == fs && s.buf + [] == s.buf;
  }

  lemma NoFaithful(env: Env, s: Slot, fs: seq<Frame>, more: seq<Byte>)
    requires IsDigest(env.sha3) && AllWellFormed(fs) && s.buf + more <= EncodeFrames(fs)
    ensures Faithful(env, s, Run(s, []), [], fs, [], more)
  {
    assert fs[..0] == [] && fs[0..] == fs && s.buf + [] == s.buf;
  }

  lemma FullFaithful(env: Env, s: Slot, fs: seq<Frame>, more: seq<Byte>)
    requires IsDigest(env.sha3) && AllWellFormed(fs) && SlotInv(s) && Enabled(s, BufferFull) && s.buf + more <= EncodeFrames(fs)
    ensures Faithful(env, s, React(env, s, BufferFull), Moves(env, s, BufferFull), fs, [], more)
  {
    hide Process;
    hide Taken;
    hide EncodeFrame;
    assert s.(buf := s.buf + []) == s;
    LoopFaithful(env, s, [], fs, more);
    PhaseOfCoupled(s.core);
    ProcessSimulates(env, s, PhaseOf(s.core));
    hide React;
    hide CoreInv;
    hide Play;
    var r, taken := Process(env, s), Takes(Taken(env, s));
    FullCloses(env, s);
    PlayDo(env, r.slot.core, Lost(PeerDisconnected));
    PlayAppend(env, s.core, taken, [Do(Lost(PeerDisconnected))]);
    FramesAppend(taken, [Do(Lost(PeerDisconnected))]);
    assert FramesOf(taken) + [] == FramesOf(taken);
  }

  lemma FullCloses(env: Env, s: Slot)
    requires IsDigest(env.sha3) && CoreInv(Process(env, s).slot.core)
    ensures var r, p := React(env, s, BufferFull), Process(env, s);
            var q := React(env, Slot(p.slot.core, []), Lost(PeerDisconnected));
            r.slot.core == q.slot.core && r.log == p.log + q.log && r.slot.core.st == Idle
  {
    hide Process;
    CloseSame(Process(env, s).slot, PeerDisconnected);
    assert Process(env, s).log + [] == Process(env, s).log;
  }

  lemma InputFaithful(env: Env, s: Slot, i: Input, fs: seq<Frame>, more: seq<Byte>)
    requires IsDigest(env.sha3) && AllWellFormed(fs) && SlotInv(s) && s.core.st != Idle && Enabled(s, i)
    requires !i.Dial? && !i.Accept? && s.buf + (if i.Receive? then i.data else []) + more <= EncodeFrames(fs)
    ensures Faithful(env, s, React(env, s, i), Moves(env, s, i), fs, if i.Receive? then i.data else [], more)
  {
    hide Process;
    hide Taken;
    hide Faithful;
    hide EncodeFrame;
    assert s.buf + [] == s.buf && s.(buf := s.buf) == s;
    if i.Receive? {
      LoopFaithful(env, s, i.data, fs, more);
    } else if i.Drain? {
      LoopFaithful(env, s, [], fs, more);
      NoFaithful(env, s, fs, more);
    } else if i.BufferFull? {
      FullFaithful(env, s, fs, more);
    } else {
      OtherFaithful(env, s, i, fs, more);
    }
  }

  /** Two stretches of a stream, one after the other. */
  lemma FaithfulThen(env: Env, s: Slot, fs: seq<Frame>, r1: Run, m1: seq<Move>, d1: seq<Byte>, more: seq<Byte>,
                     r2: Run, m2: seq<Move>, d2: seq<Byte>, later: seq<Byte>)
    requires IsDigest(env.sha3) && AllWellFormed(fs) && more == d2 + later && r1.slot.core.st != Idle
    requires Faithful(env, s, r1, m1, fs, d1, more)
    requires Faithful(env, r1.slot, r2, m2, fs[|FramesOf(m1)|..], d2, later)
    ensures Faithful(env, s, Run(r2.slot, r1.log + r2.log), m1 + m2, fs, d1 + d2, later)
  {
    hide Play;
    hide EncodeFrame;
    hide FramesOf;
    hide EncodeFrames;
    PlayAppend(env, s.core, m1, m2);
    FramesAppend(m1, m2);
    var j, k := |FramesOf(m1)|, |FramesOf(m2)|;
    SplitFrames(fs, j, k);
    if r2.slot.core.st != Idle {
      Regroup(s.buf + d1 + d2, EncodeFrames(fs[..j]), r1.slot.buf, d2, EncodeFrames(fs[j..][..k]), r2.slot.buf);
      assert s.buf + (d1 + d2) == s.buf + d1 + d2;
    }
  }

  lemma SplitFrames(fs: seq<Frame>, j: nat, k: nat)
    requires AllWellFormed(fs) && j + k <= |fs|
    ensures fs[j..][k..] == fs[j + k..] && fs[..j + k] == fs[..j] + fs[j..][..k]
    ensures EncodeFrames(fs[..j + k]) == EncodeFrames(fs[..j]) + EncodeFrames(fs[j..][..k])
  {
    assert fs[..j + k] == fs[..j] + fs[j..][..k];
    EncodeFramesAppend(fs[..j], fs[j..][..k]);
  }

  lemma {:induction false} IdleRunStays(env: Env, s: Slot, inputs: seq<Input>)
    requires IsDigest(env.sha3) && SlotInv(s) && s.core.st == Idle && EnabledAll(env, s, inputs) && OneConnection(inputs)
    ensures var r := RunAll(env, s, inputs);
            && r.slot.core.st == Idle && FramesOf(MovesOf(env, s, inputs)) == [] && Data(inputs) == []
            && Play(env, s.core, MovesOf(env, s, inputs)) == Outcome(r.slot.core, r.log)
    decreases |inputs|
  {
    hide React;
    hide Moves;
    hide Enabled;
    if inputs != [] {
      var i, first := inputs[0], React(env, s, inputs[0]);
      IdleStays(env, s, i);
      PhaseOfCoupled(s.core);
      ReactSimulates(env, s, PhaseOf(s.core), i);
      IdleRunStays(env, first.slot, inputs[1..]);
      PlayAppend(env, s.core, Moves(env, s, i), MovesOf(env, first.slot, inputs[1..]));
      FramesAppend(Moves(env, s, i), MovesOf(env, first.slot, inputs[1..]));
    }
  }

  /** Nothing is lost or reordered, over every run of one connection: for every list of enabled inputs of any kind but a
      new connection, in any order, from any state of the slot, if what is in the buffer and what is read is a beginning
      of a stream of frames, then the frames taken are a beginning of that stream, in order, and state and log are those
      of a slot without a buffer that is handed these frames; everything else received is still in the buffer, unless the
      connection has been closed. */
  lemma {:induction false} NothingLost(env: Env, s: Slot, inputs: seq<Input>, fs: seq<Frame>)
    requires IsDigest(env.sha3) && AllWellFormed(fs) && SlotInv(s) && EnabledAll(env, s, inputs) && OneConnection(inputs)
    requires s.buf + Data(inputs) <= EncodeFrames(fs)
    ensures Faithful(env, s, RunAll(env, s, inputs), MovesOf(env, s, inputs), fs, Data(inputs), [])
    decreases |inputs|
  {
    hide React;
    hide Moves;
    hide Enabled;
    hide EncodeFrame;
    hide Faithful;
    if inputs == [] {
      assert s.buf + Data(inputs) == s.buf + [];
      NoFaithful(env, s, fs, []);
    } else if s.core.st == Idle {
      IdleRunStays(env, s, inputs);
      IdleFaithful(env, s, RunAll(env, s, inputs), MovesOf(env, s, inputs), fs, Data(inputs));
    } else {
      var i, first, rest := inputs[0], React(env, s, inputs[0]), inputs[1..];
      var d := if i.Receive? then i.data else [];
      assert s.buf + d + Data(rest) == s.buf + Data(inputs) && Data(rest) == Data(rest) + [];
      InputFaithful(env, s, i, fs, Data(rest));
      PhaseOfCoupled(s.core);
      ReactSimulates(env, s, PhaseOf(s.core), i);
      if first.slot.core.st == Idle {
        IdleRunStays(env, first.slot, rest);
        ThenIdle(env, s, fs, first, Moves(env, s, i), d, Data(rest), RunAll(env, first.slot, rest), MovesOf(env, first.slot, rest));
      } else {
        StillFollows(env, s, first, Moves(env, s, i), fs, d, Data(rest));
        NothingLost(env, first.slot, rest, fs[|FramesOf(Moves(env, s, i))|..]);
        FaithfulThen(env, s, fs, first, Moves(env, s, i), d, Data(rest), RunAll(env, first.slot, rest),
                     MovesOf(env, first.slot, rest), Data(rest), []);
      }
    }
  }

  lemma StillFollows(env: Env, s: Slot, r: Run, moves: seq<Move>, fs: seq<Frame>, data: seq<Byte>, more: seq<Byte>)
    requires IsDigest(env.sha3) && AllWellFormed(fs) && Faithful(env, s, r, moves, fs, data, more) && r.slot.core.st != Idle
    ensures var k := |FramesOf(moves)|;
            k <= |fs| && AllWellFormed(fs[k..]) && r.slot.buf + more <= EncodeFrames(fs[k..])
  {
  }

  lemma IdleFaithful(env: Env, s: Slot, r: Run, moves: seq<Move>, fs: seq<Frame>, data: seq<Byte>)
    requires IsDigest(env.sha3) && AllWellFormed(fs) && r.slot.core.st == Idle && FramesOf(moves) == []
    requires Play(env, s.core, moves) == Outcome(r.slot.core, r.log)
    ensures Faithful(env, s, r, moves, fs, data, [])
  {
    assert fs[..0] == [];
  }

  lemma ThenIdle(env: Env, s: Slot, fs: seq<Frame>, r1: Run, m1: seq<Move>, d1: seq<Byte>, more: seq<Byte>, r2: Run, m2: seq<Move>)
    requires IsDigest(env.sha3) && AllWellFormed(fs) && Faithful(env, s, r1, m1, fs, d1, more)
    requires r1.slot.core.st == Idle && r2.slot.core.st == Idle && FramesOf(m2) == [] && more == []
    requires Play(env, r1.slot.core, m2) == Outcome(r2.slot.core, r2.log)
    ensures Faithful(env, s, Run(r2.slot, r1.log + r2.log), m1 + m2, fs, d1 + more, [])
  {
    hide Play;
    PlayAppend(env, s.core, m1, m2);
    FramesAppend(m1, m2);
    assert FramesOf(m1) + [] == FramesOf(m1);
  }

  // ----- text and file frames wait for a session -----

  /** No frame among the moves is taken while it must be held back. */
  ghost predicate InTime(env: Env, c: Core, moves: seq<Move>)
    requires IsDigest(env.sha3)
    decreases |moves|
  {
    moves == [] ||
    ((moves[0].Take? ==> !Held(c, moves[0].frame)) && InTime(env, PlayOne(env, c, moves[0]).core, moves[1..]))
  }

  lemma {:induction false} InTimeAppend(env: Env, c: Core, a: seq<Move>, b: seq<Move>)
    requires IsDigest(env.sha3)
    ensures InTime(env, c, a + b) <==> InTime(env, c, a) && InTime(env, Play(env, c, a).core, b)
    decreases |a|
  {
    hide PlayOne;
    if a == [] {
      assert a + b == b;
    } else {
      assert (a + b)[0] == a[0] && (a + b)[1..] == a[1..] + b;
      InTimeAppend(env, PlayOne(env, c, a[0]).core, a[1..], b);
    }
  }

  lemma {:induction false} TakenInTime(env: Env, s: Slot)
    requires IsDigest(env.sha3)
    ensures InTime(env, s.core, Takes(Taken(env, s)))
    decreases |s.buf|
  {
    hide Dispatch;
    hide Held;
    var front := ParseFront(s.buf);
    if front.Complete? && !Held(s.core, front.frame) {
      var o := Dispatch(env, s.core, front.frame);
      var taken := Taken(env, s);
      if o.reset || o.flow == Break {
        assert Takes(taken)[1..] == [];
      } else {
        TakenInTime(env, Slot(o.core, front.rest));
        assert Takes(taken)[1..] == Takes(taken[1..]) && taken[1..] == Taken(env, Slot(o.core, front.rest));
      }
    }
  }

  lemma MovesInTime(env: Env, s: Slot, i: Input)
    requires IsDigest(env.sha3)
    ensures InTime(env, s.core, Moves(env, s, i))
  {
    hide Taken;
    hide PlayOne;
    TakenInTime(env, s);
    if i.Receive? {
      TakenInTime(env, s.(buf := s.buf + i.data));
    } else if i.BufferFull? {
      var m := Do(Lost(PeerDisconnected));
      assert [m][1..] == [];
      InTimeAppend(env, s.core, Takes(Taken(env, s)), [m]);
    } else if !i.Drain? {
      assert [Do(i)][1..] == [];
    }
  }


  /** The loop does to the core what taking its frames does, whatever the bytes are. */
  lemma {:induction false} ProcessPlays(env: Env, s: Slot)
    requires IsDigest(env.sha3)
    ensures DispatchAll(env, s.core, Taken(env, s)) == Outcome(Process(env, s).slot.core, Process(env, s).log)
    decreases |s.buf|
  {
    hide Dispatch;
    hide Held;
    var front := ParseFront(s.buf);
    if front.Complete? && !Held(s.core, front.frame) {
      var o, taken := Dispatch(env, s.core, front.frame), Taken(env, s);
      if o.reset || o.flow == Break {
        NothingToProcess(env, o.core);
        assert taken[1..] == [] && o.log + [] == o.log;
      } else {
        ProcessPlays(env, Slot(o.core, front.rest));
        assert taken[1..] == Taken(env, Slot(o.core, front.rest));
      }
    }
  }

  lemma InputPlays(env: Env, s: Slot, i: Input)
    requires IsDigest(env.sha3) && SlotInv(s) && Enabled(s, i)
    ensures Play(env, s.core, Moves(env, s, i)) == Outcome(React(env, s, i).slot.core, React(env, s, i).log)
  {
    hide Process;
    hide Taken;
    hide Play;
    hide DispatchAll;
    match i
    case Receive(data) => LoopPlays(env, s.(buf := s.buf + data));
    case Drain => LoopPlays(env, s); PlayNone(env, s.core);
    case BufferFull =>
      LoopPlays(env, s);
      PhaseOfCoupled(s.core);
      ProcessSimulates(env, s, PhaseOf(s.core));
      FullCloses(env, s);
      PlayDo(env, Process(env, s).slot.core, Lost(PeerDisconnected));
      PlayAppend(env, s.core, Takes(Taken(env, s)), [Do(Lost(PeerDisconnected))]);
    case _ =>
      PlayDo(env, s.core, i);
      if !i.Dial? && !i.Accept? { OtherInput(env, s, i); }
  }

  lemma PlayNone(env: Env, c: Core)
    requires IsDigest(env.sha3)
    ensures Play(env, c, []) == Outcome(c, [])
  {
  }

  lemma LoopPlays(env: Env, s: Slot)
    requires IsDigest(env.sha3)
    ensures Play(env, s.core, Takes(Taken(env, s))) == Outcome(Process(env, s).slot.core, Process(env, s).log)
  {
    ProcessPlays(env, s);
    PlayTakes(env, s.core, Taken(env, s));
  }

  /** In every run, whatever is received, no text or file frame is taken before there is a session; and the buffer
      changes nothing but when frames are taken. */
  lemma {:induction false} HeldUntilSession(env: Env, s: Slot, inputs: seq<Input>)
    requires IsDigest(env.sha3) && SlotInv(s) && EnabledAll(env, s, inputs)
    ensures InTime(env, s.core, MovesOf(env, s, inputs))
    ensures Play(env, s.core, MovesOf(env, s, inputs)) ==
            Outcome(RunAll(env, s, inputs).slot.core, RunAll(env, s, inputs).log)
    decreases |inputs|
  {
    hide React;
    hide Moves;
    hide Enabled;
    hide PlayOne;
    if inputs != [] {
      var i, first := inputs[0], React(env, s, inputs[0]);
      MovesInTime(env, s, i);
      InputPlays(env, s, i);
      PhaseOfCoupled(s.core);
      ReactSimulates(env, s, PhaseOf(s.core), i);
      HeldUntilSession(env, first.slot, inputs[1..]);
      InTimeAppend(env, s.core, Moves(env, s, i), MovesOf(env, first.slot, inputs[1..]));
      PlayAppend(env, s.core, Moves(env, s, i), MovesOf(env, first.slot, inputs[1..]));
    }
  }

  /** With a session, a read or a drain leaves nothing that could be taken. */
  lemma NothingWaits(env: Env, s: Slot, i: Input)
    requires IsDigest(env.sha3) && SlotInv(s) && Enabled(s, i) && (i.Receive? || i.Drain?)
    requires var c := React(env, s, i).slot.core; c.session.Some? && (i.Drain? ==> s.core.session.Some?)
    ensures !ParseFront(React(env, s, i).slot.buf).Complete?
  {
    hide ParseFront;
    if i.Receive? {
      ProcessSettles(env, s.(buf := s.buf + i.data));
    } else {
      ProcessSettles(env, s);
      if |s.buf| < HEADER_SIZE { ShortIsIncomplete(s.buf); }
    }
  }

  lemma ShortIsIncomplete(buf: seq<Byte>)
    requires |buf| < HEADER_SIZE
    ensures ParseFront(buf) == Incomplete
  {
  }

  lemma {:induction false} ProcessSettles(env: Env, s: Slot)
    requires IsDigest(env.sha3) && SlotInv(s)
    ensures var r := Process(env, s).slot;
            ParseFront(r.buf).Complete? ==> Held(r.core, ParseFront(r.buf).frame)
    decreases |s.buf|
  {
    hide Dispatch;
    hide Held;
    var front := ParseFront(s.buf);
    if front.Complete? && !Held(s.core, front.frame) {
      DispatchFacts(env, s.core, front.frame);
      var o := Dispatch(env, s.core, front.frame);
      if !o.reset { ProcessSettles(env, Slot(o.core, front.rest)); }
    }
  }

  // ----- while the user is being asked -----

  ghost predicate AllHeldTypes(fs: seq<Frame>) {
    forall i :: 0 <= i < |fs| ==> fs[i].typ == MSG_TEXT || fs[i].typ == MSG_FILE
  }

  /** Inputs that may come at any time. */
  predicate Waiting(i: Input) {
    i.Receive? || i.Drain? || i.SweepRx? || i.AddressBook?
  }

  predicate AllWaiting(inputs: seq<Input>) {
    forall k :: 0 <= k < |inputs| ==> Waiting(inputs[k])
  }

  predicate Accepting(i: Input) {
    i.TofuAnswer? && i.accept && i.tokenOk && i.alloc
  }

  lemma {:induction false} RunAppend(env: Env, s: Slot, a: seq<Input>, b: seq<Input>)
    requires IsDigest(env.sha3)
    ensures var r := RunAll(env, s, a);
            var q := RunAll(env, r.slot, b);
            && RunAll(env, s, a + b) == Run(q.slot, r.log + q.log)
            && MovesOf(env, s, a + b) == MovesOf(env, s, a) + MovesOf(env, r.slot, b)
            && (EnabledAll(env, s, a + b) <==> EnabledAll(env, s, a) && EnabledAll(env, r.slot, b))
    ensures Data(a + b) == Data(a) + Data(b)
    decreases |a|
  {
    hide React;
    hide Moves;
    hide Enabled;
    hide Data;
    DataJoin(a, b);
    if a == [] {
      assert a + b == b;
      assert [] + MovesOf(env, s, b) == MovesOf(env, s, b);
      assert [] + RunAll(env, s, b).log == RunAll(env, s, b).log;
    } else {
      assert (a + b)[0] == a[0] && (a + b)[1..] == a[1..] + b;
      var first := React(env, s, a[0]);
      RunAppend(env, first.slot, a[1..], b);
      var r := RunAll(env, first.slot, a[1..]);
      ThreeLogs(first.log, r.log, RunAll(env, r.slot, b).log);
    }
  }

  lemma OneInputRun(env: Env, s: Slot, i: Input)
    requires IsDigest(env.sha3)
    ensures RunAll(env, s, [i]) == React(env, s, i) && MovesOf(env, s, [i]) == Moves(env, s, i)
    ensures EnabledAll(env, s, [i]) <==> Enabled(s, i)
  {
    hide React;
    hide Moves;
    hide Enabled;
    assert [i][1..] == [];
    var r := React(env, s, i);
    assert r.log + [] == r.log && Moves(env, s, i) + [] == Moves(env, s, i);
  }

  /** Without a session a stream of text and file frames stays where it is. */
  lemma HeldStays(env: Env, c: Core, fs: seq<Frame>, buf: seq<Byte>)
    requires IsDigest(env.sha3) && AllWellFormed(fs) && AllHeldTypes(fs) && c.session.None? && buf <= EncodeFrames(fs)
    ensures Process(env, Slot(c, buf)) == Run(Slot(c, buf), []) && Taken(env, Slot(c, buf)) == []
  {
    if fs != [] {
      var e := EncodeFrame(fs[0]);
      assert EncodeFrames(fs) == e + EncodeFrames(fs[1..]);
      if |buf| < |e| {
        assert buf < e;
        ParsePartial(fs[0], buf);
      } else {
        assert buf[..|e|] == e && buf == e + buf[|e|..];
        ParseEncoded(fs[0], buf[|e|..]);
      }
    }
  }

  /** One input while the user is being asked. */
  lemma AskingStep(env: Env, s: Slot, i: Input, fs: seq<Frame>)
    requires IsDigest(env.sha3) && SlotInv(s) && s.core.st == TofuPending && Enabled(s, i) && Waiting(i)
    requires AllWellFormed(fs) && AllHeldTypes(fs) && s.buf + (if i.Receive? then i.data else []) <= EncodeFrames(fs)
    ensures var r := React(env, s, i);
            var book := if i.AddressBook? then i.contacts else s.core.contacts;
            && r.slot == Slot(s.core.(contacts := book), s.buf + if i.Receive? then i.data else [])
            && FramesOf(Moves(env, s, i)) == [] && (i.Receive? || i.Drain? ==> r.log == [] && Moves(env, s, i) == [])
  {
    hide Process;
    hide Taken;
    assert s.buf + [] == s.buf;
    if i.Receive? {
      HeldStays(env, s.core, fs, s.buf + i.data);
    } else if !i.Drain? {
      PlayDo(env, s.core, i);
    }
  }

  /** The last address book set by some inputs. */
  function BookAfter(book: Book, inputs: seq<Input>): (b: Book)
    decreases |inputs|
  {
    if inputs == [] then book
    else BookAfter(if inputs[0].AddressBook? then inputs[0].contacts else book, inputs[1..])
  }

  lemma {:induction false} Asking(env: Env, s: Slot, inputs: seq<Input>, fs: seq<Frame>, more: seq<Byte>)
    requires IsDigest(env.sha3) && SlotInv(s) && s.core.st == TofuPending && EnabledAll(env, s, inputs) && AllWaiting(inputs)
    requires AllWellFormed(fs) && AllHeldTypes(fs) && s.buf + Data(inputs) + more <= EncodeFrames(fs)
    ensures RunAll(env, s, inputs).slot ==
            Slot(s.core.(contacts := BookAfter(s.core.contacts, inputs)), s.buf + Data(inputs))
    ensures FramesOf(MovesOf(env, s, inputs)) == []
    decreases |inputs|
  {
    hide React;
    hide Moves;
    hide Enabled;
    hide EncodeFrames;
    if inputs == [] {
      assert s.buf + Data(inputs) == s.buf;
    } else {
      var i, rest := inputs[0], inputs[1..];
      var d := if i.Receive? then i.data else [];
      var all := s.buf + Data(inputs) + more;
      assert all == (s.buf + d) + Data(rest) + more;
      assert s.buf + d == all[..|s.buf + d|];
      AskingStep(env, s, i, fs);
      PhaseOfCoupled(s.core);
      ReactSimulates(env, s, PhaseOf(s.core), i);
      var next := React(env, s, i).slot;
      Asking(env, next, rest, fs, more);
      FramesAppend(Moves(env, s, i), MovesOf(env, next, rest));
      assert (s.buf + d) + Data(rest) == s.buf + Data(inputs);
    }
  }

  /** A session lasts until the connection is closed. */
  lemma EstablishedDispatch(env: Env, c: Core, f: Frame)
    requires IsDigest(env.sha3) && CoreInv(c) && Established(c.st)
    ensures var st := Dispatch(env, c, f).core.st; Established(st) || st == Idle
  {
    hide HandleText;
    hide HandleFile;
    hide HandleHandshake;
    if (f.typ == MSG_TEXT || f.typ == MSG_FILE) && c.session.Some? {
      SessionStays(env, c, c.session.value, f);
    }
  }

  lemma SessionStays(env: Env, c: Core, s: Session, f: Frame)
    requires Established(c.st)
    ensures var st := HandleText(env, c, s, f).core.st; Established(st) || st == Idle
    ensures Established(HandleFile(env, c, s, f).core.st)
  {
    hide RxStep;
    hide Cleaned;
    assert forall e :: Cleaned(e).st == Idle by { CleanedIsIdle(); }
  }

  lemma CleanedIsIdle()
    ensures forall c :: Cleaned(c).st == Idle
  {
  }

  lemma {:induction false} EstablishedProcess(env: Env, s: Slot)
    requires IsDigest(env.sha3) && SlotInv(s) && Established(s.core.st)
    ensures var st := Process(env, s).slot.core.st; Established(st) || st == Idle
    decreases |s.buf|
  {
    hide Dispatch;
    var front := ParseFront(s.buf);
    if front.Complete? && !Held(s.core, front.frame) {
      EstablishedDispatch(env, s.core, front.frame);
      DispatchFacts(env, s.core, front.frame);
      var o := Dispatch(env, s.core, front.frame);
      if o.reset {
        NothingToProcess(env, o.core);
      } else {
        EstablishedProcess(env, Slot(o.core, front.rest));
      }
    }
  }

  lemma EstablishedReact(env: Env, s: Slot, i: Input)
    requires IsDigest(env.sha3) && SlotInv(s) && Enabled(s, i) && Waiting(i) && (Established(s.core.st) || s.core.st == Idle)
    ensures var st := React(env, s, i).slot.core.st; Established(st) || st == Idle
  {
    hide Process;
    if Established(s.core.st) {
      EstablishedProcess(env, s);
      if i.Receive? { EstablishedProcess(env, s.(buf := s.buf + i.data)); }
    }
  }

  lemma {:induction false} EstablishedRun(env: Env, s: Slot, inputs: seq<Input>)
    requires IsDigest(env.sha3) && SlotInv(s) && EnabledAll(env, s, inputs) && AllWaiting(inputs)
    requires Established(s.core.st) || s.core.st == Idle
    ensures var r := RunAll(env, s, inputs).slot; SlotInv(r) && (Established(r.core.st) || r.core.st == Idle)
    decreases |inputs|
  {
    hide React;
    hide Enabled;
    if inputs != [] {
      EstablishedReact(env, s, inputs[0]);
      PhaseOfCoupled(s.core);
      ReactSimulates(env, s, PhaseOf(s.core), inputs[0]);
      EstablishedRun(env, React(env, s, inputs[0]).slot, inputs[1..]);
    }
  }

  lemma Answered(env: Env, s: Slot, i: Input)
    requires IsDigest(env.sha3) && SlotInv(s) && s.core.st == TofuPending && Accepting(i) && env.split(s.core.hs.value).Some?
    ensures var r := React(env, s, i); r.slot.core.st == Active && r.slot.buf == s.buf && r == AcceptTofu(env, s, i.saved, true)
  {
    hide Process;
  }

  /** Hold, over every interleaving: text and file frames meet a user who is still being asked. However reads, drains,
      sweeps and address-book changes are ordered, and wherever among them the accepting answer comes, nothing is taken
      before the answer; afterwards the frames are taken from the first on, in order, with nothing lost, and after a read
      or a drain only a strict prefix of the next frame is left, unless the connection was closed. */
  lemma HoldLosesNothing(env: Env, s: Slot, before: seq<Input>, answer: Input, after: seq<Input>, fs: seq<Frame>)
    requires IsDigest(env.sha3) && SlotInv(s) && s.core.st == TofuPending && env.split(s.core.hs.value).Some?
    requires AllWaiting(before) && Accepting(answer) && AllWaiting(after)
    requires EnabledAll(env, s, before + [answer] + after)
    requires AllWellFormed(fs) && AllHeldTypes(fs) && s.buf + Data(before + [answer] + after) <= EncodeFrames(fs)
    ensures var inputs := before + [answer] + after;
            var r, moves := RunAll(env, s, inputs), MovesOf(env, s, inputs);
            && FramesOf(MovesOf(env, s, before)) == []
            && Faithful(env, s, r, moves, fs, Data(inputs), [])
            && (after != [] && (after[|after| - 1].Receive? || after[|after| - 1].Drain?) && r.slot.core.st != Idle ==>
                  OnlyAPart(r.slot.buf, fs, |FramesOf(moves)|))
  {
    hide EncodeFrames;
    hide Faithful;
    hide Play;
    hide OnlyAPart;
    var inputs := before + [answer] + after;
    NothingLost(env, s, inputs, fs);
    AskThenAnswer(env, s, before, answer, after, fs);
    if after != [] && (after[|after| - 1].Receive? || after[|after| - 1].Drain?) && RunAll(env, s, inputs).slot.core.st != Idle {
      LastRead(env, s, before + [answer], after);
      Leftover(env, s, RunAll(env, s, inputs), MovesOf(env, s, inputs), fs, Data(inputs));
    }
  }

  /** Less than one more frame of the list. */
  ghost predicate OnlyAPart(buf: seq<Byte>, fs: seq<Frame>, k: nat)
    requires AllWellFormed(fs)
  {
    k <= |fs| && if k == |fs| then buf == [] else buf < EncodeFrame(fs[k])
  }

  lemma AskThenAnswer(env: Env, s: Slot, before: seq<Input>, answer: Input, after: seq<Input>, fs: seq<Frame>)
    requires IsDigest(env.sha3) && SlotInv(s) && s.core.st == TofuPending && env.split(s.core.hs.value).Some?
    requires AllWaiting(before) && Accepting(answer)
    requires EnabledAll(env, s, before + [answer] + after)
    requires AllWellFormed(fs) && AllHeldTypes(fs) && s.buf + Data(before + [answer] + after) <= EncodeFrames(fs)
    ensures FramesOf(MovesOf(env, s, before)) == []
    ensures var mid := RunAll(env, s, before + [answer]).slot;
            SlotInv(mid) && mid.core.st == Active && mid.buf == s.buf + Data(before) && EnabledAll(env, mid, after)
    ensures RunAll(env, s, before).slot == Slot(s.core.(contacts := BookAfter(s.core.contacts, before)), s.buf + Data(before))
  {
    hide EncodeFrames;
    hide React;
    hide Enabled;
    hide Moves;
    RunAppend(env, s, before + [answer], after);
    RunAppend(env, s, before, [answer]);
    DataAppend(before, [answer], after);
    var more := Data([answer]) + Data(after);
    assert s.buf + Data(before) + more == s.buf + Data(before + [answer] + after);
    Asking(env, s, before, fs, more);
    var waiting := RunAll(env, s, before).slot;
    assert [answer][1..] == [];
    PhaseOfCoupled(s.core);
    RunSimulates(env, s, PhaseOf(s.core), before);
    Answered(env, waiting, answer);
    PhaseOfCoupled(waiting.core);
    ReactSimulates(env, waiting, PhaseOf(waiting.core), answer);
  }

  lemma DataAppend(a: seq<Input>, b: seq<Input>, c: seq<Input>)
    ensures Data(a + b + c) == Data(a) + (Data(b) + Data(c))
  {
    DataJoin(a + b, c);
    DataJoin(a, b);
  }

  lemma {:induction false} DataJoin(a: seq<Input>, b: seq<Input>)
    ensures Data(a + b) == Data(a) + Data(b)
  {
    if a == [] {
      assert a + b == b;
    } else {
      assert (a + b)[0] == a[0] && (a + b)[1..] == a[1..] + b;
      DataJoin(a[1..], b);
    }
  }

  /** After the last read or drain in a session, no whole frame is left. */
  lemma LastRead(env: Env, s: Slot, first: seq<Input>, after: seq<Input>)
    requires IsDigest(env.sha3) && AllWaiting(after) && after != []
    requires var mid := RunAll(env, s, first).slot; SlotInv(mid) && Established(mid.core.st) && EnabledAll(env, mid, after)
    requires after[|after| - 1].Receive? || after[|after| - 1].Drain?
    requires RunAll(env, s, first + after).slot.core.st != Idle
    ensures !ParseFront(RunAll(env, s, first + after).slot.buf).Complete?
  {
    hide React;
    hide Enabled;
    hide ParseFront;
    hide Moves;
    hide MovesOf;
    hide RunAll;
    hide EnabledAll;
    hide CoreInv;
    hide SlotInv;
    var n := |after| - 1;
    var init, last := after[..n], after[n];
    var mid := RunAll(env, s, first).slot;
    assert after == init + [last];
    RunAppend(env, s, first, after);
    RunAppend(env, mid, init, [last]);
    EstablishedRun(env, mid, init);
    OneInputRun(env, RunAll(env, mid, init).slot, last);
    LastInput(env, RunAll(env, mid, init).slot, last);
  }

  lemma LastInput(env: Env, s: Slot, i: Input)
    requires IsDigest(env.sha3) && SlotInv(s) && Enabled(s, i) && (i.Receive? || i.Drain?)
    requires Established(s.core.st) || s.core.st == Idle
    requires React(env, s, i).slot.core.st != Idle
    ensures !ParseFront(React(env, s, i).slot.buf).Complete?
  {
    hide React;
    hide ParseFront;
    EstablishedReact(env, s, i);
    PhaseOfCoupled(s.core);
    ReactSimulates(env, s, PhaseOf(s.core), i);
    if s.core.st == Idle { IdleIsLast(env, s, i); }
    NothingWaits(env, s, i);
  }

  lemma IdleIsLast(env: Env, s: Slot, i: Input)
    requires IsDigest(env.sha3) && SlotInv(s) && Enabled(s, i) && Waiting(i) && s.core.st == Idle
    ensures React(env, s, i).slot.core.st == Idle
  {
    IdleStays(env, s, i);
  }

  lemma Leftover(env: Env, s: Slot, r: Run, moves: seq<Move>, fs: seq<Frame>, data: seq<Byte>)
    requires IsDigest(env.sha3) && AllWellFormed(fs) && Faithful(env, s, r, moves, fs, data, [])
    requires r.slot.core.st != Idle && !ParseFront(r.slot.buf).Complete?
    ensures OnlyAPart(r.slot.buf, fs, |FramesOf(moves)|)
  {
    hide Play;
    hide EncodeFrame;
    var k := |FramesOf(moves)|;
    var rest, buf := fs[k..], r.slot.buf;
    assert buf + [] == buf;
    if rest == [] {
      assert |buf| == 0;
    } else {
      FirstFrame(rest);
      var whole := SplitPrefix(EncodeFrame(rest[0]), EncodeFrames(rest[1..]), buf);
      if whole { ParseEncoded(rest[0], buf[|EncodeFrame(rest[0])|..]); }
    }
  }

  predicate AllReads(inputs: seq<Input>) {
    forall k :: 0 <= k < |inputs| ==> inputs[k].Receive? || inputs[k].Drain?
  }

  lemma {:induction false} OnlyTakes(env: Env, s: Slot, inputs: seq<Input>)
    requires IsDigest(env.sha3) && AllReads(inputs)
    ensures MovesOf(env, s, inputs) == Takes(FramesOf(MovesOf(env, s, inputs)))
    decreases |inputs|
  {
    hide React;
    hide Taken;
    if inputs == [] {
      assert Takes([]) == [];
    } else {
      var m, next := Moves(env, s, inputs[0]), React(env, s, inputs[0]).slot;
      OnlyTakes(env, next, inputs[1..]);
      ReadTakes(env, s, inputs[0]);
      TakesJoin(m, MovesOf(env, next, inputs[1..]));
    }
  }

  lemma ReadTakes(env: Env, s: Slot, i: Input)
    requires IsDigest(env.sha3) && (i.Receive? || i.Drain?)
    ensures Moves(env, s, i) == Takes(FramesOf(Moves(env, s, i)))
  {
    hide Taken;
    TakesBack(if i.Receive? then Taken(env, s.(buf := s.buf + i.data)) else Taken(env, s));
    assert FramesOf([]) == [] && Takes([]) == [];
  }

  lemma TakesJoin(a: seq<Move>, b: seq<Move>)
    requires a == Takes(FramesOf(a)) && b == Takes(FramesOf(b))
    ensures a + b == Takes(FramesOf(a + b))
  {
    hide FramesOf;
    FramesAppend(a, b);
  }

  lemma {:induction false} TakesBack(fs: seq<Frame>)
    ensures FramesOf(Takes(fs)) == fs
  {
    if fs != [] {
      assert Takes(fs)[1..] == Takes(fs[1..]);
      TakesBack(fs[1..]);
    }
  }

  /** With reads and drains only, waiting for the answer is invisible: state and log are those of a session that existed
      from the start and was handed the frames taken. */
  lemma HoldIsInvisible(env: Env, s: Slot, before: seq<Input>, answer: Input, after: seq<Input>, fs: seq<Frame>)
    requires IsDigest(env.sha3) && SlotInv(s) && s.core.st == TofuPending && env.split(s.core.hs.value).Some?
    requires AllReads(before) && Accepting(answer) && AllReads(after)
    requires EnabledAll(env, s, before + [answer] + after)
    requires AllWellFormed(fs) && AllHeldTypes(fs) && s.buf + Data(before + [answer] + after) <= EncodeFrames(fs)
    ensures var r := RunAll(env, s, before + [answer] + after);
            var session := AcceptTofu(env, s, answer.saved, true);
            var taken := FramesOf(MovesOf(env, s, before + [answer] + after));
            var d := DispatchAll(env, session.slot.core, taken);
            r.slot.core == d.core && r.log == session.log + d.log
  {
    hide React;
    hide Enabled;
    hide Moves;
    hide EncodeFrames;
    hide RunAll;
    hide MovesOf;
    hide EnabledAll;
    hide AcceptTofu;
    hide SlotInv;
    hide Play;
    hide DispatchAll;
    AskThenAnswer(env, s, before, answer, after, fs);
    NoBook(s.core.contacts, before);
    var waiting := RunAll(env, s, before).slot;
    assert waiting.core == s.core;
    NoMovesYet(env, s, before, answer, after);
    RunAppend(env, s, before + [answer], after);
    RunAppend(env, s, before, [answer]);
    AnswerFirst(env, s, waiting, answer);
    var mid := RunAll(env, s, before + [answer]).slot;
    HeldUntilSession(env, mid, after);
    OnlyTakes(env, mid, after);
    PlayTakes(env, mid.core, FramesOf(MovesOf(env, mid, after)));
    FramesAppend(MovesOf(env, s, before + [answer]), MovesOf(env, mid, after));
    FramesAppend(MovesOf(env, s, before), MovesOf(env, waiting, [answer]));
    assert [] + RunAll(env, waiting, [answer]).log == RunAll(env, waiting, [answer]).log;
    assert [] + FramesOf(MovesOf(env, mid, after)) == FramesOf(MovesOf(env, mid, after));
  }

  /** The answer does the same before and after the reads. */
  lemma AnswerFirst(env: Env, s: Slot, waiting: Slot, answer: Input)
    requires IsDigest(env.sha3) && SlotInv(s) && s.core.st == TofuPending && env.split(s.core.hs.value).Some?
    requires waiting.core == s.core && Accepting(answer)
    ensures var r := RunAll(env, waiting, [answer]);
            var session := AcceptTofu(env, s, answer.saved, true);
            r.slot.core == session.slot.core && r.log == session.log && FramesOf(MovesOf(env, waiting, [answer])) == []
  {
    hide AcceptTofu;
    hide Process;
    OneInputRun(env, waiting, answer);
    AcceptSame(env, waiting, answer.saved, true);
    AcceptSame(env, s, answer.saved, true);
    PlayDo(env, s.core, answer);
  }

  /** Reads before the answer log nothing. */
  lemma NoMovesYet(env: Env, s: Slot, before: seq<Input>, answer: Input, after: seq<Input>)
    requires IsDigest(env.sha3) && SlotInv(s) && AllReads(before) && EnabledAll(env, s, before + [answer] + after)
    requires FramesOf(MovesOf(env, s, before)) == []
    ensures RunAll(env, s, before).log == []
  {
    hide React;
    hide Enabled;
    hide Moves;
    RunAppend(env, s, before + [answer], after);
    RunAppend(env, s, before, [answer]);
    OnlyTakes(env, s, before);
    assert Takes([]) == [];
    HeldUntilSession(env, s, before);
    PlayNone(env, s.core);
  }

  lemma {:induction false} NoBook(book: Book, inputs: seq<Input>)
    requires AllReads(inputs)
    ensures BookAfter(book, inputs) == book
  {
    if inputs != [] { NoBook(book, inputs[1..]); }
  }

  /** A full buffer costs the connection even when it need not: the largest text frame fills the buffer while the user is
      being asked; after the answer the full-buffer branch delivers it, which empties the buffer, and closes all the same. */
  lemma DeliveredAndClosed(env: Env, s: Slot, f: Frame, saved: bool, id: nat, text: seq<Byte>)
    requires IsDigest(env.sha3) && SlotInv(s) && s.core.st == TofuPending && s.buf == []
    requires env.split(s.core.hs.value) == Some(id) && env.decrypt(id, 0, f.payload) == Some(text) && text != []
    requires f.WellFormed() && f.typ == MSG_TEXT && f.seqNo == 0 && |f.payload| == MAX_PAYLOAD
    ensures var inputs := [Receive(EncodeFrame(f)), TofuAnswer(true, true, saved, true)];
            var full := RunAll(env, s, inputs).slot;
            && EnabledAll(env, s, inputs + [BufferFull])
            && full.core.st == Active && Process(env, full).slot.core.st == Active && Process(env, full).slot.buf == []
            && TextShown(0, text) in React(env, full, BufferFull).log
            && React(env, full, BufferFull).slot.core.st == Idle
  {
    hide EncodeFrame;
    hide Process;
    var read, answer := Receive(EncodeFrame(f)), TofuAnswer(true, true, saved, true);
    var waiting := Slot(s.core, EncodeFrame(f));
    assert EncodeFrames([f]) == EncodeFrame(f) by { assert [f][1..] == []; }
    assert s.buf + EncodeFrame(f) == EncodeFrame(f);
    HeldStays(env, s.core, [f], EncodeFrame(f));
    assert React(env, s, read) == Run(waiting, []);
    var full := React(env, waiting, answer).slot;
    TwoInputs(env, s, read, answer);
    LargestText(env, full, f, id, text);
  }

  lemma TwoInputs(env: Env, s: Slot, i: Input, j: Input)
    requires IsDigest(env.sha3)
    ensures var a, b := React(env, s, i), React(env, React(env, s, i).slot, j);
            && RunAll(env, s, [i, j]).slot == b.slot
            && (EnabledAll(env, s, [i, j] + [BufferFull]) <==>
                  Enabled(s, i) && Enabled(a.slot, j) && Enabled(b.slot, BufferFull))
  {
    hide React;
    hide Enabled;
    hide Moves;
    var a := React(env, s, i);
    assert [i, j] == [i] + [j] && [i, j] + [BufferFull] == [i] + ([j] + [BufferFull]);
    RunAppend(env, s, [i], [j]);
    RunAppend(env, s, [i], [j] + [BufferFull]);
    RunAppend(env, a.slot, [j], [BufferFull]);
    OneInputRun(env, s, i);
    OneInputRun(env, a.slot, j);
    OneInputRun(env, React(env, a.slot, j).slot, BufferFull);
  }

  /** A session's first text frame, alone in the buffer. */
  lemma LargestText(env: Env, s: Slot, f: Frame, id: nat, text: seq<Byte>)
    requires IsDigest(env.sha3) && f.WellFormed() && f.typ == MSG_TEXT && f.seqNo == 0 && s.buf == EncodeFrame(f)
    requires s.core.st == Active && s.core.session == Some(Session(id, 0)) && s.core.rxSeq == 0 && !s.core.verified
    requires s.core.connected && s.core.hs.None? && env.decrypt(id, 0, f.payload) == Some(text) && text != []
    ensures var r := Process(env, s);
            r.slot.core.st == Active && r.slot.core.connected && r.slot.buf == [] && r.log != [] && r.log[0] == TextShown(0, text)
    ensures TextShown(0, text) in React(env, s, BufferFull).log && React(env, s, BufferFull).slot.core.st == Idle
  {
    hide Dispatch;
    hide EncodeFrame;
    assert EncodeFrame(f) + [] == EncodeFrame(f);
    ParseEncoded(f, []);
    FirstText(env, s.core, f, id, text);
    var o := Dispatch(env, s.core, f);
    NothingToProcess(env, o.core);
    assert Process(env, s).log == o.log + [] == o.log;
    ThenClosed(env, s, TextShown(0, text));
  }

  lemma FirstText(env: Env, c: Core, f: Frame, id: nat, text: seq<Byte>)
    requires IsDigest(env.sha3) && f.typ == MSG_TEXT && f.seqNo == 0 && c.session == Some(Session(id, 0)) && c.rxSeq == 0
    requires c.st == Active && c.connected && !c.verified && env.decrypt(id, 0, f.payload) == Some(text) && text != []
    ensures var o := Dispatch(env, c, f);
            && o.core.st == Active && o.core.connected && !o.reset && o.flow == Continue
            && o.log != [] && o.log[0] == TextShown(0, text)
  {
    hide SmDispatch;
  }

  lemma ThenClosed(env: Env, s: Slot, a: Act)
    requires IsDigest(env.sha3) && a in Process(env, s).log
    requires Process(env, s).slot.core.connected && Process(env, s).slot.core.st == Active
    ensures a in React(env, s, BufferFull).log && React(env, s, BufferFull).slot.core.st == Idle
  {
    hide Process;
  }
}
