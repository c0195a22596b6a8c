/**
 The receive side as a stream: independence from read boundaries, room in the buffer, and the loop over the
 receive array itself (src/event_loop.c:111-155, 989-1028).
 */
module PeerStream {
  import opened Bytes
  import opened Frames
  import opened Onion
  import opened Receiver
  import opened Peer
  import opened PeerTrace

  // ----- dispatching a list of frames -----

  datatype Outcome = Outcome(core: Core, log: seq<Act>)

  function DispatchAll(env: Env, c: Core, fs: seq<Frame>): (r: Outcome)
    requires IsDigest(env.sha3)
    decreases |fs|
  {
    if fs == [] then Outcome(c, [])
    else
      var o := Dispatch(env, c, fs[0]);
      var rest := DispatchAll(env, o.core, fs[1..]);
      Outcome(rest.core, o.log + rest.log)
  }

  /** No frame of the list is held back, gives up the loop or closes the connection. */
  ghost predicate Flows(env: Env, c: Core, fs: seq<Frame>)
    requires IsDigest(env.sha3)
    decreases |fs|
  {
    fs == [] ||
    (!Held(c, fs[0]) &&
     var o := Dispatch(env, c, fs[0]);
     !o.reset && o.flow == Continue && Flows(env, o.core, fs[1..]))
  }

  lemma {:induction false} DispatchAllAppend(env: Env, c: Core, a: seq<Frame>, b: seq<Frame>)
    requires IsDigest(env.sha3)
    ensures var first := DispatchAll(env, c, a);
            var rest := DispatchAll(env, first.core, b);
            DispatchAll(env, c, a + b) == Outcome(rest.core, first.log + rest.log)
    ensures Flows(env, c, a + b) <==> Flows(env, c, a) && Flows(env, DispatchAll(env, c, a).core, b)
    decreases |a|
  {
    hide Dispatch;
    if a == [] {
      assert a + b == b;
    } else {
      assert (a + b)[0] == a[0] && (a + b)[1..] == a[1..] + b;
      var o := Dispatch(env, c, a[0]);
      DispatchAllAppend(env, o.core, a[1..], b);
      var x, y := DispatchAll(env, o.core, a[1..]).log, DispatchAll(env, DispatchAll(env, c, a).core, b).log;
      assert o.log + (x + y) == (o.log + x) + y;
    }
  }

  /** A strict prefix of some well-formed frame (possibly empty). */
  ghost predicate Partial(part: seq<Byte>) {
    part == [] || exists f: Frame :: f.WellFormed() && part < EncodeFrame(f)
  }

  lemma PartialIsIncomplete(part: seq<Byte>)
    requires Partial(part)
    ensures ParseFront(part) == Incomplete && |part| < BUF_CAPACITY
  {
    if part != [] {
      var f: Frame :| f.WellFormed() && part < EncodeFrame(f);
      ParsePartial(f, part);
    }
  }

  /** The loop on a buffer of whole frames and a partial one: all the frames, in order, and the rest kept. */
  lemma {:induction false} ProcessFrames(env: Env, c: Core, fs: seq<Frame>, part: seq<Byte>)
    requires IsDigest(env.sha3) && AllWellFormed(fs) && Flows(env, c, fs) && Partial(part)
    ensures var r := DispatchAll(env, c, fs);
            Process(env, Slot(c, EncodeFrames(fs) + part)) == Run(Slot(r.core, part), r.log)
    decreases |fs|
  {
    hide Dispatch;
    hide EncodeFrame;
    hide Held;
    if fs == [] {
      NoFrames(env, c, part);
    } else {
      var rest := EncodeFrames(fs[1..]) + part;
      assert EncodeFrames(fs) + part == EncodeFrame(fs[0]) + rest;
      ParseEncoded(fs[0], rest);
      var o := Dispatch(env, c, fs[0]);
      ProcessFrames(env, o.core, fs[1..], part);
    }
  }

  // ----- streams without a held or closing frame -----

  function FeedAll(env: Env, s: Slot, pieces: seq<seq<Byte>>): (r: Run)
    requires IsDigest(env.sha3)
    decreases |pieces|
  {
    if pieces == [] then Run(s, [])
    else
      var first := React(env, s, Receive(pieces[0]));
      var rest := FeedAll(env, first.slot, pieces[1..]);
      Run(rest.slot, first.log + rest.log)
  }

  /** After receiving `stream`, exactly m frames have been dispatched, in order, and a strict prefix of
      the next one is in the buffer. */
  ghost predicate Received(env: Env, c: Core, fs: seq<Frame>, stream: seq<Byte>, m: nat, part: seq<Byte>, r: Run)
    requires IsDigest(env.sha3) && AllWellFormed(fs)
  {
    && m <= |fs| && stream == EncodeFrames(fs[..m]) + part
    && (if m == |fs| then part == [] else part < EncodeFrame(fs[m]))
    && var o := DispatchAll(env, c, fs[..m]); r == Run(Slot(o.core, part), o.log)
  }

  /** One read: it completes some frames and leaves a strict prefix of the next. */
  lemma OneRead(env: Env, c: Core, held: seq<Byte>, fs: seq<Frame>, data: seq<Byte>, more: seq<Byte>)
    returns (k: nat, left: seq<Byte>)
    requires IsDigest(env.sha3) && AllWellFormed(fs) && Flows(env, c, fs) && held + data + more <= EncodeFrames(fs)
    ensures Received(env, c, fs, held + data, k, left, React(env, Slot(c, held), Receive(data)))
    ensures k <= |fs| && AllWellFormed(fs[k..]) && Flows(env, React(env, Slot(c, held), Receive(data)).slot.core, fs[k..])
    ensures React(env, Slot(c, held), Receive(data)).slot.buf == left
    ensures if fs[k..] == [] then left == [] else left < EncodeFrame(fs[k..][0])
    ensures left + more <= EncodeFrames(fs[k..])
  {
    hide Dispatch;
    hide EncodeFrame;
    hide EncodeFrames;
    hide DispatchAll;
    hide Flows;
    hide Process;
    var now := held + data;
    assert now == (now + more)[..|now|];
    k, left := CutPoint(fs, now);
    var done, later := fs[..k], fs[k..];
    assert fs == done + later;
    DispatchAllAppend(env, c, done, later);
    EncodeFramesAppend(done, later);
    assert Partial(left);
    ProcessFrames(env, c, done, left);
    assert now + more == EncodeFrames(done) + (left + more);
    PrefixDrop(EncodeFrames(done), left + more, EncodeFrames(later), now + more, EncodeFrames(fs));
  }

  lemma ReceivedNothing(env: Env, c: Core, held: seq<Byte>, fs: seq<Frame>)
    requires IsDigest(env.sha3) && AllWellFormed(fs)
    requires if fs == [] then held == [] else held < EncodeFrame(fs[0])
    ensures Received(env, c, fs, held, 0, held, Run(Slot(c, held), []))
    ensures |held| < BUF_CAPACITY
  {
    assert fs[..0] == [];
  }

  /** Receiving one part of a stream and then the other is receiving the stream. */
  lemma ReceivedThen(env: Env, c: Core, fs: seq<Frame>, stream: seq<Byte>, k: nat, left: seq<Byte>, r: Run,
                     more: seq<Byte>, j: nat, part: seq<Byte>, r': Run)
    requires IsDigest(env.sha3) && AllWellFormed(fs) && Received(env, c, fs, stream, k, left, r)
    requires Received(env, r.slot.core, fs[k..], left + more, j, part, r')
    ensures Received(env, c, fs, stream + more, k + j, part, Run(r'.slot, r.log + r'.log))
  {
    hide Dispatch;
    hide EncodeFrame;
    hide Flows;
    var done, next := fs[..k], fs[k..][..j];
    TakeTake(fs, k, j);
    DispatchAllAppend(env, c, done, next);
    EncodeFramesAppend(done, next);
    Regroup(stream + more, EncodeFrames(done), left, more, EncodeFrames(next), part);
  }

  /** If no frame is held back or closes the connection: what is dispatched is exactly the frames received so
      far, in order, and a strict prefix of the next frame stays, so there is always room for another byte. */
  lemma {:induction false} ReassemblyInFlow(env: Env, c: Core, held: seq<Byte>, fs: seq<Frame>, pieces: seq<seq<Byte>>)
    returns (m: nat, part: seq<Byte>)
    requires IsDigest(env.sha3) && AllWellFormed(fs) && Flows(env, c, fs)
    requires held + Concat(pieces) <= EncodeFrames(fs)
    requires if fs == [] then held == [] else held < EncodeFrame(fs[0])
    ensures Received(env, c, fs, held + Concat(pieces), m, part, FeedAll(env, Slot(c, held), pieces))
    ensures |part| < BUF_CAPACITY
    decreases |pieces|
  {
    hide Dispatch;
    hide Process;
    hide Received;
    hide React;
    hide Flows;
    hide EncodeFrame;
    hide EncodeFrames;
    hide AllWellFormed;
    if pieces == [] {
      m, part := 0, held;
      assert held + Concat(pieces) == held;
      ReceivedNothing(env, c, held, fs);
    } else {
      var now, rest := held + pieces[0], Concat(pieces[1..]);
      assert now + rest == held + Concat(pieces);
      var k, left := OneRead(env, c, held, fs, pieces[0], rest);
      var first := React(env, Slot(c, held), Receive(pieces[0]));
      var j;
      j, part := ReassemblyInFlow(env, first.slot.core, left, fs[k..], pieces[1..]);
      m := k + j;
      ReceivedThen(env, c, fs, now, k, left, first, rest, j, part, FeedAll(env, first.slot, pieces[1..]));
    }
  }

  lemma TakeTake(fs: seq<Frame>, k: nat, j: nat)
    requires k + j <= |fs|
    ensures fs[..k + j] == fs[..k] + fs[k..][..j]
    ensures k + j < |fs| ==> fs[k + j] == fs[k..][j]
  {
  }

  lemma Regroup(whole: seq<Byte>, a: seq<Byte>, b: seq<Byte>, c: seq<Byte>, d: seq<Byte>, e: seq<Byte>)
    requires whole == (a + b) + c && b + c == d + e
    ensures whole == a + (b + c) == (a + d) + e
  {
    assert (a + b) + c == a + (b + c);
    assert (a + d) + e == a + (d + e);
  }

  lemma PrefixDrop(a: seq<Byte>, x: seq<Byte>, y: seq<Byte>, ax: seq<Byte>, ay: seq<Byte>)
    requires ax == a + x && ay == a + y && ax <= ay
    ensures x <= y
  {
    assert x == ax[|a|..] && y == ay[|a|..];
    assert forall i :: 0 <= i < |x| ==> x[i] == ax[|a| + i] == ay[|a| + i] == y[i];
  }

  /** Such a stream is then dispatched whole, whatever the cuts. */
  lemma CutsInFlow(env: Env, c: Core, fs: seq<Frame>, pieces: seq<seq<Byte>>)
    requires IsDigest(env.sha3) && AllWellFormed(fs) && Flows(env, c, fs) && Concat(pieces) == EncodeFrames(fs)
    ensures var r := DispatchAll(env, c, fs);
            FeedAll(env, Slot(c, []), pieces) == Run(Slot(r.core, []), r.log)
  {
    hide Dispatch;
    hide Process;
    hide EncodeFrame;
    assert [] + Concat(pieces) == Concat(pieces);
    var m, part := ReassemblyInFlow(env, c, [], fs, pieces);
    EncodeFramesAppend(fs[..m], fs[m..]);
    assert fs == fs[..m] + fs[m..];
    assert |part| == |EncodeFrames(fs[m..])|;
    assert m == |fs|;
    assert fs[..m] == fs;
  }

  // ----- reads cut anywhere, for every stream of well-formed frames -----

  /** A connected slot in a consistent state. */
  ghost predicate Alive(c: Core) {
    CoreInv(c) && c.st != Idle
  }

  lemma DispatchFacts(env: Env, c: Core, f: Frame)
    requires IsDigest(env.sha3) && Alive(c)
    ensures var o := Dispatch(env, c, f);
            CoreInv(o.core) && (o.reset <==> o.core.st == Idle) && (o.flow == Break ==> o.reset)
  {
    PhaseOfCoupled(c);
    DispatchSimulates(env, c, PhaseOf(c), f);
    ResetMeansIdle(env, c, f);
  }

  lemma ResetMeansIdle(env: Env, c: Core, f: Frame)
    requires IsDigest(env.sha3)
    ensures Dispatch(env, c, f).reset ==> Dispatch(env, c, f).core.st == Idle
  {
    hide OnionPubkey;
    hide OnionVerify;
    hide RxStep;
  }

  /** How many of these frames are dispatched: up to the first that is held back, or up to and with the first that
      closes the connection. */
  function Stop(env: Env, c: Core, fs: seq<Frame>): (n: nat)
    requires IsDigest(env.sha3)
    ensures n <= |fs|
    decreases |fs|
  {
    if fs == [] || Held(c, fs[0]) then 0
    else
      var o := Dispatch(env, c, fs[0]);
      if o.reset then 1 else 1 + Stop(env, o.core, fs[1..])
  }

  /** The frames the loop takes off a buffer. */
  function Taken(env: Env, s: Slot): (fs: seq<Frame>)
    requires IsDigest(env.sha3)
    decreases |s.buf|
  {
    match ParseFront(s.buf)
    case Complete(f, rest) =>
      if Held(s.core, f) then []
      else
        var o := Dispatch(env, s.core, f);
        if o.reset || o.flow == Break then [f] else [f] + Taken(env, Slot(o.core, rest))
    case _ => []
  }

  /** The loop with a whole frame in front. */
  lemma FrameInFront(env: Env, c: Core, f: Frame, rest: seq<Byte>)
    requires IsDigest(env.sha3) && Alive(c) && f.WellFormed()
    ensures var s := Slot(c, EncodeFrame(f) + rest);
            var o := Dispatch(env, c, f);
            var next := Slot(o.core, rest);
            && (Held(c, f) ==> Process(env, s) == Run(s, []) && Taken(env, s) == [])
            && (!Held(c, f) && o.reset ==> Process(env, s) == Run(Slot(o.core, []), o.log) && Taken(env, s) == [f])
            && (!Held(c, f) && !o.reset ==>
                  && Process(env, s) == Run(Process(env, next).slot, o.log + Process(env, next).log)
                  && Taken(env, s) == [f] + Taken(env, next))
            && CoreInv(o.core) && (o.reset <==> o.core.st == Idle)
  {
    hide Dispatch;
    hide Held;
    hide EncodeFrame;
    ParseEncoded(f, rest);
    DispatchFacts(env, c, f);
    var o := Dispatch(env, c, f);
    NothingToProcess(env, o.core);
    assert o.log + [] == o.log;
  }

  /** The loop with less than a frame. */
  lemma PartInFront(env: Env, c: Core, f: Frame, part: seq<Byte>)
    requires IsDigest(env.sha3) && f.WellFormed() && part < EncodeFrame(f)
    ensures Process(env, Slot(c, part)) == Run(Slot(c, part), []) && Taken(env, Slot(c, part)) == []
  {
    ParsePartial(f, part);
  }

  /** A slot that has received these whole frames and a partial one has dispatched exactly the first Stop of the frames,
      in order, and holds all the rest, or nothing if the connection was closed. */
  ghost predicate UpToStop(env: Env, c: Core, fs: seq<Frame>, part: seq<Byte>, r: Run)
    requires IsDigest(env.sha3) && AllWellFormed(fs)
  {
    var n := Stop(env, c, fs);
    var d := DispatchAll(env, c, fs[..n]);
    r == Run(Slot(d.core, if d.core.st == Idle then [] else EncodeFrames(fs[n..]) + part), d.log)
  }

  datatype Through = Through(core: Core, log: seq<Act>, rest: seq<Frame>)

  /** The same, frame by frame. */
  function Dispatched(env: Env, c: Core, fs: seq<Frame>): (t: Through)
    requires IsDigest(env.sha3)
    decreases |fs|
  {
    if fs == [] || Held(c, fs[0]) then Through(c, [], fs)
    else
      var o := Dispatch(env, c, fs[0]);
      if o.reset then Through(o.core, o.log, fs[1..])
      else
        var t := Dispatched(env, o.core, fs[1..]);
        Through(t.core, o.log + t.log, t.rest)
  }

  lemma {:induction false} DispatchedIs(env: Env, c: Core, fs: seq<Frame>)
    requires IsDigest(env.sha3)
    ensures var n, t := Stop(env, c, fs), Dispatched(env, c, fs);
            DispatchAll(env, c, fs[..n]) == Outcome(t.core, t.log) && t.rest == fs[n..]
    decreases |fs|
  {
    hide Dispatch;
    hide Held;
    var n := Stop(env, c, fs);
    if n == 0 {
      assert fs[..0] == [] && fs[0..] == fs;
    } else {
      var o := Dispatch(env, c, fs[0]);
      FirstOf(env, c, fs, n);
      assert fs[n..] == fs[1..][n - 1..];
      if o.reset {
        assert fs[1..][..0] == [] && o.log + [] == o.log;
      } else {
        DispatchedIs(env, o.core, fs[1..]);
      }
    }
  }

  lemma {:induction false} ProcessDispatches(env: Env, c: Core, fs: seq<Frame>, part: seq<Byte>)
    requires IsDigest(env.sha3) && AllWellFormed(fs) && Alive(c) && Partial(part)
    ensures var t := Dispatched(env, c, fs);
            && AllWellFormed(t.rest)
            && Process(env, Slot(c, EncodeFrames(fs) + part)) ==
               Run(Slot(t.core, if t.core.st == Idle then [] else EncodeFrames(t.rest) + part), t.log)
    decreases |fs|
  {
    hide Dispatch;
    hide Held;
    hide EncodeFrame;
    hide CoreInv;
    hide Process;
    if fs == [] {
      NoFrames(env, c, part);
    } else {
      var rest := EncodeFrames(fs[1..]) + part;
      assert EncodeFrames(fs) + part == EncodeFrame(fs[0]) + rest;
      FrameInFront(env, c, fs[0], rest);
      if !Held(c, fs[0]) && !Dispatch(env, c, fs[0]).reset {
        ProcessDispatches(env, Dispatch(env, c, fs[0]).core, fs[1..], part);
      }
    }
  }

  lemma NoFrames(env: Env, c: Core, part: seq<Byte>)
    requires IsDigest(env.sha3) && Partial(part)
    ensures EncodeFrames([]) + part == part && Process(env, Slot(c, part)) == Run(Slot(c, part), [])
  {
    assert EncodeFrames([]) + part == part;
    PartialIsIncomplete(part);
  }

  lemma ProcessWhole(env: Env, c: Core, fs: seq<Frame>, part: seq<Byte>)
    requires IsDigest(env.sha3) && AllWellFormed(fs) && Alive(c) && Partial(part)
    ensures UpToStop(env, c, fs, part, Process(env, Slot(c, EncodeFrames(fs) + part)))
  {
    hide Process;
    hide EncodeFrames;
    hide Dispatched;
    hide Stop;
    hide DispatchAll;
    hide CoreInv;
    DispatchedIs(env, c, fs);
    ProcessDispatches(env, c, fs, part);
  }

  lemma NothingToProcess(env: Env, c: Core)
    requires IsDigest(env.sha3)
    ensures Process(env, Slot(c, [])) == Run(Slot(c, []), [])
  {
  }

  lemma FirstOf(env: Env, c: Core, fs: seq<Frame>, n: nat)
    requires IsDigest(env.sha3) && 0 < n <= |fs|
    ensures var o := Dispatch(env, c, fs[0]);
            var rest := DispatchAll(env, o.core, fs[1..][..n - 1]);
            DispatchAll(env, c, fs[..n]) == Outcome(rest.core, o.log + rest.log)
  {
    hide Dispatch;
    assert fs[..n][0] == fs[0] && fs[..n][1..] == fs[1..][..n - 1];
  }

  /** What one call of the loop leaves of a stream of frames. */
  ghost predicate TookFrom(env: Env, c: Core, fs: seq<Frame>, buf: seq<Byte>, more: seq<Byte>)
    requires IsDigest(env.sha3) && AllWellFormed(fs)
  {
    var r, taken := Process(env, Slot(c, buf)), Taken(env, Slot(c, buf));
    var k := |taken|;
    && k <= |fs| && taken == fs[..k] && CoreInv(r.slot.core)
    && DispatchAll(env, c, taken) == Outcome(r.slot.core, r.log)
    && (r.slot.core.st == Idle ==> r.slot.buf == [])
    && (r.slot.core.st != Idle ==> buf == EncodeFrames(taken) + r.slot.buf && r.slot.buf + more <= EncodeFrames(fs[k..]))
  }

  lemma FirstFrame(fs: seq<Frame>)
    requires AllWellFormed(fs) && fs != []
    ensures fs[0].WellFormed() && AllWellFormed(fs[1..]) && EncodeFrames(fs) == EncodeFrame(fs[0]) + EncodeFrames(fs[1..])
  {
  }

  lemma {:induction false} ProcessTakes(env: Env, c: Core, fs: seq<Frame>, buf: seq<Byte>, more: seq<Byte>)
    requires IsDigest(env.sha3) && AllWellFormed(fs) && Alive(c) && buf + more <= EncodeFrames(fs)
    ensures TookFrom(env, c, fs, buf, more)
    decreases |buf|
  {
    hide Dispatch;
    hide Held;
    hide EncodeFrame;
    hide TookFrom;
    hide CoreInv;
    hide EncodeFrames;
    hide AllWellFormed;
    hide Process;
    hide Taken;
    if fs == [] {
      TookEmpty(env, c, buf, more);
    } else {
      FirstFrame(fs);
      var e, rest := EncodeFrame(fs[0]), EncodeFrames(fs[1..]);
      var whole := SplitMore(e, rest, buf, more);
      if !whole {
        PartInFront(env, c, fs[0], buf);
        TookNothing(env, c, fs, buf, more);
      } else {
        FrameInFront(env, c, fs[0], buf[|e|..]);
        if Held(c, fs[0]) {
          TookNothing(env, c, fs, buf, more);
        } else if Dispatch(env, c, fs[0]).reset {
          TookLast(env, c, fs, buf, more);
        } else {
          ProcessTakes(env, Dispatch(env, c, fs[0]).core, fs[1..], buf[|e|..], more);
          TookOneMore(env, c, fs, buf, more);
        }
      }
    }
  }

  lemma TookEmpty(env: Env, c: Core, buf: seq<Byte>, more: seq<Byte>)
    requires IsDigest(env.sha3) && Alive(c) && buf + more <= EncodeFrames([])
    ensures TookFrom(env, c, [], buf, more)
  {
    assert |buf + more| == 0;
    assert buf == [];
    NothingToProcess(env, c);
    TookNothing(env, c, [], buf, more);
  }

  /** A beginning of a + b, cut in two. */
  lemma SplitMore(a: seq<Byte>, b: seq<Byte>, x: seq<Byte>, y: seq<Byte>) returns (whole: bool)
    requires x + y <= a + b
    ensures whole == (|x| >= |a|)
    ensures !whole ==> x < a
    ensures whole ==> x == a + x[|a|..] && x[|a|..] + y <= b
  {
    assert x == (x + y)[..|x|];
    whole := SplitPrefix(a, b, x);
    if whole {
      assert x + y == a + (x[|a|..] + y);
      PrefixDrop(a, x[|a|..] + y, b, x + y, a + b);
    }
  }

  lemma TookNothing(env: Env, c: Core, fs: seq<Frame>, buf: seq<Byte>, more: seq<Byte>)
    requires IsDigest(env.sha3) && AllWellFormed(fs) && Alive(c) && buf + more <= EncodeFrames(fs)
    requires Process(env, Slot(c, buf)) == Run(Slot(c, buf), []) && Taken(env, Slot(c, buf)) == []
    ensures TookFrom(env, c, fs, buf, more)
  {
    hide Process;
    hide Taken;
    hide EncodeFrame;
    assert fs[..0] == [] && fs[0..] == fs;
  }

  lemma TookLast(env: Env, c: Core, fs: seq<Frame>, buf: seq<Byte>, more: seq<Byte>)
    requires IsDigest(env.sha3) && AllWellFormed(fs) && fs != []
    requires var o := Dispatch(env, c, fs[0]);
             && Process(env, Slot(c, buf)) == Run(Slot(o.core, []), o.log) && Taken(env, Slot(c, buf)) == [fs[0]]
             && CoreInv(o.core) && o.core.st == Idle
    ensures TookFrom(env, c, fs, buf, more)
  {
    hide Process;
    hide Taken;
    hide Dispatch;
    assert fs[..1] == [fs[0]] && fs[1..][..0] == [];
    FirstOf(env, c, fs, 1);
    assert Dispatch(env, c, fs[0]).log + [] == Dispatch(env, c, fs[0]).log;
  }

  lemma TookOneMore(env: Env, c: Core, fs: seq<Frame>, buf: seq<Byte>, more: seq<Byte>)
    requires IsDigest(env.sha3) && AllWellFormed(fs) && Alive(c) && fs != [] && !Held(c, fs[0])
    requires |EncodeFrame(fs[0])| <= |buf| && buf == EncodeFrame(fs[0]) + buf[|EncodeFrame(fs[0])|..]
    requires var o := Dispatch(env, c, fs[0]);
             !o.reset && TookFrom(env, o.core, fs[1..], buf[|EncodeFrame(fs[0])|..], more)
    ensures TookFrom(env, c, fs, buf, more)
  {
    hide Dispatch;
    hide Held;
    hide EncodeFrame;
    hide Process;
    hide Taken;
    var e := EncodeFrame(fs[0]);
    var rest := buf[|e|..];
    FrameInFront(env, c, fs[0], rest);
    var o := Dispatch(env, c, fs[0]);
    var tail := Taken(env, Slot(o.core, rest));
    var taken := [fs[0]] + tail;
    assert taken[0] == fs[0] && taken[1..] == tail;
    assert fs[1..][..|tail|] == fs[1..|tail| + 1];
    assert fs[1..][|tail|..] == fs[|tail| + 1..];
    assert taken == fs[..|tail| + 1];
    var left := Process(env, Slot(c, buf)).slot.buf;
    if Process(env, Slot(c, buf)).slot.core.st != Idle {
      assert e + (EncodeFrames(tail) + left) == (e + EncodeFrames(tail)) + left;
    }
  }

  lemma ThreeLogs(a: seq<Act>, b: seq<Act>, c: seq<Act>)
    ensures a + (b + c) == (a + b) + c
  {
  }

  /** Reading a stream in two parts is reading it in one, unless the first part closes the connection. */
  lemma {:induction false} ProcessSplit(env: Env, c: Core, fs: seq<Frame>, x: seq<Byte>, y: seq<Byte>)
    requires IsDigest(env.sha3) && AllWellFormed(fs) && Alive(c) && x + y <= EncodeFrames(fs)
    ensures var first := Process(env, Slot(c, x));
            var second := Process(env, Slot(first.slot.core, first.slot.buf + y));
            Process(env, Slot(c, x + y)) ==
            if first.slot.core.st == Idle then first else Run(second.slot, first.log + second.log)
    decreases |x|
  {
    hide Dispatch;
    hide Held;
    hide EncodeFrame;
    hide Process;
    hide CoreInv;
    assert x == (x + y)[..|x|];
    if fs == [] {
      assert x + y == [] && x == [];
      NothingToProcess(env, c);
    } else {
      var e := EncodeFrame(fs[0]);
      var whole := SplitPrefix(e, EncodeFrames(fs[1..]), x);
      if !whole {
        PartInFront(env, c, fs[0], x);
      } else {
        var x1 := x[|e|..];
        assert x + y == e + (x1 + y);
        FrameInFront(env, c, fs[0], x1);
        FrameInFront(env, c, fs[0], x1 + y);
        var o := Dispatch(env, c, fs[0]);
        if !Held(c, fs[0]) && !o.reset {
          PrefixDrop(e, x1 + y, EncodeFrames(fs[1..]), x + y, EncodeFrames(fs));
          ProcessSplit(env, o.core, fs[1..], x1, y);
          var first := Process(env, Slot(o.core, x1));
          var second := Process(env, Slot(first.slot.core, first.slot.buf + y));
          ThreeLogs(o.log, first.log, second.log);
        }
      }
    }
  }

  /** Reads go on while the connection lasts. */
  function FeedLive(env: Env, s: Slot, pieces: seq<seq<Byte>>): (r: Run)
    requires IsDigest(env.sha3)
    decreases |pieces|
  {
    if pieces == [] || !s.core.connected then Run(s, [])
    else
      var first := React(env, s, Receive(pieces[0]));
      var rest := FeedLive(env, first.slot, pieces[1..]);
      Run(rest.slot, first.log + rest.log)
  }

  /** The loop has nothing to do here. */
  ghost predicate Settled(env: Env, s: Slot)
    requires IsDigest(env.sha3)
  {
    Process(env, s) == Run(s, [])
  }

  /** The cuts do not matter: for every list of well-formed frames, feeding any beginning of its encoding in any pieces
      while the connection lasts is one read of the whole. */
  lemma {:induction false} CutsDoNotMatter(env: Env, c: Core, held: seq<Byte>, fs: seq<Frame>, pieces: seq<seq<Byte>>)
    requires IsDigest(env.sha3) && AllWellFormed(fs) && Alive(c) && held + Concat(pieces) <= EncodeFrames(fs)
    requires Settled(env, Slot(c, held))
    ensures FeedLive(env, Slot(c, held), pieces) == Process(env, Slot(c, held + Concat(pieces)))
    decreases |pieces|
  {
    hide Process;
    hide EncodeFrame;
    if pieces == [] {
      assert held + Concat(pieces) == held;
    } else {
      var now, rest := held + pieces[0], Concat(pieces[1..]);
      assert now + rest == held + Concat(pieces);
      ProcessSplit(env, c, fs, now, rest);
      ProcessTakes(env, c, fs, now, rest);
      var first := Process(env, Slot(c, now));
      var k := |Taken(env, Slot(c, now))|;
      if first.slot.core.st == Idle {
        StopsWhenIdle(env, first.slot, pieces[1..]);
        assert first.log + [] == first.log;
      } else {
        SettledAfter(env, c, fs, now);
        CutsDoNotMatter(env, first.slot.core, first.slot.buf, fs[k..], pieces[1..]);
      }
    }
  }

  lemma StopsWhenIdle(env: Env, s: Slot, pieces: seq<seq<Byte>>)
    requires IsDigest(env.sha3) && CoreInv(s.core) && s.core.st == Idle
    ensures FeedLive(env, s, pieces) == Run(s, [])
  {
  }

  lemma SettledAfter(env: Env, c: Core, fs: seq<Frame>, buf: seq<Byte>)
    requires IsDigest(env.sha3) && AllWellFormed(fs) && Alive(c) && buf <= EncodeFrames(fs)
    requires Process(env, Slot(c, buf)).slot.core.st != Idle
    ensures Settled(env, Process(env, Slot(c, buf)).slot)
  {
    hide Process;
    hide EncodeFrame;
    assert buf + [] == buf;
    ProcessSplit(env, c, fs, buf, []);
    var first := Process(env, Slot(c, buf));
    assert first.slot.buf + [] == first.slot.buf;
    assert Slot(first.slot.core, first.slot.buf + []) == first.slot;
    var second := Process(env, first.slot);
    assert |first.log| == |first.log + second.log|;
  }

  /** Reassembly: for every list of well-formed frames and every way of cutting its encoding into reads, the reads so
      far make up m whole frames and a strict prefix of the next; of the m, exactly those up to the first held or
      closing one have been dispatched, in order; the rest and the prefix are in the buffer, unless the connection was
      closed. */
  lemma Reassembly(env: Env, c: Core, fs: seq<Frame>, pieces: seq<seq<Byte>>) returns (m: nat, part: seq<Byte>)
    requires IsDigest(env.sha3) && AllWellFormed(fs) && Alive(c) && Concat(pieces) <= EncodeFrames(fs)
    ensures m <= |fs| && Concat(pieces) == EncodeFrames(fs[..m]) + part
    ensures if m == |fs| then part == [] else part < EncodeFrame(fs[m])
    ensures UpToStop(env, c, fs[..m], part, FeedLive(env, Slot(c, []), pieces))
  {
    hide Process;
    hide EncodeFrame;
    hide UpToStop;
    NothingToProcess(env, c);
    assert [] + Concat(pieces) == Concat(pieces);
    CutsDoNotMatter(env, c, [], fs, pieces);
    m, part := CutPoint(fs, Concat(pieces));
    assert Partial(part);
    ProcessWhole(env, c, fs[..m], part);
  }

  // ----- room in the buffer -----

  /** The loop leaves the buffer full only when it was full and its front frame is held back. */
  lemma {:induction false} FullOnlyWhenHeld(env: Env, s: Slot)
    requires IsDigest(env.sha3) && SlotInv(s)
    ensures |Process(env, s).slot.buf| == BUF_CAPACITY <==>
              |s.buf| == BUF_CAPACITY && ParseFront(s.buf).Complete? && Held(s.core, ParseFront(s.buf).frame)
    decreases |s.buf|
  {
    var front := ParseFront(s.buf);
    if front.Complete? && !Held(s.core, front.frame) {
      PhaseOfCoupled(s.core);
      DispatchSimulates(env, s.core, PhaseOf(s.core), front.frame);
      var o := Dispatch(env, s.core, front.frame);
      if o.flow == Continue {
        FullOnlyWhenHeld(env, Slot(o.core, if o.reset then [] else front.rest));
      }
    }
  }

  /** With a session the buffer always has room after processing. */
  lemma RoomInSession(env: Env, s: Slot)
    requires IsDigest(env.sha3) && SlotInv(s) && s.core.session.Some?
    ensures |Process(env, s).slot.buf| < BUF_CAPACITY
  {
    FullOnlyWhenHeld(env, s);
    PhaseOfCoupled(s.core);
    ProcessSimulates(env, s, PhaseOf(s.core));
  }

  /** The full-buffer branch of the event loop closes the connection in every case, although its
      comment speaks of a buffer that is still full: it is still full exactly when the front frame is
      held back. */
  lemma FullBufferAlwaysCloses(env: Env, s: Slot)
    requires IsDigest(env.sha3) && SlotInv(s) && Enabled(s, BufferFull)
    ensures React(env, s, BufferFull).slot.core.st == Idle
    ensures |Process(env, s).slot.buf| == BUF_CAPACITY <==>
              ParseFront(s.buf).Complete? && Held(s.core, ParseFront(s.buf).frame)
  {
    PhaseOfCoupled(s.core);
    ProcessSimulates(env, s, PhaseOf(s.core));
    FullOnlyWhenHeld(env, s);
  }

  // ----- the loop over the receive array -----

  /** What a loop that has logged `acts` and stands at s still owes. */
  ghost function Owed(env: Env, s: Slot, acts: seq<Act>): (r: Run)
    requires IsDigest(env.sha3)
  {
    Run(Process(env, s).slot, acts + Process(env, s).log)
  }

  lemma OwedAfterFrame(env: Env, s: Slot, acts: seq<Act>)
    requires IsDigest(env.sha3) && ParseFront(s.buf).Complete? && !Held(s.core, ParseFront(s.buf).frame)
    ensures var o := Dispatch(env, s.core, ParseFront(s.buf).frame);
            var s' := Slot(o.core, if o.reset then [] else ParseFront(s.buf).rest);
            Owed(env, s, acts) == if o.flow == Break then Run(s', acts + o.log) else Owed(env, s', acts + o.log)
  {
    hide Dispatch;
    var o := Dispatch(env, s.core, ParseFront(s.buf).frame);
    var s' := Slot(o.core, if o.reset then [] else ParseFront(s.buf).rest);
    assert acts + (o.log + Process(env, s').log) == (acts + o.log) + Process(env, s').log;
  }

  lemma OwedAtStop(env: Env, s: Slot, acts: seq<Act>)
    requires IsDigest(env.sha3)
    requires ParseFront(s.buf).Complete? ==> Held(s.core, ParseFront(s.buf).frame)
    ensures Owed(env, s, acts) == Run(if ParseFront(s.buf).Malformed? then s.(buf := []) else s, acts)
  {
    hide Dispatch;
    assert acts + [] == acts;
  }

  class PeerSession {
    const recvBuf: array<Byte>
    var recvPos: nat
    var core: Core
    ghost var log: seq<Act>

    ghost predicate Valid()
      reads this
    {
      recvBuf.Length == BUF_CAPACITY && recvPos <= recvBuf.Length
    }

    ghost function Value(): (s: Slot)
      requires Valid()
      reads this, recvBuf
    {
      Slot(core, recvBuf[..recvPos])
    }

    constructor (c: Core)
      ensures Valid() && Value() == Slot(c, []) && log == [] && fresh(recvBuf)
    {
      recvBuf := new Byte[BUF_CAPACITY](_ => 0);
      recvPos, core, log := 0, c, [];
    }

    /** Take the first `total` bytes off the buffer (memmove). */
    method Consume(total: nat)
      requires Valid() && total <= recvPos
      modifies this`recvPos, recvBuf
      ensures Valid() && recvBuf[..recvPos] == old(recvBuf[total..recvPos])
    {
      var remaining := recvPos - total;
      forall i | 0 <= i < remaining { recvBuf[i] := recvBuf[total + i]; }
      recvPos := remaining;
    }

    /** recv() of bytes that fit. */
    method Append(data: seq<Byte>)
      requires Valid() && recvPos + |data| <= BUF_CAPACITY
      modifies this`recvPos, recvBuf
      ensures Valid() && recvBuf[..recvPos] == old(recvBuf[..recvPos]) + data
    {
      forall i | 0 <= i < |data| { recvBuf[recvPos + i] := data[i]; }
      recvPos := recvPos + |data|;
    }

    /** The frame at the front, if the loop can take it. */
    method TakeFrame() returns (r: Front)
      requires Valid()
      modifies this`recvPos, recvBuf
      ensures Valid()
      ensures r == ParseFront(old(recvBuf[..recvPos])) || r.Incomplete?
      ensures r.Incomplete? ==>
                && recvBuf[..recvPos] == old(recvBuf[..recvPos])
                && var front := ParseFront(recvBuf[..recvPos]);
                   front.Incomplete? || (front.Complete? && Held(core, front.frame))
      ensures r.Malformed? ==> recvPos == 0
      ensures r.Complete? ==> recvBuf[..recvPos] == r.rest && !Held(core, r.frame)
    {
      if recvPos < HEADER_SIZE { return Incomplete; }
      var h := DecodeHeader(recvBuf[..recvPos]);
      if h.None? || h.value.len == 0 || h.value.len > MAX_PAYLOAD {
        recvPos := 0;
        return Malformed;
      }
      var total := HEADER_SIZE + h.value.len;
      if recvPos < total { return Incomplete; }
      var buf := recvBuf[..recvPos];
      var payload := buf[HEADER_SIZE..total];
      var f := Frame(h.value.typ, h.value.seqNo, payload);
      if Held(core, f) { return Incomplete; }
      var rest := buf[total..];
      Consume(total);
      return Complete(f, rest);
    }

    /** process_peer_frames */
    method ProcessPeerFrames(env: Env)
      requires Valid() && IsDigest(env.sha3)
      modifies this, recvBuf
      ensures Valid()
      ensures Value() == Process(env, old(Value())).slot
      ensures log == old(log) + Process(env, old(Value())).log
    {
      hide Dispatch;
      hide Process;
      hide ParseFront;
      ghost var whole := Owed(env, Value(), []);
      ghost var acts: seq<Act> := [];
      var go := true;
      while go
        invariant Valid()
        invariant log == old(log) + acts
        invariant whole == if go then Owed(env, Value(), acts) else Run(Value(), acts)
        decreases go, recvPos
      {
        ghost var before := Value();
        var front := TakeFrame();
        match front {
          case Incomplete =>
            OwedAtStop(env, before, acts);
            go := false;
          case Malformed =>
            OwedAtStop(env, before, acts);
            assert recvBuf[..recvPos] == [];
            go := false;
          case Complete(f, rest) =>
            OwedAfterFrame(env, before, acts);
            var o := Dispatch(env, core, f);
            core := o.core;
            if o.reset { recvPos := 0; }
            assert recvBuf[..recvPos] == if o.reset then [] else rest;
            assert old(log) + (acts + o.log) == (old(log) + acts) + o.log;
            log := log + o.log;
            acts := acts + o.log;
            if o.flow == Break { go := false; }
        }
      }
    }

    /** The receive step of the event loop for bytes that fit. */
    method OnReadable(env: Env, data: seq<Byte>)
      requires Valid() && IsDigest(env.sha3) && Enabled(Value(), Receive(data))
      modifies this, recvBuf
      ensures Valid()
      ensures Value() == React(env, old(Value()), Receive(data)).slot
      ensures log == old(log) + React(env, old(Value()), Receive(data)).log
    {
      Append(data);
      ProcessPeerFrames(env);
    }
  }
}
