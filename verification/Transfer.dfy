/**
 End to end: the bytes a sender puts on the wire under any schedule of reads and writes, cut anywhere
 on the way, fed to a receiving slot (src/file_transfer.c:278-466, 553-757 with
 src/event_loop.c:111-155, 462-528).
 */
module Transfer {
  import opened Bytes
  import opened Frames
  import opened Onion
  import opened FileName
  import opened Receiver
  import opened Peer
  import opened PeerTrace
  import opened PeerStream
  import opened Sender

  // ----- the receiver on a list of plaintexts -----

  datatype Rest = Rest(rx: Rx, disk: Disk, notes: seq<Note>)

  /** RxStep on each plaintext in turn; answers(k) is what the system says while the k-th is handled. */
  function RxAll(h: HashFn, rx: Rx, disk: Disk, plains: seq<seq<Byte>>, answers: nat -> Answers, k: nat): (r: Rest)
    decreases |plains|
  {
    if plains == [] then Rest(rx, disk, [])
    else
      var s := RxStep(h, rx, disk, Some(plains[0]), answers(k));
      var r := RxAll(h, s.rx, s.disk, plains[1..], answers, k + 1);
      Rest(r.rx, r.disk, [s.note] + r.notes)
  }

  lemma {:induction false} RxAllAppend(h: HashFn, rx: Rx, disk: Disk, a: seq<seq<Byte>>, b: seq<seq<Byte>>, answers: nat -> Answers, k: nat)
    ensures var r := RxAll(h, rx, disk, a, answers, k);
            var r' := RxAll(h, r.rx, r.disk, b, answers, k + |a|);
            RxAll(h, rx, disk, a + b, answers, k) == Rest(r'.rx, r'.disk, r.notes + r'.notes)
    decreases |a|
  {
    hide RxStep;
    if a == [] {
      assert a + b == b;
    } else {
      assert (a + b)[0] == a[0] && (a + b)[1..] == a[1..] + b;
      var s := RxStep(h, rx, disk, Some(a[0]), answers(k));
      RxAllAppend(h, s.rx, s.disk, a[1..], b, answers, k + 1);
      var r1 := RxAll(h, s.rx, s.disk, a[1..], answers, k + 1);
      assert k + 1 + |a[1..]| == k + |a|;
      var r2 := RxAll(h, r1.rx, r1.disk, b, answers, k + |a|);
      assert [s.note] + (r1.notes + r2.notes) == ([s.note] + r1.notes) + r2.notes;
    }
  }

  ghost predicate NoneShaped(plains: seq<seq<Byte>>) {
    forall i :: 0 <= i < |plains| ==> !MetadataShaped(plains[i])
  }

  // ----- a transfer in progress -----

  /** r is rx after `got` more bytes that do not complete the file. */
  ghost predicate InProgress(rx: Rx, disk: Disk, got: seq<Byte>, r: Rest)
    requires rx.localName in disk
  {
    && r.rx.active && r.rx.localName == rx.localName && r.rx.expectedSize == rx.expectedSize
    && r.rx.expectedHash == rx.expectedHash && r.rx.received == rx.received + |got|
    && r.rx.hashed == rx.hashed + got && r.disk == disk[rx.localName := disk[rx.localName] + got]
  }

  ghost predicate Willing(answers: nat -> Answers, k: nat, n: nat) {
    forall i :: k <= i < k + n ==> answers(i).writeOk && answers(i).hashOk
  }

  /** An active receiver that is given further pieces, fewer bytes than it still expects, stays active
      and counts, stores and hashes them all. */
  lemma {:induction false} PiecesInProgress(h: HashFn, rx: Rx, disk: Disk, plains: seq<seq<Byte>>, answers: nat -> Answers, k: nat)
    requires RxInv(rx, disk) && rx.active && Fits(plains) && NoneShaped(plains) && Willing(answers, k, |plains|)
    requires rx.received + |Concat(plains)| < rx.expectedSize
    ensures InProgress(rx, disk, Concat(plains), RxAll(h, rx, disk, plains, answers, k))
    decreases |plains|
  {
    hide StartRx;
    if plains == [] {
      assert disk[rx.localName] + Concat(plains) == disk[rx.localName];
      assert rx.hashed + Concat(plains) == rx.hashed;
    } else {
      var p := plains[0];
      var s := RxStep(h, rx, disk, Some(p), answers(k));
      assert s.rx.hashed == rx.hashed + p;
      assert s.disk == disk[rx.localName := disk[rx.localName] + p];
      ChunkKeepsInv(h, rx, disk, p, answers(k));
      PiecesInProgress(h, s.rx, s.disk, plains[1..], answers, k + 1);
      Regrouped(rx.hashed, disk[rx.localName], p, Concat(plains[1..]));
    }
  }

  lemma Regrouped(a: seq<Byte>, b: seq<Byte>, p: seq<Byte>, q: seq<Byte>)
    ensures (a + p) + q == a + (p + q) && (b + p) + q == b + (p + q)
  {
  }

  /** The pieces that make up exactly what is expected, with the announced hash, end the transfer and the
      file is kept. */
  lemma {:induction false} PiecesComplete(h: HashFn, rx: Rx, disk: Disk, plains: seq<seq<Byte>>, answers: nat -> Answers, k: nat)
    requires RxInv(rx, disk) && rx.active && Fits(plains) && NoneShaped(plains) && plains != [] && Willing(answers, k, |plains|)
    requires rx.received + |Concat(plains)| == rx.expectedSize
    requires h(rx.hashed + Concat(plains)) == rx.expectedHash
    ensures Completed(rx, disk, Concat(plains), RxAll(h, rx, disk, plains, answers, k))
  {
    hide RxStep;
    hide RxAll;
    hide InProgress;
    hide Completed;
    var n := |plains| - 1;
    var init, last := plains[..n], plains[n];
    assert plains == init + [last];
    ConcatAppend(init, [last]);
    ConcatOne(last);
    PiecesInProgress(h, rx, disk, init, answers, k);
    RxAllAppend(h, rx, disk, init, [last], answers, k);
    var mid := RxAll(h, rx, disk, init, answers, k);
    RxAllOne(h, mid.rx, mid.disk, last, answers, k + n);
    LastPiece(h, rx, disk, Concat(init), mid, last, answers(k + n));
  }

  ghost predicate Completed(rx: Rx, disk: Disk, got: seq<Byte>, r: Rest)
    requires rx.localName in disk
  {
    var content := disk[rx.localName] + got;
    && r.rx == BLANK && r.disk == disk[rx.localName := content]
    && r.notes != [] && r.notes[|r.notes| - 1] == Kept(rx.localName, content, rx.expectedSize, rx.expectedHash)
  }

  lemma RxAllOne(h: HashFn, rx: Rx, disk: Disk, p: seq<Byte>, answers: nat -> Answers, k: nat)
    ensures var s := RxStep(h, rx, disk, Some(p), answers(k)); RxAll(h, rx, disk, [p], answers, k) == Rest(s.rx, s.disk, [s.note])
  {
    hide RxStep;
    assert [p][1..] == [];
  }

  lemma LastPiece(h: HashFn, rx: Rx, disk: Disk, got: seq<Byte>, mid: Rest, last: seq<Byte>, a: Answers)
    requires rx.localName in disk && InProgress(rx, disk, got, mid)
    requires !MetadataShaped(last) && |last| > 0 && a.writeOk && a.hashOk
    requires rx.received + |got + last| == rx.expectedSize && h(rx.hashed + (got + last)) == rx.expectedHash
    ensures var s := RxStep(h, mid.rx, mid.disk, Some(last), a);
            Completed(rx, disk, got + last, Rest(s.rx, s.disk, mid.notes + [s.note]))
  {
    hide StartRx;
    Regrouped(rx.hashed, disk[rx.localName], got, last);
  }

  // ----- why nothing else can be kept -----

  /** Every file kept is shorter than the bound. */
  ghost predicate KeptBelow(notes: seq<Note>, bound: int) {
    forall i :: 0 <= i < |notes| && notes[i].Kept? ==> |notes[i].content| < bound
  }

  lemma KeptBelowCons(note: Note, notes: seq<Note>, bound: int, bound': int)
    requires KeptBelow(notes, bound) && bound <= bound' && (note.Kept? ==> |note.content| < bound')
    ensures KeptBelow([note] + notes, bound')
  {
  }

  /** However the system answers, a file that is kept holds no more bytes than have arrived for it. */
  lemma {:induction false} KeptAtMost(h: HashFn, rx: Rx, disk: Disk, plains: seq<seq<Byte>>, answers: nat -> Answers, k: nat)
    requires RxInv(rx, disk)
    ensures KeptBelow(RxAll(h, rx, disk, plains, answers, k).notes, (if rx.active then rx.received else 0) + |Concat(plains)| + 1)
    decreases |plains|
  {
    hide RxStep;
    hide RxInv;
    hide KeptBelow;
    if plains == [] {
      NothingKept();
    } else {
      var s := RxStep(h, rx, disk, Some(plains[0]), answers(k));
      StepCounts(h, rx, disk, plains[0], answers(k));
      KeptAtMost(h, s.rx, s.disk, plains[1..], answers, k + 1);
      KeptBelowCons(s.note, RxAll(h, s.rx, s.disk, plains[1..], answers, k + 1).notes,
                    (if s.rx.active then s.rx.received else 0) + |Concat(plains[1..])| + 1,
                    (if rx.active then rx.received else 0) + |Concat(plains)| + 1);
    }
  }

  lemma NothingKept()
    ensures forall bound :: KeptBelow([], bound)
  {
  }

  lemma StepCounts(h: HashFn, rx: Rx, disk: Disk, p: seq<Byte>, a: Answers)
    requires RxInv(rx, disk)
    ensures var s := RxStep(h, rx, disk, Some(p), a);
            && RxInv(s.rx, s.disk)
            && (s.rx.active ==> s.rx.received <= (if rx.active then rx.received + |p| else 0))
            && (s.note.Kept? ==> rx.active && |s.note.content| <= rx.received + |p|)
            && (!rx.active && s.rx.active ==> |p| == METADATA_LEN)
  {
    hide Sanitize;
    hide OpenName;
    assert RxStep(h, rx, disk, Some(p), a) == Apply(h, rx, disk, Deliver(Some(p), a));
    ApplyKeepsInv(h, rx, disk, Deliver(Some(p), a));
  }

  /** A receiver that is not in a transfer never keeps as much as arrives: the piece that announces a
      file is not part of it. */
  lemma {:induction false} KeptLessWhenIdle(h: HashFn, rx: Rx, disk: Disk, plains: seq<seq<Byte>>, answers: nat -> Answers, k: nat)
    requires RxInv(rx, disk) && !rx.active
    ensures KeptBelow(RxAll(h, rx, disk, plains, answers, k).notes, |Concat(plains)|)
    decreases |plains|
  {
    hide RxStep;
    hide RxInv;
    hide KeptBelow;
    if plains == [] {
      NothingKept();
    } else {
      var s := RxStep(h, rx, disk, Some(plains[0]), answers(k));
      StepCounts(h, rx, disk, plains[0], answers(k));
      var rest := RxAll(h, s.rx, s.disk, plains[1..], answers, k + 1).notes;
      if s.rx.active {
        KeptAtMost(h, s.rx, s.disk, plains[1..], answers, k + 1);
        KeptBelowCons(s.note, rest, |Concat(plains[1..])| + 1, |Concat(plains)|);
      } else {
        KeptLessWhenIdle(h, s.rx, s.disk, plains[1..], answers, k + 1);
        KeptBelowCons(s.note, rest, |Concat(plains[1..])|, |Concat(plains)|);
      }
    }
  }

  /** A piece shaped like METADATA in the middle of a transfer ruins it: nothing kept afterwards is as
      long as the announced file. */
  lemma {:induction false} KeptLessWhenShaped(h: HashFn, rx: Rx, disk: Disk, plains: seq<seq<Byte>>, answers: nat -> Answers, k: nat)
    requires RxInv(rx, disk) && rx.active && !NoneShaped(plains) && rx.received + |Concat(plains)| <= rx.expectedSize
    ensures KeptBelow(RxAll(h, rx, disk, plains, answers, k).notes, rx.received + |Concat(plains)|)
    decreases |plains|
  {
    hide RxStep;
    hide RxInv;
    hide KeptBelow;
    var p, rest := plains[0], plains[1..];
    var s := RxStep(h, rx, disk, Some(p), answers(k));
    var notes := RxAll(h, s.rx, s.disk, rest, answers, k + 1).notes;
    StepCounts(h, rx, disk, p, answers(k));
    if MetadataShaped(p) {
      ShapedAborts(h, rx, disk, p, answers(k));
      KeptLessWhenIdle(h, s.rx, s.disk, rest, answers, k + 1);
      KeptBelowCons(s.note, notes, |Concat(rest)|, rx.received + |Concat(plains)|);
    } else {
      var j :| 0 <= j < |plains| && MetadataShaped(plains[j]);
      assert rest[j - 1] == plains[j];
      LengthOf(rest, j - 1);
      ShortChunk(h, rx, disk, p, answers(k));
      if s.rx.active {
        KeptLessWhenShaped(h, s.rx, s.disk, rest, answers, k + 1);
        KeptBelowCons(s.note, notes, s.rx.received + |Concat(rest)|, rx.received + |Concat(plains)|);
      } else {
        KeptLessWhenIdle(h, s.rx, s.disk, rest, answers, k + 1);
        KeptBelowCons(s.note, notes, |Concat(rest)|, rx.received + |Concat(plains)|);
      }
    }
  }

  lemma ShapedAborts(h: HashFn, rx: Rx, disk: Disk, p: seq<Byte>, a: Answers)
    requires rx.active && MetadataShaped(p)
    ensures RxStep(h, rx, disk, Some(p), a) == Step(BLANK, Unlink(disk, rx.localName), Dropped)
  {
  }

  lemma {:induction false} LengthOf(plains: seq<seq<Byte>>, j: nat)
    requires j < |plains|
    ensures |plains[j]| <= |Concat(plains)|
  {
    if j > 0 { LengthOf(plains[1..], j - 1); }
  }

  /** A piece shorter than what is expected either adds to the transfer or ends it without a file. */
  lemma ShortChunk(h: HashFn, rx: Rx, disk: Disk, p: seq<Byte>, a: Answers)
    requires RxInv(rx, disk) && rx.active && !MetadataShaped(p) && rx.received + |p| < rx.expectedSize
    ensures var s := RxStep(h, rx, disk, Some(p), a);
            && !s.note.Kept?
            && (s.rx.active ==> s.rx.received == rx.received + |p| && s.rx.expectedSize == rx.expectedSize)
  {
    hide StartRx;
  }

  // ----- the receiving slot on the sender's frames -----

  /** The slot can decrypt what the sender seals. */
  ghost predicate Opens(env: Env, id: nat, seal: Seal) {
    forall n, pt :: env.decrypt(id, n, seal(n, pt)) == Some(pt)
  }

  /** Session, counters and file state of a slot that stands at this point of the channel. */
  ghost predicate AtPoint(c: Core, id: nat, seqNo: nat, nonce: nat) {
    c.session == Some(Session(id, nonce)) && c.rxSeq == seqNo % TWO32
  }

  lemma FileDispatch(env: Env, c: Core, seal: Seal, id: nat, seqNo: nat, nonce: nat, plain: seq<Byte>)
    requires IsDigest(env.sha3) && IsSeal(seal) && Opens(env, id, seal) && AtPoint(c, id, seqNo, nonce)
    requires 1 <= |plain| <= CHUNK_SIZE
    ensures var f := FileFrame(seal, seqNo % TWO32, nonce, plain);
            var o := Dispatch(env, c, f);
            var s := RxStep(env.hash, c.rx, c.disk, Some(plain), env.world(c.clock).answers);
            && !Held(c, f) && !o.reset && o.flow == Continue
            && o.core.rx == s.rx && o.core.disk == s.disk && o.core.clock == c.clock + 1
            && AtPoint(o.core, id, seqNo + 1, nonce + 1)
            && o.log == [FileHandled(seqNo % TWO32, Some(plain), s.note)]
  {
    hide RxStep;
    NextSeq(seqNo);
    var f := FileFrame(seal, seqNo % TWO32, nonce, plain);
    assert f.payload == seal(nonce, plain) && |f.payload| == |plain| + MAC_LEN;
    assert env.decrypt(id, nonce, f.payload) == Some(plain);
  }

  /** What the log shows for a list of plaintexts. */
  function FileLog(seqNo: nat, plains: seq<seq<Byte>>, notes: seq<Note>): (log: seq<Act>)
    requires |plains| == |notes|
    decreases |plains|
  {
    if plains == [] then []
    else [FileHandled(seqNo % TWO32, Some(plains[0]), notes[0])] + FileLog(seqNo + 1, plains[1..], notes[1..])
  }

  lemma {:induction false} RxAllLength(h: HashFn, rx: Rx, disk: Disk, plains: seq<seq<Byte>>, answers: nat -> Answers, k: nat)
    ensures |RxAll(h, rx, disk, plains, answers, k).notes| == |plains|
    decreases |plains|
  {
    if plains != [] {
      var s := RxStep(h, rx, disk, Some(plains[0]), answers(k));
      RxAllLength(h, s.rx, s.disk, plains[1..], answers, k + 1);
    }
  }

  function AnswersOf(env: Env): (a: nat -> Answers) {
    (k: nat) => env.world(k).answers
  }

  /** The sender's frames flow through the slot and do to its file state what the plaintexts do. */
  lemma {:induction false} FilesFlow(env: Env, c: Core, seal: Seal, id: nat, seqNo: nat, nonce: nat, plains: seq<seq<Byte>>)
    requires IsDigest(env.sha3) && IsSeal(seal) && Opens(env, id, seal) && AtPoint(c, id, seqNo, nonce) && Fits(plains)
    ensures var fs := FileFrames(seal, plains, seqNo, nonce);
            var r := RxAll(env.hash, c.rx, c.disk, plains, AnswersOf(env), c.clock);
            var o := DispatchAll(env, c, fs);
            && Flows(env, c, fs) && o.core.rx == r.rx && o.core.disk == r.disk && o.core.clock == c.clock + |plains|
            && |r.notes| == |plains| && o.log == FileLog(seqNo, plains, r.notes)
    decreases |plains|
  {
    hide Dispatch;
    hide RxStep;
    var fs := FileFrames(seal, plains, seqNo, nonce);
    if plains != [] {
      FileDispatch(env, c, seal, id, seqNo, nonce, plains[0]);
      var o := Dispatch(env, c, fs[0]);
      assert fs[1..] == FileFrames(seal, plains[1..], seqNo + 1, nonce + 1);
      FilesFlow(env, o.core, seal, id, seqNo + 1, nonce + 1, plains[1..]);
      RxAllLength(env.hash, c.rx, c.disk, plains, AnswersOf(env), c.clock);
    }
  }

  // ----- end to end -----

  /** The system never fails a call, there is room for the file, and its name can be created. */
  ghost predicate Cooperative(env: Env, c: Core, size: nat, name: seq<Byte>) {
    && (forall k: nat :: var a := env.world(k).answers;
          a.statOk && a.dirOk && a.openOk && a.writeOk && a.hashOk && a.avail >= size + size / 10)
    && OpenName(c.disk, Sanitize(name, 256, env.world(c.clock).answers.nameRnd), env.world(c.clock).answers).Some?
  }

  function LocalFile(env: Env, c: Core, name: seq<Byte>): (n: seq<Byte>)
    requires OpenName(c.disk, Sanitize(name, 256, env.world(c.clock).answers.nameRnd), env.world(c.clock).answers).Some?
  {
    OpenName(c.disk, Sanitize(name, 256, env.world(c.clock).answers.nameRnd), env.world(c.clock).answers).value
  }

  /** A file as the sender announces it. */
  ghost predicate Announced(h: HashFn, file: seq<Byte>, name: seq<Byte>, hash: seq<Byte>) {
    && 0 < |file| <= MAX_FILE_SIZE && |name| <= 255 && (forall i :: 0 <= i < |name| ==> name[i] != 0)
    && hash == h(BigEndian(8, |file|) + file) && |hash| == 32
  }

  lemma StartAccepted(env: Env, c: Core, file: seq<Byte>, name: seq<Byte>, hash: seq<Byte>)
    requires Announced(env.hash, file, name, hash) && !AllZero(hash) && !c.rx.active && Cooperative(env, c, |file|, name)
    ensures var a := env.world(c.clock).answers;
            var local := LocalFile(env, c, name);
            var s := RxStep(env.hash, c.rx, c.disk, Some(Metadata(name, |file|, hash)), a);
            && s == Step(Rx(true, local, |file|, 0, hash, BigEndian(8, |file|), a.now), c.disk[local := []], Started(local))
            && RxInv(s.rx, s.disk)
  {
    hide Sanitize;
    hide OpenName;
    hide Metadata;
    MetadataRoundTrip(name, |file|, hash);
    var a := env.world(c.clock).answers;
    assert a.statOk && a.hashOk && a.avail >= |file| + |file| / 10;
    StartedBy(env.hash, c.rx, c.disk, Metadata(name, |file|, hash), a);
  }

  /** METADATA that passes every check starts a transfer of an empty file. */
  lemma StartedBy(h: HashFn, rx: Rx, disk: Disk, p: seq<Byte>, a: Answers)
    requires MetadataShaped(p) && !rx.active && 0 < SizeField(p) <= MAX_FILE_SIZE && !AllZero(HashField(p))
    requires a.statOk && a.hashOk && a.avail >= SizeField(p) + SizeField(p) / 10
    requires OpenName(disk, Sanitize(NameField(p), 256, a.nameRnd), a).Some?
    ensures var local := OpenName(disk, Sanitize(NameField(p), 256, a.nameRnd), a).value;
            var s := RxStep(h, rx, disk, Some(p), a);
            && s == Step(Rx(true, local, SizeField(p), 0, HashField(p), BigEndian(8, SizeField(p)), a.now),
                         disk[local := []], Started(local))
            && RxInv(s.rx, s.disk)
  {
    hide Sanitize;
    hide OpenName;
    hide NameField;
    hide SizeField;
    hide BigEndian;
    assert BigEndian(8, SizeField(p)) + [] == BigEndian(8, SizeField(p));
  }

  lemma StartRefused(env: Env, c: Core, file: seq<Byte>, name: seq<Byte>, hash: seq<Byte>)
    requires Announced(env.hash, file, name, hash) && AllZero(hash) && !c.rx.active
    ensures var s := RxStep(env.hash, c.rx, c.disk, Some(Metadata(name, |file|, hash)), env.world(c.clock).answers);
            s == Step(c.rx, c.disk, Refused)
  {
    MetadataRoundTrip(name, |file|, hash);
  }

  /** The receiver after METADATA and part of the file. */
  lemma AfterPart(env: Env, c: Core, file: seq<Byte>, name: seq<Byte>, hash: seq<Byte>, pieces: seq<seq<Byte>>)
    requires Announced(env.hash, file, name, hash) && !AllZero(hash) && !c.rx.active && Cooperative(env, c, |file|, name)
    requires Fits(pieces) && NoneShaped(pieces) && Concat(pieces) < file
    ensures var r := RxAll(env.hash, c.rx, c.disk, [Metadata(name, |file|, hash)] + pieces, AnswersOf(env), c.clock);
            r.rx.active && r.rx.received == |Concat(pieces)| && r.rx.expectedSize == |file|
            && r.disk == c.disk[LocalFile(env, c, name) := Concat(pieces)]
  {
    hide RxStep;
    hide RxAll;
    hide Metadata;
    StartAccepted(env, c, file, name, hash);
    var meta := Metadata(name, |file|, hash);
    MetadataFirst(env, c, meta, pieces);
    var s := RxStep(env.hash, c.rx, c.disk, Some(meta), env.world(c.clock).answers);
    PiecesInProgress(env.hash, s.rx, s.disk, pieces, AnswersOf(env), c.clock + 1);
    assert [] + Concat(pieces) == Concat(pieces);
  }

  lemma AfterWhole(env: Env, c: Core, file: seq<Byte>, name: seq<Byte>, hash: seq<Byte>, pieces: seq<seq<Byte>>)
    requires Announced(env.hash, file, name, hash) && !AllZero(hash) && !c.rx.active && Cooperative(env, c, |file|, name)
    requires Fits(pieces) && NoneShaped(pieces) && Concat(pieces) == file
    ensures var r := RxAll(env.hash, c.rx, c.disk, [Metadata(name, |file|, hash)] + pieces, AnswersOf(env), c.clock);
            var local := LocalFile(env, c, name);
            && r.rx == BLANK && r.disk == c.disk[local := file]
            && r.notes != [] && r.notes[|r.notes| - 1] == Kept(local, file, |file|, hash)
  {
    hide RxStep;
    hide RxAll;
    hide Metadata;
    StartAccepted(env, c, file, name, hash);
    var meta := Metadata(name, |file|, hash);
    MetadataFirst(env, c, meta, pieces);
    var s := RxStep(env.hash, c.rx, c.disk, Some(meta), env.world(c.clock).answers);
    assert [] + file == file;
    PiecesComplete(env.hash, s.rx, s.disk, pieces, AnswersOf(env), c.clock + 1);
  }

  /** The receiver on METADATA, then on the pieces. */
  lemma MetadataFirst(env: Env, c: Core, meta: seq<Byte>, pieces: seq<seq<Byte>>)
    ensures var s := RxStep(env.hash, c.rx, c.disk, Some(meta), env.world(c.clock).answers);
            var r := RxAll(env.hash, s.rx, s.disk, pieces, AnswersOf(env), c.clock + 1);
            RxAll(env.hash, c.rx, c.disk, [meta] + pieces, AnswersOf(env), c.clock) == Rest(r.rx, r.disk, [s.note] + r.notes)
  {
    hide RxStep;
    assert ([meta] + pieces)[0] == meta && ([meta] + pieces)[1..] == pieces;
  }

  /** If the hash is zero or a piece is shaped like METADATA, no file as long as this one is kept. */
  lemma NotKept(env: Env, c: Core, file: seq<Byte>, name: seq<Byte>, hash: seq<Byte>, pieces: seq<seq<Byte>>)
    requires Announced(env.hash, file, name, hash) && !c.rx.active && Cooperative(env, c, |file|, name)
    requires RxInv(c.rx, c.disk) && Concat(pieces) == file && (AllZero(hash) || !NoneShaped(pieces))
    ensures var plains := [Metadata(name, |file|, hash)] + pieces;
            KeptBelow(RxAll(env.hash, c.rx, c.disk, plains, AnswersOf(env), c.clock).notes, |file|)
  {
    hide RxStep;
    hide RxAll;
    hide KeptBelow;
    hide Cooperative;
    hide Metadata;
    hide BigEndian;
    var meta := Metadata(name, |file|, hash);
    MetadataFirst(env, c, meta, pieces);
    var s := RxStep(env.hash, c.rx, c.disk, Some(meta), env.world(c.clock).answers);
    if AllZero(hash) {
      StartRefused(env, c, file, name, hash);
      KeptLessWhenIdle(env.hash, s.rx, s.disk, pieces, AnswersOf(env), c.clock + 1);
    } else {
      StartAccepted(env, c, file, name, hash);
      KeptLessWhenShaped(env.hash, s.rx, s.disk, pieces, AnswersOf(env), c.clock + 1);
    }
    KeptBelowCons(s.note, RxAll(env.hash, s.rx, s.disk, pieces, AnswersOf(env), c.clock + 1).notes, |file|, |file|);
  }

  // ----- the theorem -----

  ghost predicate KeptIn(log: seq<Act>, file: seq<Byte>) {
    exists i :: 0 <= i < |log| && log[i].FileHandled? && log[i].note.Kept? && log[i].note.content == file
  }

  lemma {:induction false} FileLogAt(seqNo: nat, plains: seq<seq<Byte>>, notes: seq<Note>)
    requires |plains| == |notes|
    ensures var log := FileLog(seqNo, plains, notes);
            |log| == |notes| && forall i :: 0 <= i < |log| ==> log[i].FileHandled? && log[i].note == notes[i]
    decreases |plains|
  {
    if plains != [] { FileLogAt(seqNo + 1, plains[1..], notes[1..]); }
  }

  /** A stream of frames is cut in one place only. */
  lemma CutUnique(fs: seq<Frame>, m: nat, part: seq<Byte>, n: nat, part': seq<Byte>)
    requires AllWellFormed(fs) && m <= n <= |fs| && EncodeFrames(fs[..m]) + part == EncodeFrames(fs[..n]) + part'
    requires if m == |fs| then part == [] else part < EncodeFrame(fs[m])
    ensures m == n && part == part'
  {
    hide EncodeFrame;
    var later := fs[m..n];
    assert fs[..n] == fs[..m] + later;
    EncodeFramesAppend(fs[..m], later);
    assert |part| == |EncodeFrames(later)| + |part'|;
    assert m == n;
    var e := EncodeFrames(fs[..m]);
    assert part == (e + part)[|e|..] && part' == (e + part')[|e|..];
  }

  /** Delivering exactly n of the sender's frames and a strict prefix of the next. */
  lemma {:induction false} DeliverFrames(env: Env, c: Core, seal: Seal, id: nat, seqNo: nat, nonce: nat, plains: seq<seq<Byte>>,
                      n: nat, part: seq<Byte>, arrivals: seq<seq<Byte>>)
    requires IsDigest(env.sha3) && IsSeal(seal) && Opens(env, id, seal) && AtPoint(c, id, seqNo, nonce)
    requires Fits(plains) && n <= |plains| && Concat(arrivals) == WireOf(seal, plains[..n], seqNo, nonce) + part
    requires if n == |plains| then part == []
             else part < EncodeFrame(FileFrame(seal, (seqNo + n) % TWO32, nonce + n, plains[n]))
    ensures var r := FeedAll(env, Slot(c, []), arrivals);
            var all := RxAll(env.hash, c.rx, c.disk, plains[..n], AnswersOf(env), c.clock);
            && r.slot.buf == part && r.slot.core.rx == all.rx && r.slot.core.disk == all.disk
            && |all.notes| == n && r.log == FileLog(seqNo, plains[..n], all.notes)
  {
    hide EncodeFrame;
    hide Dispatch;
    hide Process;
    hide RxAll;
    var fs := FileFrames(seal, plains, seqNo, nonce);
    assert fs[..n] == FileFrames(seal, plains[..n], seqNo, nonce);
    assert WireOf(seal, plains[..n], seqNo, nonce) == EncodeFrames(fs[..n]);
    hide WireOf;
    hide FileFrames;
    hide FeedAll;
    hide Flows;
    hide FileLog;
    hide EncodeFrames;
    FilesFlow(env, c, seal, id, seqNo, nonce, plains);
    FilesFlow(env, c, seal, id, seqNo, nonce, plains[..n]);
    StreamPrefix(fs, n, part);
    assert [] + Concat(arrivals) == Concat(arrivals);
    var m, left := ReassemblyInFlow(env, c, [], fs, arrivals);
    if m <= n { CutUnique(fs, m, left, n, part); } else { CutUnique(fs, n, part, m, left); }
  }

  lemma StreamPrefix(fs: seq<Frame>, n: nat, part: seq<Byte>)
    requires AllWellFormed(fs) && n <= |fs| && (if n == |fs| then part == [] else part < EncodeFrame(fs[n]))
    ensures EncodeFrames(fs[..n]) + part <= EncodeFrames(fs)
  {
    hide EncodeFrame;
    assert fs == fs[..n] + fs[n..];
    EncodeFramesAppend(fs[..n], fs[n..]);
    PrefixUnder(EncodeFrames(fs[..n]), part, EncodeFrames(fs[n..]));
  }

  lemma PrefixUnder(a: seq<Byte>, x: seq<Byte>, y: seq<Byte>)
    requires x <= y
    ensures a + x <= a + y
  {
  }

  /** The fair conditions of a transfer: a receiving slot at the sender's point of the channel, not
      already receiving, with a system that cooperates. */
  ghost predicate Ready(env: Env, c: Core, seal: Seal, id: nat, seqNo: nat, nonce: nat, file: seq<Byte>, name: seq<Byte>, hash: seq<Byte>) {
    && IsDigest(env.sha3) && IsSeal(seal) && Opens(env, id, seal) && seqNo < TWO32 && AtPoint(c, id, seqNo, nonce)
    && !c.rx.active && RxInv(c.rx, c.disk) && Announced(env.hash, file, name, hash) && Cooperative(env, c, |file|, name)
  }

  /** End to end, finished: for every file and every schedule of short reads and partial writes, if the
      sender finishes and its bytes arrive cut in any way, the receiver has kept exactly that file if
      and only if the announced hash is not zero and no piece is shaped like METADATA; then both sides
      are done and the disk holds the file. */
  lemma EndToEnd(env: Env, c: Core, seal: Seal, id: nat, seqNo: nat, nonce: nat, file: seq<Byte>, name: seq<Byte>, hash: seq<Byte>,
                 t: Tx, arrivals: seq<seq<Byte>>)
    requires Ready(env, c, seal, id, seqNo, nonce, file, name, hash)
    requires Reachable(seal, file, Metadata(name, |file|, hash), seqNo, nonce, t)
    requires t.status == Finished && Concat(arrivals) == t.wire
    ensures var r := FeedAll(env, Slot(c, []), arrivals);
            var good := !AllZero(hash) && NoneShaped(Pieces(t));
            && (KeptIn(r.log, file) <==> good)
            && (good ==> r.slot.buf == [] && r.slot.core.rx == BLANK && r.slot.core.disk == c.disk[LocalFile(env, c, name) := file])
  {
    hide RxAll;
    hide FeedAll;
    hide WireOf;
    hide Reachable;
    var meta := Metadata(name, |file|, hash);
    SenderStream(seal, file, meta, seqNo, nonce, t);
    var n := |t.plains|;
    assert t.plains[..n] == t.plains;
    assert t.wire + [] == t.wire;
    DeliverFrames(env, c, seal, id, seqNo, nonce, t.plains, n, [], arrivals);
    Verdict(env, c, seqNo, file, name, hash, Pieces(t));
  }

  /** The verdict on a whole file, from its pieces. */
  lemma Verdict(env: Env, c: Core, seqNo: nat, file: seq<Byte>, name: seq<Byte>, hash: seq<Byte>, pieces: seq<seq<Byte>>)
    requires !c.rx.active && RxInv(c.rx, c.disk) && Announced(env.hash, file, name, hash) && Cooperative(env, c, |file|, name)
    requires Fits(pieces) && Concat(pieces) == file
    ensures var plains := [Metadata(name, |file|, hash)] + pieces;
            var r := RxAll(env.hash, c.rx, c.disk, plains, AnswersOf(env), c.clock);
            var good := !AllZero(hash) && NoneShaped(pieces);
            && |r.notes| == |plains| && (KeptIn(FileLog(seqNo, plains, r.notes), file) <==> good)
            && (good ==> r.rx == BLANK && r.disk == c.disk[LocalFile(env, c, name) := file])
  {
    hide RxAll;
    var plains := [Metadata(name, |file|, hash)] + pieces;
    var r := RxAll(env.hash, c.rx, c.disk, plains, AnswersOf(env), c.clock);
    RxAllLength(env.hash, c.rx, c.disk, plains, AnswersOf(env), c.clock);
    FileLogAt(seqNo, plains, r.notes);
    var log := FileLog(seqNo, plains, r.notes);
    if !AllZero(hash) && NoneShaped(pieces) {
      AfterWhole(env, c, file, name, hash, pieces);
      assert log[|log| - 1].note.Kept?;
    } else {
      NotKept(env, c, file, name, hash, pieces);
    }
  }

  /** End to end, in between: at every reachable state of the sender, once its bytes so far have arrived,
      the receiver has stored exactly the pieces whose frames are complete, and the buffer holds exactly
      the part of the frame the sender has begun. Both sides therefore finish together. */
  lemma InStep(env: Env, c: Core, seal: Seal, id: nat, seqNo: nat, nonce: nat, file: seq<Byte>, name: seq<Byte>, hash: seq<Byte>,
               t: Tx, arrivals: seq<seq<Byte>>)
    requires Ready(env, c, seal, id, seqNo, nonce, file, name, hash) && !AllZero(hash)
    requires Reachable(seal, file, Metadata(name, |file|, hash), seqNo, nonce, t)
    requires t.status == Sending && t.offset <= |t.pending| && Concat(arrivals) == t.wire && NoneShaped(Pieces(t))
    ensures t.sent <= |file|
    ensures var r := FeedAll(env, Slot(c, []), arrivals);
            && r.slot.buf == t.pending[..t.offset]
            && r.slot.core.rx.active && r.slot.core.rx.received == t.sent < r.slot.core.rx.expectedSize == t.total
            && r.slot.core.disk == c.disk[LocalFile(env, c, name) := file[..t.sent]]
  {
    hide RxAll;
    hide FeedAll;
    hide EncodeFrame;
    hide WireOf;
    hide Reachable;
    hide TxInv;
    hide Cooperative;
    var meta := Metadata(name, |file|, hash);
    ReachableInv(seal, file, meta, seqNo, nonce, t);
    var n := if t.pending == [] then |t.plains| else |t.plains| - 1;
    PiecesWritten(seal, file, meta, seqNo, nonce, t);
    assert NoneShaped(t.plains[1..n]) by {
      assert forall i :: 0 <= i < n - 1 ==> t.plains[1..n][i] == Pieces(t)[i];
    }
    DeliverFrames(env, c, seal, id, seqNo, nonce, t.plains, n, t.pending[..t.offset], arrivals);
    AfterPart(env, c, file, name, hash, t.plains[1..n]);
  }

  /** What the sender's invariant says about the pieces whose frames are complete. */
  lemma PiecesWritten(seal: Seal, file: seq<Byte>, meta: seq<Byte>, seqNo: nat, nonce: nat, t: Tx)
    requires IsSeal(seal) && TxInv(seal, file, meta, seqNo, nonce, t) && t.status == Sending
    ensures t.sent < t.total == |file|
    ensures var n := if t.pending == [] then |t.plains| else |t.plains| - 1;
            && Fits(t.plains) && 1 <= n && t.plains[..n] == [meta] + t.plains[1..n] && Concat(t.plains[1..n]) == file[..t.sent] < file
            && Fits(t.plains[1..n]) && t.wire == WireOf(seal, t.plains[..n], seqNo, nonce) + t.pending[..t.offset]
            && if n == |t.plains| then t.pending[..t.offset] == []
               else t.pending[..t.offset] < EncodeFrame(FileFrame(seal, (seqNo + n) % TWO32, nonce + n, t.plains[n]))
  {
    hide EncodeFrame;
    hide WireOf;
    if t.pending == [] {
      assert t.plains[..|t.plains|] == t.plains;
      assert t.plains[1..|t.plains|] == t.plains[1..];
    } else {
      var n := |t.plains| - 1;
      assert t.plains[1..] == t.plains[1..n] + [t.plains[n]];
      ConcatAppend(t.plains[1..n], [t.plains[n]]);
      ConcatOne(t.plains[n]);
      assert Concat(t.plains[1..n]) == file[..t.pos][..t.sent] == file[..t.sent];
    }
  }
}
