/**
 Which files a transfer can carry (src/file_transfer.c:347-466, 553-757), told from the file alone: the sender may read
 it in pieces of any size up to a chunk, so a file is safe under every schedule exactly when no 305 bytes of it begin
 like METADATA.
 */
module FileAlone {
  import opened Bytes
  import opened Frames
  import opened FileName
  import opened Receiver
  import opened Peer
  import opened PeerStream
  import opened Sender
  import opened Transfer

  // ----- every way of cutting a file into pieces is a schedule -----

  lemma {:induction false} RunTxAppend(seal: Seal, file: seq<Byte>, t: Tx, a: seq<Io>, b: seq<Io>)
    requires IsSeal(seal) && PossibleAll(seal, file, t, a) && PossibleAll(seal, file, RunTx(seal, file, t, a), b)
    ensures PossibleAll(seal, file, t, a + b) && RunTx(seal, file, t, a + b) == RunTx(seal, file, RunTx(seal, file, t, a), b)
    decreases |a|
  {
    hide TxStep;
    if a == [] {
      assert a + b == b;
    } else {
      assert (a + b)[0] == a[0] && (a + b)[1..] == a[1..] + b;
      RunTxAppend(seal, file, TxStep(seal, file, t, a[0]), a[1..], b);
    }
  }

  /** Read one piece at once and write its frame at once. */
  function PieceIo(p: seq<Byte>): (ios: seq<Io>) {
    [Count(|p|), Count(HEADER_SIZE + |p| + MAC_LEN)]
  }

  lemma ReadPiece(seal: Seal, file: seq<Byte>, meta: seq<Byte>, seqNo: nat, nonce: nat, t: Tx, p: seq<Byte>)
    requires IsSeal(seal) && TxInv(seal, file, meta, seqNo, nonce, t) && t.status == Sending && t.pending == []
    requires 1 <= |p| <= CHUNK_SIZE && t.pos + |p| <= |file| && file[t.pos..t.pos + |p|] == p
    ensures t.txSeq < TWO32 && t.offset <= |t.pending| && Possible(file, t, Count(|p|))
    ensures var t1 := TxStep(seal, file, t, Count(|p|));
            && t1.status == Sending && t1.plains == t.plains + [p] && |t1.pending| == HEADER_SIZE + |p| + MAC_LEN && t1.offset == 0
            && t1.pos == t.pos + |p| && t1.chunk == |p| && t1.sent == t.pos && t1.total == |file| && t1.txSeq < TWO32
  {
    hide EncodeFrame;
    hide WireOf;
  }

  lemma WriteFrame(seal: Seal, file: seq<Byte>, t: Tx)
    requires IsSeal(seal) && t.status == Sending && t.pending != [] && t.offset == 0 && t.txSeq < TWO32
    requires t.sent + t.chunk == t.pos && t.total == |file| && t.pos <= |file|
    ensures Possible(file, t, Count(|t.pending|))
    ensures var t' := TxStep(seal, file, t, Count(|t.pending|));
            t'.status == (if t.pos == |file| then Finished else Sending) && t'.plains == t.plains && t'.pending == [] && t'.pos == t.pos
  {
  }

  lemma SendPiece(seal: Seal, file: seq<Byte>, meta: seq<Byte>, seqNo: nat, nonce: nat, t: Tx, p: seq<Byte>)
    requires IsSeal(seal) && TxInv(seal, file, meta, seqNo, nonce, t) && t.status == Sending && t.pending == []
    requires 1 <= |p| <= CHUNK_SIZE && t.pos + |p| <= |file| && file[t.pos..t.pos + |p|] == p
    ensures PossibleAll(seal, file, t, PieceIo(p))
    ensures var t' := RunTx(seal, file, t, PieceIo(p));
            && TxInv(seal, file, meta, seqNo, nonce, t') && t'.plains == t.plains + [p] && t'.pending == [] && t'.pos == t.pos + |p|
            && t'.status == if t'.pos == |file| then Finished else Sending
  {
    hide TxInv;
    hide TxStep;
    var ios := PieceIo(p);
    ReadPiece(seal, file, meta, seqNo, nonce, t, p);
    StepKeepsInv(seal, file, meta, seqNo, nonce, t, ios[0]);
    var t1 := TxStep(seal, file, t, ios[0]);
    WriteFrame(seal, file, t1);
    StepKeepsInv(seal, file, meta, seqNo, nonce, t1, ios[1]);
    assert ios[1..][0] == ios[1] && ios[1..][1..] == [];
    var t2 := TxStep(seal, file, t1, ios[1]);
    assert PossibleAll(seal, file, t2, []) && RunTx(seal, file, t2, []) == t2;
    assert PossibleAll(seal, file, t1, ios[1..]) && RunTx(seal, file, t1, ios[1..]) == t2;
  }

  lemma {:induction false} SendPieces(seal: Seal, file: seq<Byte>, meta: seq<Byte>, seqNo: nat, nonce: nat, t: Tx, pieces: seq<seq<Byte>>)
    returns (ios: seq<Io>)
    requires IsSeal(seal) && TxInv(seal, file, meta, seqNo, nonce, t) && t.pending == [] && t.pos <= |file|
    requires t.status == if t.pos == |file| then Finished else Sending
    requires Fits(pieces) && Concat(pieces) == file[t.pos..]
    ensures PossibleAll(seal, file, t, ios)
    ensures RunTx(seal, file, t, ios).status == Finished && RunTx(seal, file, t, ios).plains == t.plains + pieces
    decreases |pieces|
  {
    hide TxInv;
    hide TxStep;
    if pieces == [] {
      ios := [];
      assert t.plains + pieces == t.plains;
    } else {
      var p, rest := pieces[0], Concat(pieces[1..]);
      assert file[t.pos..] == p + rest;
      assert file[t.pos..][..|p|] == p == file[t.pos..t.pos + |p|];
      SendPiece(seal, file, meta, seqNo, nonce, t, p);
      var t' := RunTx(seal, file, t, PieceIo(p));
      assert file[t'.pos..] == file[t.pos..][|p|..] == rest;
      var more := SendPieces(seal, file, meta, seqNo, nonce, t', pieces[1..]);
      RunTxAppend(seal, file, t, PieceIo(p), more);
      ios := PieceIo(p) + more;
      assert (t.plains + [p]) + pieces[1..] == t.plains + pieces;
    }
  }

  /** The sender can read the file in these pieces. */
  lemma PiecesRun(seal: Seal, file: seq<Byte>, meta: seq<Byte>, seqNo: nat, nonce: nat, pieces: seq<seq<Byte>>) returns (t: Tx)
    requires IsSeal(seal) && |meta| == METADATA_LEN && seqNo < TWO32 && file != [] && Fits(pieces) && Concat(pieces) == file
    ensures Reachable(seal, file, meta, seqNo, nonce, t) && t.status == Finished && Pieces(t) == pieces
  {
    hide TxInv;
    hide PossibleAll;
    hide RunTx;
    hide EncodeFrame;
    var t0 := TxStart(seal, file, meta, seqNo, nonce);
    StartInv(seal, file, meta, seqNo, nonce);
    assert file[0..] == file;
    var ios := SendPieces(seal, file, meta, seqNo, nonce, t0, pieces);
    t := RunTx(seal, file, t0, ios);
    assert ([meta] + pieces)[1..] == pieces;
  }

  // ----- the mark -----

  /** 305 bytes of the file begin like METADATA. */
  predicate MarkAt(file: seq<Byte>, i: nat) {
    i + METADATA_LEN <= |file| && file[i..i + 9] == MARK
  }

  ghost predicate HasMark(file: seq<Byte>) {
    exists i :: MarkAt(file, i)
  }

  lemma {:induction false} PieceStart(pieces: seq<seq<Byte>>, k: nat) returns (i: nat)
    requires k < |pieces|
    ensures i + |pieces[k]| <= |Concat(pieces)| && Concat(pieces)[i..i + |pieces[k]|] == pieces[k]
  {
    if k == 0 {
      i := 0;
    } else {
      var j := PieceStart(pieces[1..], k - 1);
      i := |pieces[0]| + j;
      var rest := Concat(pieces[1..]);
      assert (pieces[0] + rest)[|pieces[0]| + j..|pieces[0]| + j + |pieces[k]|] == rest[j..j + |pieces[k]|];
    }
  }

  lemma SliceHead(s: seq<Byte>, i: nat, n: nat)
    requires 9 <= n && i + n <= |s|
    ensures s[i..i + n][..9] == s[i..i + 9]
  {
  }

  lemma NoMarkNoShape(file: seq<Byte>, pieces: seq<seq<Byte>>)
    requires Concat(pieces) == file && !HasMark(file)
    ensures NoneShaped(pieces)
  {
    forall k | 0 <= k < |pieces| ensures !MetadataShaped(pieces[k]) {
      var i := PieceStart(pieces, k);
      if MetadataShaped(pieces[k]) {
        SliceHead(file, i, METADATA_LEN);
        assert MarkAt(file, i);
      }
    }
  }

  /** Pieces of at most a chunk. */
  function Cut(s: seq<Byte>): (pieces: seq<seq<Byte>>)
    ensures Fits(pieces)
  {
    if s == [] then [] else if |s| <= CHUNK_SIZE then [s] else [s[..CHUNK_SIZE]] + Cut(s[CHUNK_SIZE..])
  }

  lemma {:induction false} CutConcat(s: seq<Byte>)
    ensures Concat(Cut(s)) == s
  {
    if |s| > CHUNK_SIZE {
      CutConcat(s[CHUNK_SIZE..]);
      assert s == s[..CHUNK_SIZE] + s[CHUNK_SIZE..];
    } else if s != [] {
      ConcatOne(s);
    }
  }

  /** The cut that isolates the marked bytes. */
  function BadCut(file: seq<Byte>, i: nat): (pieces: seq<seq<Byte>>)
    requires MarkAt(file, i)
    ensures Fits(pieces) && !NoneShaped(pieces)
  {
    var a, bad, b := Cut(file[..i]), file[i..i + METADATA_LEN], Cut(file[i + METADATA_LEN..]);
    assert bad[..9] == file[i..i + 9];
    assert (a + [bad] + b)[|a|] == bad && MetadataShaped(bad);
    a + [bad] + b
  }

  lemma BadCutConcat(file: seq<Byte>, i: nat)
    requires MarkAt(file, i)
    ensures Concat(BadCut(file, i)) == file
  {
    var a, bad, b := Cut(file[..i]), file[i..i + METADATA_LEN], Cut(file[i + METADATA_LEN..]);
    CutConcat(file[..i]);
    CutConcat(file[i + METADATA_LEN..]);
    ConcatAppend(a + [bad], b);
    ConcatAppend(a, [bad]);
    ConcatOne(bad);
    assert file == file[..i] + bad + file[i + METADATA_LEN..];
  }

  /** The receiver keeps the file, whatever schedule the sender follows and however its bytes arrive. */
  ghost predicate AlwaysKept(env: Env, c: Core, seal: Seal, id: nat, seqNo: nat, nonce: nat, file: seq<Byte>, name: seq<Byte>, hash: seq<Byte>)
    requires Ready(env, c, seal, id, seqNo, nonce, file, name, hash)
  {
    forall t, arrivals ::
      Reachable(seal, file, Metadata(name, |file|, hash), seqNo, nonce, t) && t.status == Finished && Concat(arrivals) == t.wire ==>
        KeptIn(FeedAll(env, Slot(c, []), arrivals).log, file)
  }

  /** A file is kept under every schedule if and only if its hash is not zero and no 305 bytes of it begin like METADATA. */
  lemma KeptUnderEverySchedule(env: Env, c: Core, seal: Seal, id: nat, seqNo: nat, nonce: nat, file: seq<Byte>, name: seq<Byte>, hash: seq<Byte>)
    requires Ready(env, c, seal, id, seqNo, nonce, file, name, hash)
    ensures AlwaysKept(env, c, seal, id, seqNo, nonce, file, name, hash) <==> !AllZero(hash) && !HasMark(file)
  {
    hide FeedAll;
    hide Cooperative;
    hide KeptIn;
    if !AllZero(hash) && !HasMark(file) {
      forall t, arrivals |
        Reachable(seal, file, Metadata(name, |file|, hash), seqNo, nonce, t) && t.status == Finished && Concat(arrivals) == t.wire
        ensures KeptIn(FeedAll(env, Slot(c, []), arrivals).log, file)
      {
        hide Reachable;
        SenderStream(seal, file, Metadata(name, |file|, hash), seqNo, nonce, t);
        NoMarkNoShape(file, Pieces(t));
        EndToEnd(env, c, seal, id, seqNo, nonce, file, name, hash, t, arrivals);
      }
    } else {
      var t := LosingRun(env, c, seal, id, seqNo, nonce, file, name, hash);
      var arrivals := [t.wire];
      ConcatOne(t.wire);
      assert Concat(arrivals) == t.wire;
    }
  }

  /** Otherwise there is a schedule after which the sender has finished and the file has not been kept, however the bytes
      arrive. */
  lemma LosingRun(env: Env, c: Core, seal: Seal, id: nat, seqNo: nat, nonce: nat, file: seq<Byte>, name: seq<Byte>, hash: seq<Byte>)
    returns (t: Tx)
    requires Ready(env, c, seal, id, seqNo, nonce, file, name, hash) && (AllZero(hash) || HasMark(file))
    ensures Reachable(seal, file, Metadata(name, |file|, hash), seqNo, nonce, t) && t.status == Finished
    ensures forall arrivals :: Concat(arrivals) == t.wire ==> !KeptIn(FeedAll(env, Slot(c, []), arrivals).log, file)
  {
    hide FeedAll;
    hide Cooperative;
    hide KeptIn;
    hide Reachable;
    var pieces := Cut(file);
    CutConcat(file);
    if HasMark(file) {
      var i: nat :| MarkAt(file, i);
      pieces := BadCut(file, i);
      BadCutConcat(file, i);
    }
    t := PiecesRun(seal, file, Metadata(name, |file|, hash), seqNo, nonce, pieces);
    forall arrivals | Concat(arrivals) == t.wire ensures !KeptIn(FeedAll(env, Slot(c, []), arrivals).log, file) {
      EndToEnd(env, c, seal, id, seqNo, nonce, file, name, hash, t, arrivals);
    }
  }

  /** A file the protocol cannot carry even when it is read whole: the mark and 296 zeros. */
  const SHAPED: seq<Byte> := MARK + Zeros(METADATA_LEN - 9)

  /** The sender reads it in one piece and finishes, and it is never kept. */
  lemma ShapedFileIsLost(env: Env, c: Core, seal: Seal, id: nat, seqNo: nat, nonce: nat, name: seq<Byte>, hash: seq<Byte>)
    returns (t: Tx)
    requires Ready(env, c, seal, id, seqNo, nonce, SHAPED, name, hash)
    ensures Reachable(seal, SHAPED, Metadata(name, |SHAPED|, hash), seqNo, nonce, t) && t.status == Finished && Pieces(t) == [SHAPED]
    ensures forall arrivals :: Concat(arrivals) == t.wire ==> !KeptIn(FeedAll(env, Slot(c, []), arrivals).log, SHAPED)
  {
    hide FeedAll;
    hide Cooperative;
    hide KeptIn;
    hide Reachable;
    ConcatOne(SHAPED);
    assert SHAPED[..9] == MARK;
    t := PiecesRun(seal, SHAPED, Metadata(name, |SHAPED|, hash), seqNo, nonce, [SHAPED]);
    assert MetadataShaped(Pieces(t)[0]);
    forall arrivals | Concat(arrivals) == t.wire ensures !KeptIn(FeedAll(env, Slot(c, []), arrivals).log, SHAPED) {
      EndToEnd(env, c, seal, id, seqNo, nonce, SHAPED, name, hash, t, arrivals);
    }
  }
}
