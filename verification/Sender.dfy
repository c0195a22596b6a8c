/**
 The sending side of a file transfer: the METADATA layout (src/file_transfer.c:278-292), one call of
 the writable-socket handler with short reads and partial writes (src/file_transfer.c:347-466), and
 what every schedule of such calls puts on the wire. Encryption is a parameter.
 */
module Sender {
  import opened Bytes
  import opened Frames
  import opened FileName
  import opened Receiver

  const CHUNK_SIZE: nat := 4096

  type Seal = (nat, seq<Byte>) -> seq<Byte>

  /** noise_encrypt adds a tag of MAC_LEN bytes. */
  ghost predicate IsSeal(seal: Seal) {
    forall n, pt :: |seal(n, pt)| == |pt| + MAC_LEN
  }

  // ----- METADATA -----

  /** "METADATA\0", the name in a zero-filled 256-byte field, the size, the hash. */
  function Metadata(name: seq<Byte>, size: nat, hash: seq<Byte>): (m: seq<Byte>)
    requires |name| <= 255 && |hash| == 32
    ensures |m| == METADATA_LEN
  {
    MARK + (name + Zeros(256 - |name|)) + BigEndian(8, size) + hash
  }

  /** The receiver reads back exactly what was announced. */
  lemma MetadataRoundTrip(name: seq<Byte>, size: nat, hash: seq<Byte>)
    requires |name| <= 255 && |hash| == 32 && size <= MAX_FILE_SIZE && forall i :: 0 <= i < |name| ==> name[i] != 0
    ensures var m := Metadata(name, size, hash);
            MetadataShaped(m) && NameField(m) == name && SizeField(m) == size && HashField(m) == hash
  {
    var m := Metadata(name, size, hash);
    assert m[..9] == MARK;
    assert m[265..273] == BigEndian(8, size);
    assert m[273..305] == hash;
    PowersOf256();
    BigEndianRoundTrip(8, size);
    var field := m[9..264] + [0];
    assert forall i :: 0 <= i < |name| ==> field[i] == name[i];
    assert field[|name|] == 0;
    CStringIs(field, |name|);
    assert field[..|name|] == name;
  }

  // ----- one call of the handler -----

  datatype Status = Sending | Finished | Aborted

  /** struct file_tx_state with the channel counters, and, as history, all bytes written so far and all
      plaintexts encrypted so far. `pending` is tx_buf[..tx_len]. */
  datatype Tx = Tx(status: Status, pos: nat, total: nat, sent: nat, pending: seq<Byte>, offset: nat, chunk: nat,
                   txSeq: nat, nonce: nat, wire: seq<Byte>, plains: seq<seq<Byte>>)

  /** The results of read() and write(): a count, or a failure that may be retried. */
  datatype Io = Count(n: nat) | Retry | Error

  function ToRead(t: Tx): (n: nat) {
    var remaining := if t.total > t.sent then t.total - t.sent else 0;
    if remaining < CHUNK_SIZE then remaining else CHUNK_SIZE
  }

  /** The operating system returns no more than was asked for, nor more than there is. */
  ghost predicate Possible(file: seq<Byte>, t: Tx, io: Io) {
    io.Count? ==> if t.pending != [] then io.n <= |t.pending| - t.offset else io.n <= ToRead(t) && t.pos + io.n <= |file|
  }

  function Stop(t: Tx, status: Status): (t': Tx) {
    t.(status := status, pending := [], offset := 0, chunk := 0)
  }

  function WriteStep(t: Tx, io: Io): (t': Tx)
    requires io.Count? ==> t.offset + io.n <= |t.pending|
  {
    match io
    case Retry => t
    case Error => Stop(t, Aborted)
    case Count(w) =>
      if w == 0 then Stop(t, Aborted)
      else
        var wire := t.wire + t.pending[t.offset..t.offset + w];
        if t.offset + w < |t.pending| then t.(offset := t.offset + w, wire := wire)
        else
          var sent := t.sent + t.chunk;
          var t1 := t.(txSeq := (t.txSeq + 1) % TWO32, pending := [], offset := 0, sent := sent, chunk := 0, wire := wire);
          if sent >= t.total then t1.(status := Finished) else t1
  }

  function FileFrame(seal: Seal, seqNo: nat, nonce: nat, plain: seq<Byte>): (f: Frame) {
    Frame(MSG_FILE, seqNo, seal(nonce, plain))
  }

  function ReadStep(seal: Seal, file: seq<Byte>, t: Tx, io: Io): (t': Tx)
    requires IsSeal(seal) && t.txSeq < TWO32
    requires io.Count? ==> io.n <= ToRead(t) && t.pos + io.n <= |file|
  {
    if ToRead(t) == 0 then Stop(t, Aborted)
    else
      match io
      case Retry => t
      case Error => Stop(t, Aborted)
      case Count(r) =>
        if r == 0 then Stop(t, Aborted)
        else
          var data := file[t.pos..t.pos + r];
          t.(pos := t.pos + r, chunk := r, pending := EncodeFrame(FileFrame(seal, t.txSeq, t.nonce, data)), offset := 0,
             nonce := t.nonce + 1, plains := t.plains + [data])
  }

  /** file_transfer_handle_tx */
  function TxStep(seal: Seal, file: seq<Byte>, t: Tx, io: Io): (t': Tx)
    requires IsSeal(seal) && t.txSeq < TWO32 && t.offset <= |t.pending| && Possible(file, t, io)
  {
    if t.status != Sending then t
    else if t.pending != [] then WriteStep(t, io)
    else ReadStep(seal, file, t, io)
  }

  /** file_transfer_start once METADATA has been written whole. */
  function TxStart(seal: Seal, file: seq<Byte>, meta: seq<Byte>, seqNo: nat, nonce: nat): (t: Tx)
    requires IsSeal(seal) && |meta| == METADATA_LEN && seqNo < TWO32
  {
    Tx(Sending, 0, |file|, 0, [], 0, 0, (seqNo + 1) % TWO32, nonce + 1,
       EncodeFrame(FileFrame(seal, seqNo, nonce, meta)), [meta])
  }

  // ----- every schedule -----

  /** A non-empty plaintext that fits a frame. */
  ghost predicate Fits(plains: seq<seq<Byte>>) {
    forall i :: 0 <= i < |plains| ==> 1 <= |plains[i]| <= CHUNK_SIZE
  }

  /** The frames that carry the plaintexts: consecutive sequence numbers, consecutive nonces. */
  function FileFrames(seal: Seal, plains: seq<seq<Byte>>, seqNo: nat, nonce: nat): (fs: seq<Frame>)
    requires IsSeal(seal)
    ensures |fs| == |plains|
    ensures forall i :: 0 <= i < |fs| ==> fs[i] == FileFrame(seal, (seqNo + i) % TWO32, nonce + i, plains[i])
    ensures Fits(plains) ==> AllWellFormed(fs)
  {
    seq(|plains|, i requires 0 <= i < |plains| => FileFrame(seal, (seqNo + i) % TWO32, nonce + i, plains[i]))
  }

  function WireOf(seal: Seal, plains: seq<seq<Byte>>, seqNo: nat, nonce: nat): (w: seq<Byte>)
    requires IsSeal(seal) && Fits(plains)
  {
    EncodeFrames(FileFrames(seal, plains, seqNo, nonce))
  }

  lemma WireAppend(seal: Seal, plains: seq<seq<Byte>>, last: seq<Byte>, seqNo: nat, nonce: nat)
    requires IsSeal(seal) && Fits(plains) && 1 <= |last| <= CHUNK_SIZE
    ensures Fits(plains + [last])
    ensures WireOf(seal, plains + [last], seqNo, nonce) ==
            WireOf(seal, plains, seqNo, nonce) + EncodeFrame(FileFrame(seal, (seqNo + |plains|) % TWO32, nonce + |plains|, last))
  {
    var fs, f := FileFrames(seal, plains, seqNo, nonce), FileFrame(seal, (seqNo + |plains|) % TWO32, nonce + |plains|, last);
    assert FileFrames(seal, plains + [last], seqNo, nonce) == fs + [f];
    EncodeFramesAppend(fs, [f]);
    assert EncodeFrames([f]) == EncodeFrame(f) + EncodeFrames([f][1..]);
  }

  /** The state between two frames: everything encrypted has been written. */
  ghost predicate Between(seal: Seal, file: seq<Byte>, seqNo: nat, nonce: nat, t: Tx)
    requires IsSeal(seal)
  {
    && t.pending == [] && t.offset == 0 && t.sent == t.pos && t.plains != [] && Fits(t.plains)
    && t.txSeq == (seqNo + |t.plains|) % TWO32 && t.nonce == nonce + |t.plains|
    && t.wire == WireOf(seal, t.plains, seqNo, nonce)
  }

  /** The state inside a frame: all but the last plaintext written, and a strict prefix of the last frame. */
  ghost predicate Inside(seal: Seal, file: seq<Byte>, seqNo: nat, nonce: nat, t: Tx)
    requires IsSeal(seal)
  {
    && |t.plains| > 1 && Fits(t.plains)
    && var n := |t.plains| - 1;
       && t.sent + t.chunk == t.pos && t.chunk == |t.plains[n]|
       && t.txSeq == (seqNo + n) % TWO32 && t.nonce == nonce + n + 1
       && t.pending == EncodeFrame(FileFrame(seal, t.txSeq, nonce + n, t.plains[n]))
       && t.offset < |t.pending|
       && t.wire == WireOf(seal, t.plains[..n], seqNo, nonce) + t.pending[..t.offset]
  }

  /** What every reachable state of the sender satisfies. */
  ghost predicate TxInv(seal: Seal, file: seq<Byte>, meta: seq<Byte>, seqNo: nat, nonce: nat, t: Tx)
    requires IsSeal(seal)
  {
    && t.txSeq < TWO32 && t.offset <= |t.pending|
    && t.total == |file| && t.sent <= t.pos <= t.total
    && t.plains != [] && Fits(t.plains) && t.plains[0] == meta && Concat(t.plains[1..]) == file[..t.pos]
    && (t.status == Sending ==>
          (t.sent < t.total && (Between(seal, file, seqNo, nonce, t) || Inside(seal, file, seqNo, nonce, t))))
    && (t.status == Finished ==> t.sent == t.total && t.wire == WireOf(seal, t.plains, seqNo, nonce))
    && t.wire <= WireOf(seal, t.plains, seqNo, nonce)
  }

  lemma InsideWire(seal: Seal, file: seq<Byte>, seqNo: nat, nonce: nat, t: Tx)
    requires IsSeal(seal) && Inside(seal, file, seqNo, nonce, t)
    ensures var n := |t.plains| - 1;
            WireOf(seal, t.plains, seqNo, nonce) == WireOf(seal, t.plains[..n], seqNo, nonce) + t.pending
    ensures t.wire <= WireOf(seal, t.plains, seqNo, nonce)
  {
    hide EncodeFrame;
    hide WireOf;
    var n := |t.plains| - 1;
    assert t.plains == t.plains[..n] + [t.plains[n]];
    WireAppend(seal, t.plains[..n], t.plains[n], seqNo, nonce);
  }

  lemma WriteKeepsInv(seal: Seal, file: seq<Byte>, meta: seq<Byte>, seqNo: nat, nonce: nat, t: Tx, io: Io)
    requires IsSeal(seal) && TxInv(seal, file, meta, seqNo, nonce, t)
    requires t.status == Sending && t.pending != [] && Possible(file, t, io)
    ensures TxInv(seal, file, meta, seqNo, nonce, WriteStep(t, io))
  {
    hide EncodeFrame;
    hide WireOf;
    InsideWire(seal, file, seqNo, nonce, t);
    if io.Count? && io.n > 0 {
      Grow(WireOf(seal, t.plains[..|t.plains| - 1], seqNo, nonce), t.pending, t.offset, io.n);
      if t.offset + io.n < |t.pending| {
        WritePart(seal, file, meta, seqNo, nonce, t, io.n);
      } else {
        WriteLast(seal, file, meta, seqNo, nonce, t, io.n);
      }
    }
  }

  /** A partial write stays inside the frame. */
  lemma WritePart(seal: Seal, file: seq<Byte>, meta: seq<Byte>, seqNo: nat, nonce: nat, t: Tx, n: nat)
    requires IsSeal(seal) && TxInv(seal, file, meta, seqNo, nonce, t) && Inside(seal, file, seqNo, nonce, t)
    requires t.status == Sending && 0 < n && t.offset + n < |t.pending|
    ensures TxInv(seal, file, meta, seqNo, nonce, WriteStep(t, Count(n)))
  {
    hide EncodeFrame;
    hide WireOf;
    hide FileFrame;
    var before := WireOf(seal, t.plains[..|t.plains| - 1], seqNo, nonce);
    InsideWire(seal, file, seqNo, nonce, t);
    Grow(before, t.pending, t.offset, n);
    assert Inside(seal, file, seqNo, nonce, WriteStep(t, Count(n)));
  }

  /** A write that completes the frame ends between two frames, or ends the transfer. */
  lemma WriteLast(seal: Seal, file: seq<Byte>, meta: seq<Byte>, seqNo: nat, nonce: nat, t: Tx, n: nat)
    requires IsSeal(seal) && TxInv(seal, file, meta, seqNo, nonce, t) && Inside(seal, file, seqNo, nonce, t)
    requires t.status == Sending && 0 < n && t.offset + n == |t.pending|
    ensures TxInv(seal, file, meta, seqNo, nonce, WriteStep(t, Count(n)))
  {
    hide EncodeFrame;
    hide WireOf;
    hide FileFrame;
    var t' := WriteStep(t, Count(n));
    InsideWire(seal, file, seqNo, nonce, t);
    Grow(WireOf(seal, t.plains[..|t.plains| - 1], seqNo, nonce), t.pending, t.offset, n);
    NextSeq(seqNo + (|t.plains| - 1));
    assert Between(seal, file, seqNo, nonce, t');
  }

  lemma Grow(before: seq<Byte>, pending: seq<Byte>, offset: nat, n: nat)
    requires offset + n <= |pending|
    ensures (before + pending[..offset]) + pending[offset..offset + n] == before + pending[..offset + n] <= before + pending
    ensures pending[..|pending|] == pending
  {
  }

  lemma NextSeq(x: nat)
    ensures (x % TWO32 + 1) % TWO32 == (x + 1) % TWO32
  {
    assert x == TWO32 * (x / TWO32) + x % TWO32;
  }

  /** After a read the state is inside the new frame. */
  lemma ReadInside(seal: Seal, file: seq<Byte>, seqNo: nat, nonce: nat, t: Tx, r: nat)
    requires IsSeal(seal) && t.txSeq < TWO32 && Between(seal, file, seqNo, nonce, t)
    requires 0 < r <= ToRead(t) && t.pos + r <= |file|
    ensures Inside(seal, file, seqNo, nonce, ReadStep(seal, file, t, Count(r)))
  {
    hide EncodeFrame;
    hide WireOf;
    var data := file[t.pos..t.pos + r];
    var t' := ReadStep(seal, file, t, Count(r));
    var n := |t.plains|;
    assert t'.plains[..n] == t.plains && t'.plains[n] == data;
    assert t'.wire == t.wire + t'.pending[..0];
  }

  lemma ReadKeepsInv(seal: Seal, file: seq<Byte>, meta: seq<Byte>, seqNo: nat, nonce: nat, t: Tx, io: Io)
    requires IsSeal(seal) && TxInv(seal, file, meta, seqNo, nonce, t)
    requires t.status == Sending && t.pending == [] && Possible(file, t, io)
    ensures TxInv(seal, file, meta, seqNo, nonce, ReadStep(seal, file, t, io))
  {
    hide EncodeFrame;
    hide WireOf;
    if io.Count? && io.n > 0 {
      var data := file[t.pos..t.pos + io.n];
      var t' := ReadStep(seal, file, t, io);
      ReadInside(seal, file, seqNo, nonce, t, io.n);
      InsideWire(seal, file, seqNo, nonce, t');
      hide Inside;
      assert t'.plains[1..] == t.plains[1..] + [data];
      ConcatAppend(t.plains[1..], [data]);
      ConcatOne(data);
      assert file[..t'.pos] == file[..t.pos] + data;
    }
  }

  function RunTx(seal: Seal, file: seq<Byte>, t: Tx, ios: seq<Io>): (t': Tx)
    requires IsSeal(seal) && PossibleAll(seal, file, t, ios)
    decreases |ios|
  {
    if ios == [] then t else RunTx(seal, file, TxStep(seal, file, t, ios[0]), ios[1..])
  }

  ghost predicate PossibleAll(seal: Seal, file: seq<Byte>, t: Tx, ios: seq<Io>)
    requires IsSeal(seal)
    decreases |ios|
  {
    ios == [] ||
    (t.txSeq < TWO32 && t.offset <= |t.pending| && Possible(file, t, ios[0])
     && PossibleAll(seal, file, TxStep(seal, file, t, ios[0]), ios[1..]))
  }

  lemma {:induction false} RunKeepsInv(seal: Seal, file: seq<Byte>, meta: seq<Byte>, seqNo: nat, nonce: nat, t: Tx, ios: seq<Io>)
    requires IsSeal(seal) && TxInv(seal, file, meta, seqNo, nonce, t) && PossibleAll(seal, file, t, ios)
    ensures TxInv(seal, file, meta, seqNo, nonce, RunTx(seal, file, t, ios))
    decreases |ios|
  {
    hide TxInv;
    if ios != [] {
      StepKeepsInv(seal, file, meta, seqNo, nonce, t, ios[0]);
      RunKeepsInv(seal, file, meta, seqNo, nonce, TxStep(seal, file, t, ios[0]), ios[1..]);
    }
  }

  lemma StepKeepsInv(seal: Seal, file: seq<Byte>, meta: seq<Byte>, seqNo: nat, nonce: nat, t: Tx, io: Io)
    requires IsSeal(seal) && TxInv(seal, file, meta, seqNo, nonce, t) && Possible(file, t, io)
    requires t.txSeq < TWO32 && t.offset <= |t.pending|
    ensures TxInv(seal, file, meta, seqNo, nonce, TxStep(seal, file, t, io))
  {
    hide TxInv;
    if t.status == Sending {
      if t.pending != [] {
        WriteKeepsInv(seal, file, meta, seqNo, nonce, t, io);
      } else {
        ReadKeepsInv(seal, file, meta, seqNo, nonce, t, io);
      }
    }
  }

  lemma StartInv(seal: Seal, file: seq<Byte>, meta: seq<Byte>, seqNo: nat, nonce: nat)
    requires IsSeal(seal) && |meta| == METADATA_LEN && seqNo < TWO32 && file != []
    ensures TxInv(seal, file, meta, seqNo, nonce, TxStart(seal, file, meta, seqNo, nonce))
  {
    hide EncodeFrame;
    var t := TxStart(seal, file, meta, seqNo, nonce);
    WireAppend(seal, [], meta, seqNo, nonce);
    assert [] + [meta] == [meta];
    assert WireOf(seal, [], seqNo, nonce) == [];
    assert Between(seal, file, seqNo, nonce, t);
    assert t.plains[1..] == [] && file[..0] == [];
  }

  /** A state the sender can be in: after METADATA and any schedule of calls. */
  ghost predicate Reachable(seal: Seal, file: seq<Byte>, meta: seq<Byte>, seqNo: nat, nonce: nat, t: Tx)
    requires IsSeal(seal) && |meta| == METADATA_LEN && seqNo < TWO32
  {
    exists ios :: PossibleAll(seal, file, TxStart(seal, file, meta, seqNo, nonce), ios)
               && t == RunTx(seal, file, TxStart(seal, file, meta, seqNo, nonce), ios)
  }

  lemma ReachableInv(seal: Seal, file: seq<Byte>, meta: seq<Byte>, seqNo: nat, nonce: nat, t: Tx)
    requires IsSeal(seal) && |meta| == METADATA_LEN && seqNo < TWO32 && file != []
    requires Reachable(seal, file, meta, seqNo, nonce, t)
    ensures TxInv(seal, file, meta, seqNo, nonce, t)
  {
    hide TxInv;
    var start := TxStart(seal, file, meta, seqNo, nonce);
    var ios :| PossibleAll(seal, file, start, ios) && t == RunTx(seal, file, start, ios);
    StartInv(seal, file, meta, seqNo, nonce);
    RunKeepsInv(seal, file, meta, seqNo, nonce, start, ios);
  }

  /** The pieces of the file read so far. */
  function Pieces(t: Tx): (p: seq<seq<Byte>>) {
    if t.plains == [] then [] else t.plains[1..]
  }

  /** For every file and every schedule of short reads, partial writes and retries: the bytes written are
      a prefix of frames with consecutive sequence numbers and nonces that carry METADATA and then
      consecutive non-empty pieces of the file; sent never passes the announced size; and a finished
      transfer has written all frames of the whole file. */
  lemma SenderStream(seal: Seal, file: seq<Byte>, meta: seq<Byte>, seqNo: nat, nonce: nat, t: Tx)
    requires IsSeal(seal) && |meta| == METADATA_LEN && seqNo < TWO32 && file != []
    requires Reachable(seal, file, meta, seqNo, nonce, t)
    ensures t.plains == [meta] + Pieces(t) && Fits(t.plains) && Concat(Pieces(t)) <= file && t.sent <= t.total == |file|
    ensures t.wire <= WireOf(seal, t.plains, seqNo, nonce)
    ensures t.status == Finished ==>
              t.sent == t.total && Concat(Pieces(t)) == file && t.wire == WireOf(seal, t.plains, seqNo, nonce)
  {
    hide WireOf;
    ReachableInv(seal, file, meta, seqNo, nonce, t);
    assert file[..|file|] == file;
  }

  // ----- the transfer comes to an end -----

  /** While sending, no call fails or returns nothing; retries are allowed. */
  ghost predicate GoodAll(seal: Seal, file: seq<Byte>, t: Tx, ios: seq<Io>)
    requires IsSeal(seal) && PossibleAll(seal, file, t, ios)
    decreases |ios|
  {
    ios == [] ||
    ((t.status == Sending ==> ios[0].Retry? || (ios[0].Count? && ios[0].n > 0))
     && GoodAll(seal, file, TxStep(seal, file, t, ios[0]), ios[1..]))
  }

  function Counts(ios: seq<Io>): (n: nat) {
    if ios == [] then 0 else (if ios[0].Count? then 1 else 0) + Counts(ios[1..])
  }

  /** An upper bound on the calls that still have to succeed. */
  function Work(file: seq<Byte>, t: Tx): (n: nat)
    requires t.pos <= |file| && t.offset <= |t.pending|
  {
    if t.status == Sending then (|file| - t.pos) * (HEADER_SIZE + MAC_LEN + 2) + (|t.pending| - t.offset) else 0
  }

  lemma WriteProgress(seal: Seal, file: seq<Byte>, meta: seq<Byte>, seqNo: nat, nonce: nat, t: Tx, n: nat)
    requires IsSeal(seal) && TxInv(seal, file, meta, seqNo, nonce, t)
    requires t.status == Sending && t.pending != [] && 0 < n && t.offset + n <= |t.pending|
    ensures var t' := WriteStep(t, Count(n));
            t'.status != Aborted && t'.pos == t.pos && t'.offset <= |t'.pending| && Work(file, t') < Work(file, t)
  {
    hide EncodeFrame;
    hide WireOf;
  }

  lemma ReadProgress(seal: Seal, file: seq<Byte>, meta: seq<Byte>, seqNo: nat, nonce: nat, t: Tx, n: nat)
    requires IsSeal(seal) && TxInv(seal, file, meta, seqNo, nonce, t)
    requires t.status == Sending && t.pending == [] && 0 < n <= ToRead(t) && t.pos + n <= |file|
    ensures var t' := ReadStep(seal, file, t, Count(n));
            t'.status == Sending && t'.pos <= |file| && t'.offset <= |t'.pending| && Work(file, t') < Work(file, t)
  {
    hide EncodeFrame;
    hide WireOf;
  }

  lemma RetryWaits(seal: Seal, file: seq<Byte>, meta: seq<Byte>, seqNo: nat, nonce: nat, t: Tx)
    requires IsSeal(seal) && TxInv(seal, file, meta, seqNo, nonce, t) && t.status == Sending
    ensures TxStep(seal, file, t, Retry) == t
  {
    hide EncodeFrame;
    hide WireOf;
  }

  lemma {:induction false} RunFinishes(seal: Seal, file: seq<Byte>, meta: seq<Byte>, seqNo: nat, nonce: nat, t: Tx, ios: seq<Io>)
    requires IsSeal(seal) && TxInv(seal, file, meta, seqNo, nonce, t) && t.status != Aborted && t.pos <= |file|
    requires PossibleAll(seal, file, t, ios) && GoodAll(seal, file, t, ios) && t.offset <= |t.pending|
    ensures RunTx(seal, file, t, ios).status != Aborted
    ensures Counts(ios) >= Work(file, t) ==> RunTx(seal, file, t, ios).status == Finished
    decreases |ios|
  {
    hide TxInv;
    if ios != [] {
      var io, t' := ios[0], TxStep(seal, file, t, ios[0]);
      StepKeepsInv(seal, file, meta, seqNo, nonce, t, io);
      if t.status == Sending {
        if io.Retry? {
          RetryWaits(seal, file, meta, seqNo, nonce, t);
        } else if t.pending != [] {
          WriteProgress(seal, file, meta, seqNo, nonce, t, io.n);
        } else {
          ReadProgress(seal, file, meta, seqNo, nonce, t, io.n);
        }
      }
      RunFinishes(seal, file, meta, seqNo, nonce, t', ios[1..]);
    } else if t.status == Sending {
      StillWork(seal, file, meta, seqNo, nonce, t);
    }
  }

  lemma StillWork(seal: Seal, file: seq<Byte>, meta: seq<Byte>, seqNo: nat, nonce: nat, t: Tx)
    requires IsSeal(seal) && TxInv(seal, file, meta, seqNo, nonce, t) && t.status == Sending
    ensures Work(file, t) > 0
  {
    hide EncodeFrame;
    hide WireOf;
  }

  /** Progress: a transfer whose calls do not fail is never aborted, and it is finished at the latest after a number of
      successful calls linear in the size of the file, however small the reads and writes are. */
  lemma SenderFinishes(seal: Seal, file: seq<Byte>, meta: seq<Byte>, seqNo: nat, nonce: nat, ios: seq<Io>)
    requires IsSeal(seal) && |meta| == METADATA_LEN && seqNo < TWO32 && file != []
    requires PossibleAll(seal, file, TxStart(seal, file, meta, seqNo, nonce), ios)
    requires GoodAll(seal, file, TxStart(seal, file, meta, seqNo, nonce), ios)
    ensures var t := RunTx(seal, file, TxStart(seal, file, meta, seqNo, nonce), ios);
            t.status != Aborted && (Counts(ios) >= |file| * (HEADER_SIZE + MAC_LEN + 2) ==> t.status == Finished)
  {
    hide EncodeFrame;
    StartInv(seal, file, meta, seqNo, nonce);
    RunFinishes(seal, file, meta, seqNo, nonce, TxStart(seal, file, meta, seqNo, nonce), ios);
  }

  // ----- the handler as it updates its fields -----

  class FileSender {
    const seal: Seal
    const file: seq<Byte>
    const txBuf: array<Byte>
    var status: Status
    var pos: nat
    var total: nat
    var sent: nat
    var txLen: nat
    var txOffset: nat
    var chunk: nat
    var txSeq: nat
    var nonce: nat
    ghost var wire: seq<Byte>
    ghost var plains: seq<seq<Byte>>

    ghost predicate Valid()
      reads this
    {
      txBuf.Length == BUF_CAPACITY && txOffset <= txLen <= txBuf.Length && txSeq < TWO32 && IsSeal(seal)
    }

    ghost function Value(): (t: Tx)
      requires Valid()
      reads this, txBuf
    {
      Tx(status, pos, total, sent, txBuf[..txLen], txOffset, chunk, txSeq, nonce, wire, plains)
    }

    /** The state file_transfer_start leaves behind. */
    constructor (seal: Seal, file: seq<Byte>, ghost meta: seq<Byte>, seqNo: nat, nonce: nat)
      requires IsSeal(seal) && |meta| == METADATA_LEN && seqNo < TWO32
      ensures Valid() && fresh(txBuf) && this.seal == seal && this.file == file
      ensures Value() == TxStart(seal, file, meta, seqNo, nonce)
    {
      this.seal, this.file := seal, file;
      txBuf := new Byte[BUF_CAPACITY](_ => 0);
      status, pos, total, sent, txLen, txOffset, chunk := Sending, 0, |file|, 0, 0, 0, 0;
      txSeq, this.nonce := (seqNo + 1) % TWO32, nonce + 1;
      wire, plains := EncodeFrame(FileFrame(seal, seqNo, nonce, meta)), [meta];
    }

    /** close, zero the struct. */
    method StopTransfer(s: Status)
      requires Valid()
      modifies this
      ensures Valid() && Value() == Stop(old(Value()), s)
    {
      status, txLen, txOffset, chunk := s, 0, 0, 0;
      assert txBuf[..0] == [];
    }

    method WritePending(io: Io)
      requires Valid() && status == Sending && txLen > 0 && Possible(file, Value(), io)
      modifies this
      ensures Valid() && Value() == WriteStep(old(Value()), io)
    {
      match io {
        case Retry =>
        case Error => StopTransfer(Aborted);
        case Count(w) =>
          if w == 0 {
            StopTransfer(Aborted);
          } else {
            ghost var out := Value().pending[txOffset..txOffset + w];
            wire := wire + out;
            txOffset := txOffset + w;
            if txOffset == txLen {
              txSeq := (txSeq + 1) % TWO32;
              txLen, txOffset := 0, 0;
              assert txBuf[..0] == [];
              sent := sent + chunk;
              chunk := 0;
              if sent >= total { status := Finished; }
            }
          }
      }
    }

    method PutFrame(frame: seq<Byte>)
      requires Valid() && |frame| <= BUF_CAPACITY
      modifies this`txLen, this`txOffset, txBuf
      ensures Valid() && txBuf[..txLen] == frame && txOffset == 0
    {
      forall i | 0 <= i < |frame| { txBuf[i] := frame[i]; }
      txLen, txOffset := |frame|, 0;
    }

    method ReadChunk(io: Io)
      requires Valid() && status == Sending && txLen == 0 && Possible(file, Value(), io)
      modifies this, txBuf
      ensures Valid() && Value() == ReadStep(seal, file, old(Value()), io)
    {
      hide EncodeFrame;
      assert txBuf[..txLen] == [];
      var remaining := if total > sent then total - sent else 0;
      if remaining == 0 {
        StopTransfer(Aborted);
        return;
      }
      var toRead := if remaining < CHUNK_SIZE then remaining else CHUNK_SIZE;
      assert toRead == ToRead(Value());
      match io {
        case Retry =>
        case Error => StopTransfer(Aborted);
        case Count(r) =>
          if r == 0 {
            StopTransfer(Aborted);
          } else {
            var data := file[pos..pos + r];
            var f := FileFrame(seal, txSeq, nonce, data);
            PutFrame(EncodeFrame(f));
            chunk, pos, nonce := r, pos + r, nonce + 1;
            plains := plains + [data];
          }
      }
    }

    /** file_transfer_handle_tx */
    method HandleTx(io: Io)
      requires Valid() && Possible(file, Value(), io)
      modifies this, txBuf
      ensures Valid() && Value() == TxStep(seal, file, old(Value()), io)
    {
      if status != Sending { return; }
      assert txLen == 0 <==> txBuf[..txLen] == [];
      if txLen > 0 { WritePending(io); } else { ReadChunk(io); }
    }
  }
}
