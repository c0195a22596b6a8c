/**
 The offline message queue (src/database.c:549-618, 625-653, 677-797) over a table of rows in id order, and the
 queueing of long messages in parts (src/stdin_handler.c:38-56, 304-340).
 */
module Queue {
  import opened Bytes

  type Hash = seq<Byte>
  type Text = seq<Byte>

  const MAX_MSG_LEN: nat := 4095
  const MAC_BYTES: nat := 16
  const NONCE_LEN: nat := 24
  const BATCH_LIMIT: nat := 256
  const CHUNK_LIMIT: nat := 4000

  /** The secretbox under the database key. */
  datatype Box = Box(seal: (seq<Byte>, seq<Byte>) -> seq<Byte>, unseal: (seq<Byte>, seq<Byte>) -> Option<seq<Byte>>)

  ghost predicate BoxOk(box: Box) {
    forall p, n :: |box.seal(p, n)| == |p| + MAC_BYTES && box.unseal(box.seal(p, n), n) == Some(p)
  }

  datatype Row = Row(id: nat, to: Hash, nonce: seq<Byte>, cipher: seq<Byte>)

  predicate WellSized(r: Row) {
    |r.nonce| == NONCE_LEN && MAC_BYTES < |r.cipher| <= 4096 + MAC_BYTES
  }

  /** Decrypts to something that ends in NUL. */
  predicate Readable(box: Box, r: Row) {
    var p := box.unseal(r.cipher, r.nonce);
    p.Some? && p.value != [] && p.value[|p.value| - 1] == 0
  }

  /** What a reader of the C string sees. */
  function TextOf(box: Box, r: Row): (t: Text)
    requires Readable(box, r)
  {
    var p := box.unseal(r.cipher, r.nonce).value;
    assert p[|p| - 1] in p;
    CString(p)
  }

  /** What a row holds for a recipient. */
  function Held(box: Box, r: Row, to': Hash): (ts: seq<Text>) {
    if r.to == to' && WellSized(r) && Readable(box, r) then [TextOf(box, r)] else []
  }

  /** The texts waiting for a recipient, oldest first. */
  function Pending(box: Box, rows: seq<Row>, to': Hash): (ts: seq<Text>) {
    if rows == [] then [] else Held(box, rows[0], to') + Pending(box, rows[1..], to')
  }

  /** The rows of everyone else. */
  function Others(rows: seq<Row>, to': Hash): (rs: seq<Row>) {
    if rows == [] then [] else (if rows[0].to == to' then [] else [rows[0]]) + Others(rows[1..], to')
  }

  predicate NulFree(t: Text) {
    forall i :: 0 <= i < |t| ==> t[i] != 0
  }

  /** The row db_queue_message inserts. */
  function NewRow(box: Box, id: nat, to': Hash, text: Text, nonce: seq<Byte>): (r: Row) {
    Row(id, to', nonce, box.seal(text + [0], nonce))
  }

  /** Every accepted text passes the size filter and comes back byte for byte; one byte more would not pass. */
  lemma AcceptedComesBack(box: Box, id: nat, to': Hash, text: Text, nonce: seq<Byte>)
    requires BoxOk(box) && NulFree(text) && |nonce| == NONCE_LEN
    ensures var r := NewRow(box, id, to', text, nonce);
            && (WellSized(r) <==> |text| <= MAX_MSG_LEN)
            && Readable(box, r) && TextOf(box, r) == text
  {
    CStringIs(text + [0], |text|);
    assert (text + [0])[..|text|] == text;
  }

  lemma {:induction false} PendingAppend(box: Box, a: seq<Row>, b: seq<Row>, to': Hash)
    ensures Pending(box, a + b, to') == Pending(box, a, to') + Pending(box, b, to')
  {
    hide Held;
    if a == [] {
      assert a + b == b;
    } else {
      assert (a + b)[0] == a[0] && (a + b)[1..] == a[1..] + b;
      PendingAppend(box, a[1..], b, to');
    }
  }

  lemma PendingOne(box: Box, r: Row, to': Hash)
    ensures Pending(box, [r], to') == if r.to == to' && WellSized(r) && Readable(box, r) then [TextOf(box, r)] else []
    ensures Others([r], to') == if r.to == to' then [] else [r]
  {
    assert [r][1..] == [];
  }

  // ----- one pass of db_process_queue, said in one recursion -----

  datatype Passed = Passed(rows: seq<Row>, sent: seq<Text>)

  /** left: room in the batch; k: sends tried so far; ok(k): whether the k-th send works. */
  function Pass(box: Box, rows: seq<Row>, to': Hash, left: nat, k: nat, ok: nat -> bool): (p: Passed)
    decreases |rows|
  {
    if rows == [] || left == 0 then Passed(rows, [])
    else
      var r := rows[0];
      if r.to != to' || !WellSized(r) then
        var p := Pass(box, rows[1..], to', left, k, ok);
        Passed([r] + p.rows, p.sent)
      else if !Readable(box, r) then Pass(box, rows[1..], to', left - 1, k, ok)
      else if ok(k) then
        var p := Pass(box, rows[1..], to', left - 1, k + 1, ok);
        Passed(p.rows, [TextOf(box, r)] + p.sent)
      else Passed(rows, [])
  }

  /** Conservation: what was sent, then what still waits, is what was waiting, in order; at most a batch is sent.
      This holds of every table, damaged rows included. */
  lemma {:induction false} PassConserves(box: Box, rows: seq<Row>, to': Hash, left: nat, k: nat, ok: nat -> bool)
    ensures var p := Pass(box, rows, to', left, k, ok);
            p.sent + Pending(box, p.rows, to') == Pending(box, rows, to') && |p.sent| <= left
    decreases |rows|
  {
    hide WellSized;
    hide Readable;
    hide TextOf;
    var p := Pass(box, rows, to', left, k, ok);
    if rows != [] && left > 0 {
      var r := rows[0];
      if r.to != to' || !WellSized(r) {
        PassConserves(box, rows[1..], to', left, k, ok);
        assert p.rows[0] == r && p.rows[1..] == Pass(box, rows[1..], to', left, k, ok).rows;
        assert Held(box, r, to') == [];
      } else if !Readable(box, r) {
        PassConserves(box, rows[1..], to', left - 1, k, ok);
      } else if ok(k) {
        PassConserves(box, rows[1..], to', left - 1, k + 1, ok);
      }
    }
  }

  /** The rows of all other recipients stay as they are. */
  lemma {:induction false} PassSparesOthers(box: Box, rows: seq<Row>, to': Hash, left: nat, k: nat, ok: nat -> bool)
    ensures Others(Pass(box, rows, to', left, k, ok).rows, to') == Others(rows, to')
    decreases |rows|
  {
    hide WellSized;
    hide Readable;
    hide TextOf;
    var p := Pass(box, rows, to', left, k, ok);
    if rows != [] && left > 0 {
      var r := rows[0];
      if r.to != to' || !WellSized(r) {
        PassSparesOthers(box, rows[1..], to', left, k, ok);
        assert p.rows[1..] == Pass(box, rows[1..], to', left, k, ok).rows;
      } else if !Readable(box, r) {
        PassSparesOthers(box, rows[1..], to', left - 1, k, ok);
      } else if ok(k) {
        PassSparesOthers(box, rows[1..], to', left - 1, k + 1, ok);
      }
    }
  }

  function CountSized(rows: seq<Row>, to': Hash): (n: nat) {
    if rows == [] then 0 else (if rows[0].to == to' && WellSized(rows[0]) then 1 else 0) + CountSized(rows[1..], to')
  }

  /** If the batch is large enough, something is left waiting only because a send failed. */
  lemma {:induction false} PassFinishes(box: Box, rows: seq<Row>, to': Hash, left: nat, k: nat, ok: nat -> bool)
    requires CountSized(rows, to') <= left
    ensures var p := Pass(box, rows, to', left, k, ok);
            Pending(box, p.rows, to') == [] <==> forall i :: k <= i < k + |Pending(box, rows, to')| ==> ok(i)
    decreases |rows|
  {
    hide WellSized;
    hide Readable;
    hide TextOf;
    if left == 0 {
      NothingSized(box, rows, to');
    } else if rows != [] {
      var r := rows[0];
      var rest := rows[1..];
      if r.to != to' || !WellSized(r) {
        PassFinishes(box, rest, to', left, k, ok);
        assert Pass(box, rows, to', left, k, ok).rows[1..] == Pass(box, rest, to', left, k, ok).rows;
      } else if !Readable(box, r) {
        PassFinishes(box, rest, to', left - 1, k, ok);
      } else if ok(k) {
        PassFinishes(box, rest, to', left - 1, k + 1, ok);
        assert |Pending(box, rows, to')| == 1 + |Pending(box, rest, to')|;
        assert (forall i :: k <= i < k + |Pending(box, rows, to')| ==> ok(i)) <==>
               (forall i :: k + 1 <= i < k + 1 + |Pending(box, rest, to')| ==> ok(i));
      }
    }
  }

  lemma {:induction false} NothingSized(box: Box, rows: seq<Row>, to': Hash)
    requires CountSized(rows, to') == 0
    ensures Pending(box, rows, to') == []
  {
    if rows != [] { NothingSized(box, rows[1..], to'); }
  }

  // ----- long messages -----

  /** The largest size up to this one that ends before a byte that is no continuation. */
  function BackUp(msg: Text, offset: nat, size: nat): (n: nat)
    requires offset + size < |msg|
    ensures n <= size
  {
    if size > 0 && Continuation(msg[offset + size]) then BackUp(msg, offset, size - 1) else size
  }

  /** nox_next_chunk_size */
  function ChunkSize(msg: Text, offset: nat): (n: nat)
    ensures if offset < |msg| then 0 < n <= CHUNK_LIMIT && offset + n <= |msg| else n == 0
  {
    if offset >= |msg| then 0
    else if |msg| - offset <= CHUNK_LIMIT then |msg| - offset
    else
      var n := BackUp(msg, offset, CHUNK_LIMIT);
      if n == 0 then 1 else n
  }

  function Chunks(msg: Text, offset: nat): (cs: seq<Text>)
    decreases |msg| - offset
  {
    if offset >= |msg| then []
    else [msg[offset..offset + ChunkSize(msg, offset)]] + Chunks(msg, offset + ChunkSize(msg, offset))
  }

  lemma {:induction false} ChunksConcat(msg: Text, offset: nat)
    requires offset <= |msg|
    ensures Concat(Chunks(msg, offset)) == msg[offset..]
    ensures forall i :: 0 <= i < |Chunks(msg, offset)| ==> 0 < |Chunks(msg, offset)[i]| <= CHUNK_LIMIT
    decreases |msg| - offset
  {
    hide ChunkSize;
    if offset < |msg| {
      var n := ChunkSize(msg, offset);
      ChunksConcat(msg, offset + n);
      assert msg[offset..] == msg[offset..offset + n] + msg[offset + n..];
    }
  }

  lemma {:induction false} BackUpMeans(msg: Text, offset: nat, size: nat)
    requires offset + size < |msg|
    ensures var n := BackUp(msg, offset, size);
            && (n > 0 ==> !Continuation(msg[offset + n]))
            && (forall j :: offset + n < j <= offset + size ==> Continuation(msg[j]))
    decreases size
  {
    if size > 0 && Continuation(msg[offset + size]) { BackUpMeans(msg, offset, size - 1); }
  }

  /** A part ends in the middle of a character exactly when the 4000 bytes after its first are all continuations. */
  lemma SplitsExactly(msg: Text, offset: nat)
    requires |msg| - offset > CHUNK_LIMIT
    ensures Continuation(msg[offset + ChunkSize(msg, offset)]) <==>
            forall j :: offset < j <= offset + CHUNK_LIMIT ==> Continuation(msg[j])
  {
    BackUpMeans(msg, offset, CHUNK_LIMIT);
    var n := ChunkSize(msg, offset);
    assert 1 <= n <= CHUNK_LIMIT;
  }

  // ----- rollback -----

  /** DELETE of the count newest rows of a recipient. */
  function Rollback(rows: seq<Row>, to': Hash, count: nat): (rs: seq<Row>) {
    if rows == [] || count == 0 then rows
    else
      var n := |rows| - 1;
      if rows[n].to == to' then Rollback(rows[..n], to', count - 1) else Rollback(rows[..n], to', count) + [rows[n]]
  }

  function CountFor(rows: seq<Row>, to': Hash): (n: nat) {
    if rows == [] then 0 else CountFor(rows[..|rows| - 1], to') + if rows[|rows| - 1].to == to' then 1 else 0
  }

  /** Rolling back as many rows as were added for a recipient restores the table, but for what was added for others. */
  lemma {:induction false} RollbackUndoes(rows: seq<Row>, added: seq<Row>, to': Hash)
    ensures Rollback(rows + added, to', CountFor(added, to')) == rows + Others(added, to')
    decreases |added|
  {
    if added == [] {
      assert rows + added == rows;
    } else {
      hide Others;
      var n := |added| - 1;
      var all := rows + added;
      assert added == added[..n] + [added[n]];
      assert all[..|all| - 1] == rows + added[..n] && all[|all| - 1] == added[n];
      RollbackUndoes(rows, added[..n], to');
      OthersSnoc(added[..n], added[n], to');
      if added[n].to != to' && CountFor(added, to') == 0 { AllOthers(added, to'); }
    }
  }

  lemma {:induction false} OthersSnoc(a: seq<Row>, r: Row, to': Hash)
    ensures Others(a + [r], to') == Others(a, to') + if r.to == to' then [] else [r]
  {
    if a == [] {
      assert a + [r] == [r] && [r][1..] == [];
    } else {
      assert (a + [r])[0] == a[0] && (a + [r])[1..] == a[1..] + [r];
      OthersSnoc(a[1..], r, to');
    }
  }

  lemma {:induction false} AllOthers(a: seq<Row>, to': Hash)
    requires CountFor(a, to') == 0
    ensures Others(a, to') == a
  {
    if a != [] {
      var n := |a| - 1;
      AllOthers(a[..n], to');
      assert a == a[..n] + [a[n]];
      OthersSnoc(a[..n], a[n], to');
    }
  }

  // ----- runs -----

  datatype Event =
    | Put(to: Hash, text: Text, nonce: seq<Byte>, inserted: bool)
    | Segmented(to: Hash, msg: Text, nonces: nat -> seq<Byte>, inserts: nat -> bool)
    | RollBack(to: Hash, count: int)
    | Flush(to: Hash, ok: nat -> bool)

  datatype Table = Table(rows: seq<Row>, nextId: nat)

  predicate Accepted(e: Event) {
    e.Put? && |e.text| <= MAX_MSG_LEN && e.inserted
  }

  /** How many of n insertions work before one fails. */
  function Inserted(inserts: nat -> bool, n: nat): (k: nat)
    ensures k <= n && (forall i :: 0 <= i < k ==> inserts(i)) && (k < n ==> !inserts(k))
  {
    if n == 0 then 0
    else
      var k := Inserted(inserts, n - 1);
      if k == n - 1 && inserts(k) then n else k
  }

  predicate AllInserted(e: Event)
    requires e.Segmented?
  {
    var n := |Chunks(e.msg, 0)|;
    Inserted(e.inserts, n) == n
  }

  /** The rows of the parts of a message. */
  function Parts(box: Box, id: nat, to': Hash, cs: seq<Text>, nonces: nat -> seq<Byte>): (rs: seq<Row>)
    ensures |rs| == |cs| && forall k :: 0 <= k < |cs| ==> rs[k] == NewRow(box, id + k, to', cs[k], nonces(k))
  {
    seq(|cs|, k requires 0 <= k < |cs| => NewRow(box, id + k, to', cs[k], nonces(k)))
  }

  function Step(box: Box, t: Table, e: Event): (t': Table) {
    match e
    case Put(to', text, nonce, _) =>
      if Accepted(e) then Table(t.rows + [NewRow(box, t.nextId, to', text, nonce)], t.nextId + 1) else t
    case Segmented(to', msg, nonces, inserts) =>
      var cs := Chunks(msg, 0);
      Table(if AllInserted(e) then t.rows + Parts(box, t.nextId, to', cs, nonces) else t.rows,
            t.nextId + Inserted(inserts, |cs|))
    case RollBack(to', count) => if count > 0 then t.(rows := Rollback(t.rows, to', count)) else t
    case Flush(to', ok) => t.(rows := Pass(box, t.rows, to', BATCH_LIMIT, 0, ok).rows)
  }

  function Run(box: Box, t: Table, es: seq<Event>): (t': Table)
    decreases |es|
  {
    if es == [] then t else Run(box, Step(box, t, es[0]), es[1..])
  }

  /** What one event hands to the network for a recipient, and what it takes in. */
  function Sent(box: Box, t: Table, e: Event, r: Hash): (ts: seq<Text>) {
    if e.Flush? && e.to == r then Pass(box, t.rows, r, BATCH_LIMIT, 0, e.ok).sent else []
  }

  function Taken(e: Event, r: Hash): (ts: seq<Text>) {
    if e.to != r then []
    else if Accepted(e) then [e.text]
    else if e.Segmented? && AllInserted(e) then Chunks(e.msg, 0)
    else []
  }

  function Delivered(box: Box, t: Table, es: seq<Event>, r: Hash): (ts: seq<Text>)
    decreases |es|
  {
    if es == [] then [] else Sent(box, t, es[0], r) + Delivered(box, Step(box, t, es[0]), es[1..], r)
  }

  function Enqueued(es: seq<Event>, r: Hash): (ts: seq<Text>) {
    if es == [] then [] else Taken(es[0], r) + Enqueued(es[1..], r)
  }

  ghost predicate EventOk(e: Event) {
    && (e.Put? ==> NulFree(e.text) && |e.nonce| == NONCE_LEN)
    && (e.Segmented? ==> NulFree(e.msg) && forall k :: |e.nonces(k)| == NONCE_LEN)
  }

  lemma {:induction false} OthersPending(box: Box, rows: seq<Row>, to': Hash, r: Hash)
    requires r != to'
    ensures Pending(box, rows, r) == Pending(box, Others(rows, to'), r)
  {
    if rows != [] {
      OthersPending(box, rows[1..], to', r);
      if rows[0].to != to' {
        assert Others(rows, to')[0] == rows[0] && Others(rows, to')[1..] == Others(rows[1..], to');
      } else {
        assert Others(rows, to') == Others(rows[1..], to');
        assert Pending(box, rows, r) == Pending(box, rows[1..], r);
      }
    }
  }

  /** One part more on the table is one text more waiting, for its recipient only. */
  lemma PartPending(box: Box, rows: seq<Row>, id: nat, to': Hash, text: Text, nonce: seq<Byte>, r: Hash)
    requires BoxOk(box) && NulFree(text) && |nonce| == NONCE_LEN && |text| <= MAX_MSG_LEN
    ensures Pending(box, rows + [NewRow(box, id, to', text, nonce)], r) ==
            Pending(box, rows, r) + if r == to' then [text] else []
  {
    var row := NewRow(box, id, to', text, nonce);
    AcceptedComesBack(box, id, to', text, nonce);
    hide WellSized;
    hide Readable;
    hide TextOf;
    hide BoxOk;
    hide Pending;
    PendingAppend(box, rows, [row], r);
    PendingOne(box, row, r);
  }

  /** The parts of a message wait in order, for their recipient only. */
  lemma {:induction false} PartsPending(box: Box, id: nat, to': Hash, cs: seq<Text>, nonces: nat -> seq<Byte>, r: Hash)
    requires BoxOk(box) && (forall k :: |nonces(k)| == NONCE_LEN)
    requires forall i :: 0 <= i < |cs| ==> |cs[i]| <= CHUNK_LIMIT && NulFree(cs[i])
    ensures Pending(box, Parts(box, id, to', cs, nonces), r) == if r == to' then cs else []
    decreases |cs|
  {
    hide NewRow;
    hide BoxOk;
    hide NulFree;
    hide Held;
    if cs != [] {
      var n := |cs| - 1;
      assert cs == cs[..n] + [cs[n]];
      OnePartMore(box, id, to', cs[..n], cs[n], nonces);
      PartsPending(box, id, to', cs[..n], nonces, r);
      PartPending(box, Parts(box, id, to', cs[..n], nonces), id + n, to', cs[n], nonces(n), r);
    }
  }

  lemma {:induction false} ChunksNulFree(msg: Text, offset: nat)
    requires NulFree(msg) && offset <= |msg|
    ensures forall i :: 0 <= i < |Chunks(msg, offset)| ==> NulFree(Chunks(msg, offset)[i]) && |Chunks(msg, offset)[i]| <= CHUNK_LIMIT
    decreases |msg| - offset
  {
    hide ChunkSize;
    if offset < |msg| { ChunksNulFree(msg, offset + ChunkSize(msg, offset)); }
  }

  lemma SegmentConserves(box: Box, t: Table, e: Event, r: Hash)
    requires BoxOk(box) && EventOk(e) && e.Segmented?
    ensures Pending(box, Step(box, t, e).rows, r) == Pending(box, t.rows, r) + Taken(e, r)
  {
    hide Pending;
    hide Chunks;
    hide BoxOk;
    var cs := Chunks(e.msg, 0);
    ChunksNulFree(e.msg, 0);
    PartsPending(box, t.nextId, e.to, cs, e.nonces, r);
    PendingAppend(box, t.rows, Parts(box, t.nextId, e.to, cs, e.nonces), r);
  }

  lemma StepConserves(box: Box, t: Table, e: Event, r: Hash)
    requires BoxOk(box) && EventOk(e) && !e.RollBack?
    ensures Sent(box, t, e, r) + Pending(box, Step(box, t, e).rows, r) == Pending(box, t.rows, r) + Taken(e, r)
  {
    hide WellSized;
    hide Readable;
    hide Pass;
    match e
    case Put(to', text, nonce, inserted) =>
      if Accepted(e) {
        var row := NewRow(box, t.nextId, to', text, nonce);
        AcceptedComesBack(box, t.nextId, to', text, nonce);
        PendingAppend(box, t.rows, [row], r);
        PendingOne(box, row, r);
      }
    case Segmented(_, _, _, _) => SegmentConserves(box, t, e, r);
    case Flush(to', ok) =>
      PassConserves(box, t.rows, to', BATCH_LIMIT, 0, ok);
      PassSparesOthers(box, t.rows, to', BATCH_LIMIT, 0, ok);
      var rows' := Pass(box, t.rows, to', BATCH_LIMIT, 0, ok).rows;
      if to' != r {
        OthersPending(box, t.rows, to', r);
        OthersPending(box, rows', to', r);
      }
  }

  lemma Reassociate(a: seq<Text>, b: seq<Text>, c: seq<Text>, d: seq<Text>, e: seq<Text>, f: seq<Text>, g: seq<Text>)
    requires b + c == d + e && a + d == f + g
    ensures a + b + c == f + (g + e)
  {
    assert a + b + c == a + (b + c) == a + d + e;
  }

  /** Over every run without rollbacks and with any send and insertion failures: for each recipient, the texts delivered
      followed by those still waiting are those waiting at the start followed by those accepted, in order. */
  lemma {:induction false} RunConserves(box: Box, t: Table, es: seq<Event>, r: Hash)
    requires BoxOk(box) && forall i :: 0 <= i < |es| ==> EventOk(es[i]) && !es[i].RollBack?
    ensures Delivered(box, t, es, r) + Pending(box, Run(box, t, es).rows, r) == Pending(box, t.rows, r) + Enqueued(es, r)
    decreases |es|
  {
    hide Step;
    hide Sent;
    hide Taken;
    hide Pending;
    hide EventOk;
    if es != [] {
      var e, rest, t1 := es[0], es[1..], Step(box, t, es[0]);
      StepConserves(box, t, e, r);
      RunConserves(box, t1, rest, r);
      Reassociate(Sent(box, t, e, r), Delivered(box, t1, rest, r), Pending(box, Run(box, t1, rest).rows, r),
                  Pending(box, t1.rows, r), Enqueued(rest, r), Pending(box, t.rows, r), Taken(e, r));
    }
  }

  // ----- runs with rollbacks -----

  /** Every row of the recipient is one the program wrote. */
  ghost predicate GoodFor(box: Box, rows: seq<Row>, r: Hash) {
    forall x :: x in rows && x.to == r ==> WellSized(x) && Readable(box, x)
  }

  function Shorten(ts: seq<Text>, count: int): (r: seq<Text>) {
    if count <= 0 then ts else if count >= |ts| then [] else ts[..|ts| - count]
  }

  /** The newest row of a table, read. */
  lemma PendingNewest(box: Box, rows: seq<Row>, last: Row, to': Hash)
    requires GoodFor(box, rows + [last], to')
    ensures |Pending(box, rows + [last], to')| == |Pending(box, rows, to')| + if last.to == to' then 1 else 0
    ensures Pending(box, rows, to') <= Pending(box, rows + [last], to') && GoodFor(box, rows, to')
  {
    hide WellSized;
    hide Readable;
    hide TextOf;
    hide Pending;
    assert last in rows + [last];
    PendingAppend(box, rows, [last], to');
    PendingOne(box, last, to');
  }

  lemma PendingOther(box: Box, rows: seq<Row>, last: Row, to': Hash)
    requires last.to != to'
    ensures Pending(box, rows + [last], to') == Pending(box, rows, to')
  {
    hide Pending;
    PendingAppend(box, rows, [last], to');
    PendingOne(box, last, to');
  }

  lemma {:induction false} RollbackShortens(box: Box, rows: seq<Row>, to': Hash, count: nat)
    requires GoodFor(box, rows, to')
    ensures Pending(box, Rollback(rows, to', count), to') == Shorten(Pending(box, rows, to'), count)
    decreases |rows|
  {
    hide GoodFor;
    hide Held;
    if rows != [] && count > 0 {
      var n := |rows| - 1;
      var init, last := rows[..n], rows[n];
      assert rows == init + [last];
      PendingNewest(box, init, last, to');
      hide Pending;
      if last.to == to' {
        RollbackShortens(box, init, to', count - 1);
      } else {
        RollbackShortens(box, init, to', count);
        PendingOther(box, init, last, to');
        PendingOther(box, Rollback(init, to', count), last, to');
      }
    }
  }

  lemma {:induction false} RollbackSpares(rows: seq<Row>, to': Hash, count: nat)
    ensures Others(Rollback(rows, to', count), to') == Others(rows, to')
    ensures forall x :: x in Rollback(rows, to', count) ==> x in rows
    decreases |rows|
  {
    if rows != [] && count > 0 {
      var n := |rows| - 1;
      assert rows == rows[..n] + [rows[n]];
      OthersSnoc(rows[..n], rows[n], to');
      if rows[n].to == to' {
        RollbackSpares(rows[..n], to', count - 1);
      } else {
        RollbackSpares(rows[..n], to', count);
        OthersSnoc(Rollback(rows[..n], to', count), rows[n], to');
      }
    }
  }

  /** The reference: a recipient's list of waiting texts, without rows, ids or encryption. */
  function Ledger(ts: seq<Text>, e: Event, r: Hash, sent: nat): (ts': seq<Text>) {
    match e
    case Flush(to', _) => if to' == r && sent <= |ts| then ts[sent..] else ts
    case RollBack(to', count) => if to' == r then Shorten(ts, count) else ts
    case _ => ts + Taken(e, r)
  }

  /** One event, of any kind, does to a recipient's waiting texts what it does to the list; what is sent is its
      beginning. */
  lemma StepLedger(box: Box, t: Table, e: Event, r: Hash)
    requires BoxOk(box) && EventOk(e) && GoodFor(box, t.rows, r)
    ensures var ts, sent := Pending(box, t.rows, r), Sent(box, t, e, r);
            && Pending(box, Step(box, t, e).rows, r) == Ledger(ts, e, r, |sent|)
            && |sent| <= |ts| && sent == ts[..|sent|]
  {
    hide Pending;
    hide Pass;
    hide WellSized;
    hide Readable;
    hide Others;
    hide Rollback;
    hide BoxOk;
    hide EventOk;
    if e.RollBack? {
      if e.count > 0 {
        if e.to == r {
          RollbackShortens(box, t.rows, r, e.count);
        } else {
          RollbackSpares(t.rows, e.to, e.count);
          OthersPending(box, t.rows, e.to, r);
          OthersPending(box, Rollback(t.rows, e.to, e.count), e.to, r);
        }
      }
    } else {
      StepConserves(box, t, e, r);
      var ts, sent := Pending(box, t.rows, r), Sent(box, t, e, r);
      if e.Flush? {
        assert sent + Pending(box, Step(box, t, e).rows, r) == ts;
      } else {
        assert [] + Pending(box, Step(box, t, e).rows, r) == Pending(box, Step(box, t, e).rows, r);
      }
    }
  }

  lemma {:induction false} PassKeeps(box: Box, rows: seq<Row>, to': Hash, left: nat, k: nat, ok: nat -> bool)
    ensures forall x :: x in Pass(box, rows, to', left, k, ok).rows ==> x in rows
    decreases |rows|
  {
    hide WellSized;
    hide Readable;
    hide TextOf;
    if rows != [] && left > 0 {
      PassKeeps(box, rows[1..], to', left, k, ok);
      PassKeeps(box, rows[1..], to', left - 1, k, ok);
      PassKeeps(box, rows[1..], to', left - 1, k + 1, ok);
    }
  }

  lemma StepKeepsGood(box: Box, t: Table, e: Event, r: Hash)
    requires BoxOk(box) && EventOk(e) && GoodFor(box, t.rows, r)
    ensures GoodFor(box, Step(box, t, e).rows, r)
  {
    hide Pass;
    hide Rollback;
    hide Chunks;
    match e
    case Put(to', text, nonce, _) =>
      AcceptedComesBack(box, t.nextId, to', text, nonce);
    case Segmented(to', msg, nonces, _) =>
      ChunksNulFree(msg, 0);
      var cs := Chunks(msg, 0);
      forall k | 0 <= k < |cs|
        ensures WellSized(Parts(box, t.nextId, to', cs, nonces)[k]) && Readable(box, Parts(box, t.nextId, to', cs, nonces)[k])
      {
        AcceptedComesBack(box, t.nextId + k, to', cs[k], nonces(k));
      }
    case RollBack(to', count) => if count > 0 { RollbackSpares(t.rows, to', count); }
    case Flush(to', ok) => PassKeeps(box, t.rows, to', BATCH_LIMIT, 0, ok);
  }

  function LedgerRun(box: Box, t: Table, es: seq<Event>, r: Hash, ts: seq<Text>): (ts': seq<Text>)
    decreases |es|
  {
    if es == [] then ts
    else LedgerRun(box, Step(box, t, es[0]), es[1..], r, Ledger(ts, es[0], r, |Sent(box, t, es[0], r)|))
  }

  /** What leaves the list at its front in those events. */
  function LedgerSent(box: Box, t: Table, es: seq<Event>, r: Hash, ts: seq<Text>): (out: seq<Text>)
    decreases |es|
  {
    if es == [] then []
    else
      var n := |Sent(box, t, es[0], r)|;
      (if n <= |ts| then ts[..n] else ts) + LedgerSent(box, Step(box, t, es[0]), es[1..], r, Ledger(ts, es[0], r, n))
  }

  /** Over every run of queueing, segmented queueing, rollbacks and flushes: a recipient's waiting texts are what the plain
      list holds after the same events, and the texts delivered are what left it at its front. */
  lemma {:induction false} RunFollowsLedger(box: Box, t: Table, es: seq<Event>, r: Hash)
    requires BoxOk(box) && GoodFor(box, t.rows, r) && forall i :: 0 <= i < |es| ==> EventOk(es[i])
    ensures Pending(box, Run(box, t, es).rows, r) == LedgerRun(box, t, es, r, Pending(box, t.rows, r))
    ensures Delivered(box, t, es, r) == LedgerSent(box, t, es, r, Pending(box, t.rows, r))
    decreases |es|
  {
    hide Step;
    hide Sent;
    hide Pending;
    hide Ledger;
    hide EventOk;
    hide GoodFor;
    if es != [] {
      StepLedger(box, t, es[0], r);
      StepKeepsGood(box, t, es[0], r);
      RunFollowsLedger(box, Step(box, t, es[0]), es[1..], r);
    }
  }

  // ----- the batch, and deletion by id -----

  /** The first rows that are for the recipient and pass the size filter. */
  function Batch(rows: seq<Row>, to': Hash, left: nat): (b: seq<Row>) {
    if rows == [] || left == 0 then []
    else if rows[0].to == to' && WellSized(rows[0]) then [rows[0]] + Batch(rows[1..], to', left - 1)
    else Batch(rows[1..], to', left)
  }

  datatype Tried = Tried(gone: set<nat>, sent: seq<Text>)

  /** Which ids the sending loop deletes and what it sends. */
  function Try(box: Box, b: seq<Row>, k: nat, ok: nat -> bool): (d: Tried) {
    if b == [] then Tried({}, [])
    else if !Readable(box, b[0]) then
      var d := Try(box, b[1..], k, ok);
      Tried({b[0].id} + d.gone, d.sent)
    else if ok(k) then
      var d := Try(box, b[1..], k + 1, ok);
      Tried({b[0].id} + d.gone, [TextOf(box, b[0])] + d.sent)
    else Tried({}, [])
  }

  function Without(rows: seq<Row>, gone: set<nat>): (rs: seq<Row>) {
    if rows == [] then [] else (if rows[0].id in gone then [] else [rows[0]]) + Without(rows[1..], gone)
  }

  /** Ids grow. */
  ghost predicate IdsFrom(rows: seq<Row>, lo: nat) {
    rows == [] || (lo <= rows[0].id && IdsFrom(rows[1..], rows[0].id + 1))
  }

  lemma {:induction false} WithoutNone(rows: seq<Row>, gone: set<nat>, lo: nat)
    requires IdsFrom(rows, lo) && forall x :: x in gone ==> x < lo
    ensures Without(rows, gone) == rows
    decreases |rows|
  {
    if rows != [] { WithoutNone(rows[1..], gone, rows[0].id + 1); }
  }

  lemma {:induction false} WithoutIds(rows: seq<Row>, gone: set<nat>, lo: nat)
    requires IdsFrom(rows, lo)
    ensures IdsFrom(Without(rows, gone), lo) && forall r :: r in Without(rows, gone) ==> r in rows
    decreases |rows|
  {
    if rows != [] {
      var rest := Without(rows[1..], gone);
      WithoutIds(rows[1..], gone, rows[0].id + 1);
      if rows[0].id in gone {
        assert Without(rows, gone) == rest;
        IdsLower(rest, rows[0].id + 1, lo);
      } else {
        assert Without(rows, gone)[0] == rows[0] && Without(rows, gone)[1..] == rest;
      }
    }
  }

  lemma IdsLower(rows: seq<Row>, hi: nat, lo: nat)
    requires IdsFrom(rows, hi) && lo <= hi
    ensures IdsFrom(rows, lo)
  {
  }

  lemma {:induction false} WithoutMore(rows: seq<Row>, a: set<nat>, id: nat)
    ensures Without(Without(rows, a), {id}) == Without(rows, a + {id})
  {
    if rows != [] {
      WithoutMore(rows[1..], a, id);
      if rows[0].id !in a {
        assert Without(rows, a)[0] == rows[0] && Without(rows, a)[1..] == Without(rows[1..], a);
      } else {
        assert Without(rows, a) == Without(rows[1..], a);
      }
    }
  }

  /** An id below all of a table's does not matter to it. */
  lemma {:induction false} WithoutOlder(rows: seq<Row>, a: set<nat>, id: nat, lo: nat)
    requires IdsFrom(rows, lo) && id < lo
    ensures Without(rows, {id} + a) == Without(rows, a)
    decreases |rows|
  {
    if rows != [] { WithoutOlder(rows[1..], a, id, rows[0].id + 1); }
  }

  /** Only ids of the batch are deleted. */
  lemma {:induction false} GoneFrom(box: Box, rows: seq<Row>, lo: nat, to': Hash, left: nat, k: nat, ok: nat -> bool)
    requires IdsFrom(rows, lo)
    ensures forall x :: x in Try(box, Batch(rows, to', left), k, ok).gone ==> lo <= x
    decreases |rows|
  {
    hide WellSized;
    hide Readable;
    hide TextOf;
    if rows != [] && left > 0 {
      var r, rest := rows[0], rows[1..];
      if r.to == to' && WellSized(r) {
        assert Batch(rows, to', left)[1..] == Batch(rest, to', left - 1);
        GoneFrom(box, rest, r.id + 1, to', left - 1, k, ok);
        GoneFrom(box, rest, r.id + 1, to', left - 1, k + 1, ok);
      } else {
        GoneFrom(box, rest, r.id + 1, to', left, k, ok);
      }
    }
  }

  /** Collecting a batch, sending it and deleting by id is the one-pass specification. */
  lemma {:induction false} BatchIsPass(box: Box, rows: seq<Row>, lo: nat, to': Hash, left: nat, k: nat, ok: nat -> bool)
    requires IdsFrom(rows, lo)
    ensures var d := Try(box, Batch(rows, to', left), k, ok);
            Pass(box, rows, to', left, k, ok) == Passed(Without(rows, d.gone), d.sent)
    decreases |rows|
  {
    hide WellSized;
    hide Readable;
    hide TextOf;
    if rows == [] || left == 0 {
      WithoutNone(rows, {}, lo);
    } else {
      var r, rest := rows[0], rows[1..];
      if r.to != to' || !WellSized(r) {
        BatchIsPass(box, rest, r.id + 1, to', left, k, ok);
        GoneFrom(box, rest, r.id + 1, to', left, k, ok);
      } else {
        var b := Batch(rows, to', left);
        assert b[0] == r && b[1..] == Batch(rest, to', left - 1);
        if !Readable(box, r) {
          BatchIsPass(box, rest, r.id + 1, to', left - 1, k, ok);
          WithoutOlder(rest, Try(box, b[1..], k, ok).gone, r.id, r.id + 1);
        } else if ok(k) {
          BatchIsPass(box, rest, r.id + 1, to', left - 1, k + 1, ok);
          WithoutOlder(rest, Try(box, b[1..], k + 1, ok).gone, r.id, r.id + 1);
        } else {
          WithoutNone(rows, {}, lo);
        }
      }
    }
  }

  /** nox_next_chunk_size, the loop. */
  method NextChunkSize(msg: Text, offset: nat) returns (size: nat)
    ensures size == ChunkSize(msg, offset)
  {
    if offset >= |msg| { return 0; }
    if |msg| - offset <= CHUNK_LIMIT { return |msg| - offset; }
    size := CHUNK_LIMIT;
    while size > 0 && Continuation(msg[offset + size])
      invariant 0 <= size <= CHUNK_LIMIT && BackUp(msg, offset, CHUNK_LIMIT) == BackUp(msg, offset, size)
    {
      size := size - 1;
    }
    if size == 0 { size := 1; }
  }

  // ----- the database -----

  class Database {
    var rows: seq<Row>
    var nextId: nat
    const box: Box

    ghost predicate Valid()
      reads this
    {
      BoxOk(box) && IdsFrom(rows, 0) && forall r :: r in rows ==> r.id < nextId
    }

    constructor (box: Box)
      requires BoxOk(box)
      ensures Valid() && rows == [] && this.box == box
    {
      rows, nextId, this.box := [], 0, box;
    }

    /** db_queue_message; inserted says whether SQLite accepts the row. */
    method QueueMessage(to': Hash, text: Text, nonce: seq<Byte>, inserted: bool) returns (ok: bool)
      requires Valid() && NulFree(text) && |nonce| == NONCE_LEN
      modifies this
      ensures Valid()
      ensures Table(rows, nextId) == Step(box, Table(old(rows), old(nextId)), Put(to', text, nonce, inserted))
      ensures ok <==> |text| <= MAX_MSG_LEN && inserted
    {
      if |text| > MAX_MSG_LEN || !inserted { return false; }
      IdsSnoc(rows, NewRow(box, nextId, to', text, nonce), 0);
      rows := rows + [NewRow(box, nextId, to', text, nonce)];
      nextId := nextId + 1;
      return true;
    }

    /** db_queue_rollback_last */
    method RollbackLast(to': Hash, count: int) returns (ok: bool)
      requires Valid()
      modifies this`rows
      ensures Valid() && (ok <==> count > 0)
      ensures Table(rows, nextId) == Step(box, Table(old(rows), nextId), RollBack(to', count))
    {
      if count <= 0 { return false; }
      RollbackIds(rows, to', count, 0);
      rows := Rollback(rows, to', count);
      return true;
    }

    /** The first loop: rows for the recipient until the batch is full. */
    method Collect(to': Hash) returns (b: seq<Row>)
      ensures b == Batch(rows, to', BATCH_LIMIT)
    {
      hide WellSized;
      b := [];
      var j := 0;
      assert rows[0..] == rows;
      while j < |rows| && |b| < BATCH_LIMIT
        invariant 0 <= j <= |rows| && |b| <= BATCH_LIMIT
        invariant Batch(rows, to', BATCH_LIMIT) == b + Batch(rows[j..], to', BATCH_LIMIT - |b|)
      {
        assert rows[j..][0] == rows[j] && rows[j..][1..] == rows[j + 1..];
        if rows[j].to == to' && WellSized(rows[j]) { b := b + [rows[j]]; }
        j := j + 1;
      }
    }

    /** db_queue_delete */
    method Delete(id: nat)
      modifies this`rows
      ensures rows == Without(old(rows), {id})
    {
      rows := Without(rows, {id});
    }

    /** db_process_queue; ok(k) is the outcome of the k-th send. */
    method ProcessQueue(to': Hash, ok: nat -> bool) returns (sent: seq<Text>, failed: bool)
      requires Valid()
      modifies this`rows
      ensures Valid()
      ensures Passed(rows, sent) == Pass(box, old(rows), to', BATCH_LIMIT, 0, ok)
      ensures failed <==> !ok(|sent|) && |Pending(box, Batch(old(rows), to', BATCH_LIMIT), to')| > |sent|
    {
      hide WellSized;
      hide Readable;
      hide TextOf;
      hide Pass;
      hide IdsFrom;
      hide Try;
      hide Pending;
      hide Without;
      hide Batch;
      sent, failed := [], false;
      var b := Collect(to');
      var i := 0;
      ghost var gone := {};
      WithoutNone(rows, {}, 0);
      assert b[0..] == b;
      BatchIsPass(box, rows, 0, to', BATCH_LIMIT, 0, ok);
      AllInBatch(rows, to', BATCH_LIMIT);
      while i < |b|
        invariant 0 <= i <= |b| && rows == Without(old(rows), gone)
        invariant var d, rest := Try(box, b, 0, ok), Try(box, b[i..], |sent|, ok);
                  d.gone == gone + rest.gone && d.sent == sent + rest.sent
        invariant |Pending(box, b, to')| == |sent| + |Pending(box, b[i..], to')|
      {
        var row := b[i];
        TryAt(box, b, i, |sent|, to', ok);
        if !Readable(box, row) {
          WithoutMore(old(rows), gone, row.id);
          Delete(row.id);
          gone := gone + {row.id};
        } else if ok(|sent|) {
          WithoutMore(old(rows), gone, row.id);
          Delete(row.id);
          gone := gone + {row.id};
          sent := sent + [TextOf(box, row)];
        } else {
          failed := true;
          break;
        }
        i := i + 1;
      }
      TryEnd(box, b, |sent|, to', ok);
      WithoutIds(old(rows), gone, 0);
    }

    /** queue_segmented_message: all parts are queued, in order, or the table is as before. */
    method QueueSegmented(to': Hash, msg: Text, nonces: nat -> seq<Byte>, inserts: nat -> bool) returns (ok: bool)
      requires Valid() && NulFree(msg) && forall k :: |nonces(k)| == NONCE_LEN
      modifies this
      ensures Valid() && ok == AllInserted(Segmented(to', msg, nonces, inserts))
      ensures Table(rows, nextId) == Step(box, Table(old(rows), old(nextId)), Segmented(to', msg, nonces, inserts))
    {
      hide BoxOk;
      hide IdsFrom;
      hide ChunkSize;
      hide NewRow;
      hide Inserted;
      hide Chunks;
      hide Rollback;
      hide CountFor;
      hide Others;
      hide NulFree;
      NoParts(box, msg, nextId, to', nonces);
      var offset, queued := 0, 0;
      ghost var done: seq<Text> := [];
      while offset < |msg|
        invariant Valid() && offset <= |msg| && queued == |done| && nextId == old(nextId) + queued
        invariant rows == old(rows) + Parts(box, old(nextId), to', done, nonces)
        invariant done + Chunks(msg, offset) == Chunks(msg, 0)
        invariant forall k :: 0 <= k < queued ==> inserts(k)
      {
        var n := NextChunkSize(msg, offset);
        var part := msg[offset..offset + n];
        OnePartMore(box, old(nextId), to', done, part, nonces);
        NextChunk(msg, offset, done);
        assert NulFree(part) by { PartNulFree(msg, offset, n); }
        var put := QueueMessage(to', part, nonces(queued), inserts(queued));
        if !put {
          InsertedIs(inserts, queued, |Chunks(msg, 0)|);
          AllForOne(box, old(nextId), to', done, nonces);
          RollbackUndoes(old(rows), Parts(box, old(nextId), to', done, nonces), to');
          if queued > 0 { var _ := RollbackLast(to', queued); }
          return false;
        }
        done := done + [part];
        queued := queued + 1;
        offset := offset + n;
      }
      InsertedIs(inserts, queued, |Chunks(msg, 0)|);
      return true;
    }
  }

  lemma NoParts(box: Box, msg: Text, id: nat, to': Hash, nonces: nat -> seq<Byte>)
    ensures Parts(box, id, to', [], nonces) == [] && Chunks(msg, |msg|) == []
  {
  }

  lemma PartNulFree(msg: Text, offset: nat, n: nat)
    requires NulFree(msg) && offset + n <= |msg|
    ensures NulFree(msg[offset..offset + n])
  {
  }

  lemma InsertedIs(inserts: nat -> bool, k: nat, n: nat)
    requires k <= n && (forall i :: 0 <= i < k ==> inserts(i)) && (k < n ==> !inserts(k))
    ensures Inserted(inserts, n) == k
  {
  }

  lemma NextChunk(msg: Text, offset: nat, done: seq<Text>)
    requires offset < |msg| && done + Chunks(msg, offset) == Chunks(msg, 0)
    ensures var n := ChunkSize(msg, offset);
            && done + [msg[offset..offset + n]] + Chunks(msg, offset + n) == Chunks(msg, 0)
            && |done| < |Chunks(msg, 0)| && 0 < n <= CHUNK_LIMIT
  {
    hide ChunkSize;
    var n := ChunkSize(msg, offset);
    assert done + ([msg[offset..offset + n]] + Chunks(msg, offset + n)) == done + [msg[offset..offset + n]] + Chunks(msg, offset + n);
  }

  lemma OnePartMore(box: Box, id: nat, to': Hash, done: seq<Text>, part: Text, nonces: nat -> seq<Byte>)
    ensures Parts(box, id, to', done + [part], nonces) ==
            Parts(box, id, to', done, nonces) + [NewRow(box, id + |done|, to', part, nonces(|done|))]
  {
    hide NewRow;
  }

  lemma AllForOne(box: Box, id: nat, to': Hash, done: seq<Text>, nonces: nat -> seq<Byte>)
    ensures var rs := Parts(box, id, to', done, nonces); CountFor(rs, to') == |rs| && Others(rs, to') == []
  {
    AllTo(Parts(box, id, to', done, nonces), to');
    AllMine(Parts(box, id, to', done, nonces), to');
  }

  lemma {:induction false} AllTo(rs: seq<Row>, to': Hash)
    requires forall k :: 0 <= k < |rs| ==> rs[k].to == to'
    ensures CountFor(rs, to') == |rs|
  {
    if rs != [] { AllTo(rs[..|rs| - 1], to'); }
  }

  lemma TryAt(box: Box, b: seq<Row>, i: nat, k: nat, to': Hash, ok: nat -> bool)
    requires i < |b| && b[i].to == to' && WellSized(b[i])
    ensures var d, rest := Try(box, b[i..], k, ok), b[i + 1..];
            if !Readable(box, b[i]) then
              var t := Try(box, rest, k, ok); d == Tried({b[i].id} + t.gone, t.sent)
            else if ok(k) then
              var t := Try(box, rest, k + 1, ok); d == Tried({b[i].id} + t.gone, [TextOf(box, b[i])] + t.sent)
            else d == Tried({}, [])
    ensures |Pending(box, b[i..], to')| == |Pending(box, b[i + 1..], to')| + if Readable(box, b[i]) then 1 else 0
  {
    assert b[i..][0] == b[i] && b[i..][1..] == b[i + 1..];
  }

  lemma TryEnd(box: Box, b: seq<Row>, k: nat, to': Hash, ok: nat -> bool)
    ensures b[|b|..] == [] && Try(box, [], k, ok) == Tried({}, []) && Pending(box, [], to') == []
  {
  }

  lemma {:induction false} AllMine(a: seq<Row>, to': Hash)
    requires CountFor(a, to') == |a|
    ensures Others(a, to') == []
  {
    if a != [] {
      var n := |a| - 1;
      CountAtMost(a[..n], to');
      AllMine(a[..n], to');
      assert a == a[..n] + [a[n]];
      OthersSnoc(a[..n], a[n], to');
    }
  }

  lemma {:induction false} CountAtMost(a: seq<Row>, to': Hash)
    ensures CountFor(a, to') <= |a|
  {
    if a != [] { CountAtMost(a[..|a| - 1], to'); }
  }

  lemma {:induction false} AllInBatch(rows: seq<Row>, to': Hash, left: nat)
    ensures forall i :: 0 <= i < |Batch(rows, to', left)| ==>
              Batch(rows, to', left)[i].to == to' && WellSized(Batch(rows, to', left)[i])
  {
    if rows != [] {
      AllInBatch(rows[1..], to', left);
      if left > 0 { AllInBatch(rows[1..], to', left - 1); }
    }
  }

  lemma {:induction false} IdsSnoc(rows: seq<Row>, r: Row, lo: nat)
    requires IdsFrom(rows, lo) && lo <= r.id && forall x :: x in rows ==> x.id < r.id
    ensures IdsFrom(rows + [r], lo)
    decreases |rows|
  {
    if rows == [] {
      assert rows + [r] == [r] && [r][1..] == [];
    } else {
      assert (rows + [r])[0] == rows[0] && (rows + [r])[1..] == rows[1..] + [r];
      IdsSnoc(rows[1..], r, rows[0].id + 1);
    }
  }

  /** A rollback keeps a beginning of the table and, of the rest, only others' rows: ids still grow. */
  lemma {:induction false} RollbackIds(rows: seq<Row>, to': Hash, count: nat, lo: nat)
    requires IdsFrom(rows, lo)
    ensures IdsFrom(Rollback(rows, to', count), lo)
    ensures forall r :: r in Rollback(rows, to', count) ==> r in rows
    decreases |rows|
  {
    if rows != [] && count > 0 {
      var n := |rows| - 1;
      assert rows == rows[..n] + [rows[n]];
      IdsFront(rows[..n], rows[n], lo);
      if rows[n].to == to' {
        RollbackIds(rows[..n], to', count - 1, lo);
      } else {
        RollbackIds(rows[..n], to', count, lo);
        IdsSnoc(Rollback(rows[..n], to', count), rows[n], lo);
      }
    }
  }

  lemma {:induction false} IdsFront(rows: seq<Row>, r: Row, lo: nat)
    requires IdsFrom(rows + [r], lo)
    ensures IdsFrom(rows, lo) && lo <= r.id && forall x :: x in rows ==> x.id < r.id
    decreases |rows|
  {
    var all := rows + [r];
    if rows == [] {
      assert all == [r];
    } else {
      assert all[0] == rows[0] && all[1..] == rows[1..] + [r];
      IdsFront(rows[1..], r, rows[0].id + 1);
    }
  }
}
