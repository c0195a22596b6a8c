/**
 Receiver safety over whole runs (src/file_transfer.c:553-821, src/event_loop.c:706-731): any number of slots receive
 into one downloads directory, in any interleaving of frames, failed decryptions, timeouts and clean-ups.
 */
module Downloads {
  import opened Bytes
  import opened FileName
  import opened Receiver

  /** An event at one of the slots. */
  datatype SlotEvent = SlotEvent(slot: nat, ev: RxEvent)

  /** All slots, the directory they share, what each event did, and, for each slot, at which event its transfer began. */
  datatype Hall = Hall(rxs: seq<Rx>, disk: Disk, notes: seq<Note>, since: seq<nat>)

  function Empty(n: nat, start: Disk): (m: Hall) {
    Hall(seq(n, _ => BLANK), start, [], seq(n, _ => 0))
  }

  /** Events at slots that do not exist do nothing. */
  function Happen(h: HashFn, m: Hall, e: SlotEvent): (m': Hall)
    requires |m.since| == |m.rxs|
    ensures |m'.since| == |m'.rxs| == |m.rxs|
  {
    if e.slot >= |m.rxs| then m.(notes := m.notes + [Ignored])
    else
      var s := Apply(h, m.rxs[e.slot], m.disk, e.ev);
      Hall(m.rxs[e.slot := s.rx], s.disk, m.notes + [s.note],
           if s.note.Started? then m.since[e.slot := |m.notes|] else m.since)
  }

  function RunHall(h: HashFn, n: nat, start: Disk, events: seq<SlotEvent>): (m: Hall)
    ensures |m.since| == |m.rxs| == n
  {
    if events == [] then Empty(n, start)
    else Happen(h, RunHall(h, n, start, events[..|events| - 1]), events[|events| - 1])
  }

  /** The files a run has decided to keep. */
  function KeptFiles(notes: seq<Note>): (d: Disk) {
    if notes == [] then map[]
    else
      var d := KeptFiles(notes[..|notes| - 1]);
      var n := notes[|notes| - 1];
      if n.Kept? then d[n.name := n.content] else d
  }

  /** Some slot is receiving into this file. */
  ghost predicate InUse(rxs: seq<Rx>, name: seq<Byte>) {
    exists i :: 0 <= i < |rxs| && rxs[i].active && rxs[i].localName == name
  }

  /** The directory is what it was at the start, untouched, plus the files kept, plus the files being received. */
  ghost predicate DirectoryIs(start: Disk, kept: Disk, rxs: seq<Rx>, disk: Disk) {
    forall name ::
      && (name in disk <==> name in start || name in kept || InUse(rxs, name))
      && (name in disk && !InUse(rxs, name) ==> disk[name] == if name in kept then kept[name] else start[name])
      && !(name in start && name in kept)
      && (InUse(rxs, name) ==> name !in start && name !in kept)
  }

  ghost predicate Distinct(rxs: seq<Rx>) {
    forall i, j :: 0 <= i < j < |rxs| && rxs[i].active && rxs[j].active ==> rxs[i].localName != rxs[j].localName
  }

  /** Every slot's transfer agrees with its file, and no two slots share one. */
  ghost predicate HallInv(h: HashFn, start: Disk, m: Hall) {
    && (forall i :: 0 <= i < |m.rxs| ==> RxInv(m.rxs[i], m.disk))
    && Distinct(m.rxs)
    && DirectoryIs(start, KeptFiles(m.notes), m.rxs, m.disk)
    && (forall k :: 0 <= k < |m.notes| ==> Verified(h, m.notes[k]))
  }

  // ----- one event -----

  /** What one event does to the directory. */
  ghost predicate Touches(rx: Rx, disk: Disk, s: Step) {
    && (forall n :: n in disk && !(rx.active && n == rx.localName) ==> n in s.disk && s.disk[n] == disk[n])
    && (forall n :: n in s.disk && n !in disk ==> s.rx.active && n == s.rx.localName)
    && (s.rx.active ==> if rx.active then s.rx.localName == rx.localName else s.rx.localName !in disk)
    && (rx.active && !s.rx.active ==>
          if s.note.Kept? then rx.localName in s.disk && s.disk[rx.localName] == s.note.content else rx.localName !in s.disk)
    && (s.note.Kept? ==> rx.active && !s.rx.active && s.note.name == rx.localName)
  }

  lemma ApplyTouches(h: HashFn, rx: Rx, disk: Disk, e: RxEvent)
    requires RxInv(rx, disk)
    ensures var s := Apply(h, rx, disk, e); Touches(rx, disk, s) && RxInv(s.rx, s.disk) && Verified(h, s.note)
  {
    hide Sanitize;
    hide CString;
    hide FromBigEndian;
    hide BigEndian;
    ApplyKeepsInv(h, rx, disk, e);
  }

  /** The other slots do not notice. */
  lemma OthersKeepInv(rxs: seq<Rx>, disk: Disk, slot: nat, s: Step, i: nat)
    requires slot < |rxs| && i < |rxs| && i != slot && Touches(rxs[slot], disk, s)
    requires Distinct(rxs) && RxInv(rxs[i], disk)
    ensures RxInv(rxs[i], s.disk)
  {
    hide BigEndian;
    if rxs[i].active {
      assert !(rxs[slot].active && rxs[i].localName == rxs[slot].localName);
    }
  }

  lemma StillDistinct(rxs: seq<Rx>, disk: Disk, slot: nat, s: Step)
    requires slot < |rxs| && Touches(rxs[slot], disk, s) && Distinct(rxs)
    requires forall i :: 0 <= i < |rxs| ==> RxInv(rxs[i], disk)
    ensures Distinct(rxs[slot := s.rx])
  {
    hide BigEndian;
  }

  /** Which names are in use after an event at a slot. */
  lemma InUseAfter(rxs: seq<Rx>, slot: nat, rx': Rx, name: seq<Byte>)
    requires slot < |rxs| && Distinct(rxs)
    ensures InUse(rxs[slot := rx'], name) <==>
            (rx'.active && rx'.localName == name) ||
            (InUse(rxs, name) && !(rxs[slot].active && rxs[slot].localName == name))
  {
    var after := rxs[slot := rx'];
    if InUse(after, name) {
      var i :| 0 <= i < |after| && after[i].active && after[i].localName == name;
      if i != slot { assert rxs[i].active && rxs[i].localName == name; }
    }
    if InUse(rxs, name) && !(rxs[slot].active && rxs[slot].localName == name) {
      var i :| 0 <= i < |rxs| && rxs[i].active && rxs[i].localName == name;
      assert after[i].active && after[i].localName == name;
    }
    if rx'.active && rx'.localName == name { assert after[slot].active && after[slot].localName == name; }
  }

  lemma DirectoryAfter(start: Disk, kept: Disk, rxs: seq<Rx>, disk: Disk, slot: nat, s: Step, kept': Disk)
    requires slot < |rxs| && Distinct(rxs) && Touches(rxs[slot], disk, s) && DirectoryIs(start, kept, rxs, disk)
    requires kept' == if s.note.Kept? then kept[s.note.name := s.note.content] else kept
    requires RxInv(rxs[slot], disk) && RxInv(s.rx, s.disk)
    ensures DirectoryIs(start, kept', rxs[slot := s.rx], s.disk)
  {
    hide BigEndian;
    hide InUse;
    var rx, rxs' := rxs[slot], rxs[slot := s.rx];
    forall name
      ensures (name in s.disk <==> name in start || name in kept' || InUse(rxs', name))
      ensures name in s.disk && !InUse(rxs', name) ==> s.disk[name] == if name in kept' then kept'[name] else start[name]
      ensures !(name in start && name in kept') && (InUse(rxs', name) ==> name !in start && name !in kept')
    {
      InUseAfter(rxs, slot, s.rx, name);
      SlotUses(rxs, slot);
    }
  }

  lemma SlotUses(rxs: seq<Rx>, slot: nat)
    requires slot < |rxs|
    ensures rxs[slot].active ==> InUse(rxs, rxs[slot].localName)
  {
  }

  lemma KeptOneMore(notes: seq<Note>, note: Note)
    ensures KeptFiles(notes + [note]) == if note.Kept? then KeptFiles(notes)[note.name := note.content] else KeptFiles(notes)
  {
    assert (notes + [note])[..|notes|] == notes;
  }

  lemma HappenKeepsInv(h: HashFn, start: Disk, m: Hall, e: SlotEvent)
    requires |m.since| == |m.rxs| && HallInv(h, start, m)
    ensures HallInv(h, start, Happen(h, m, e))
  {
    hide Apply;
    hide Touches;
    hide RxInv;
    hide KeptFiles;
    hide DirectoryIs;
    hide Distinct;
    if e.slot >= |m.rxs| {
      KeptOneMore(m.notes, Ignored);
    } else {
      var rx := m.rxs[e.slot];
      var s := Apply(h, rx, m.disk, e.ev);
      ApplyTouches(h, rx, m.disk, e.ev);
      KeptOneMore(m.notes, s.note);
      StillDistinct(m.rxs, m.disk, e.slot, s);
      DirectoryAfter(start, KeptFiles(m.notes), m.rxs, m.disk, e.slot, s, KeptFiles(m.notes + [s.note]));
      forall i | 0 <= i < |m.rxs| && i != e.slot ensures RxInv(m.rxs[i], s.disk) {
        OthersKeepInv(m.rxs, m.disk, e.slot, s, i);
      }
    }
  }

  lemma EmptyInv(h: HashFn, n: nat, start: Disk)
    ensures HallInv(h, start, Empty(n, start))
  {
  }

  /** Receiver safety over every run of any number of slots: each active transfer has on disk exactly what it has counted
      and hashed, fewer bytes than announced, in a file of its own; and the directory is what it was before, untouched, plus
      the verified files, plus the files in progress: everything else has been unlinked. */
  lemma {:induction false} ReceiverSafety(h: HashFn, n: nat, start: Disk, events: seq<SlotEvent>)
    ensures HallInv(h, start, RunHall(h, n, start, events)) && |RunHall(h, n, start, events).notes| == |events|
  {
    hide HallInv;
    if events == [] {
      EmptyInv(h, n, start);
    } else {
      var k := |events| - 1;
      ReceiverSafety(h, n, start, events[..k]);
      HappenKeepsInv(h, start, RunHall(h, n, start, events[..k]), events[k]);
    }
  }

  // ----- where a transfer comes from -----

  /** The bytes delivered to a slot by some events. */
  function Fed(events: seq<SlotEvent>, slot: nat): (b: seq<Byte>) {
    if events == [] then []
    else
      var e := events[|events| - 1];
      Fed(events[..|events| - 1], slot) + if e.slot == slot && e.ev.Deliver? && e.ev.pt.Some? then e.ev.pt.value else []
  }

  /** The event announces a file of this size and hash, under a name that becomes this one. */
  ghost predicate Announces(e: SlotEvent, slot: nat, name: seq<Byte>, size: nat, hash: seq<Byte>) {
    && e.slot == slot && e.ev.Deliver? && e.ev.pt.Some? && MetadataShaped(e.ev.pt.value)
    && var p, a := e.ev.pt.value, e.ev.a;
       var safe := Sanitize(NameField(p), 256, a.nameRnd);
       && SizeField(p) == size && HashField(p) == hash
       && (name == LocalName(safe) || name == FallbackName(safe, a.openRnd))
  }

  /** From event j on, a transfer at this slot: announced at j, then neither started, dropped nor kept again. */
  ghost predicate Ongoing(events: seq<SlotEvent>, notes: seq<Note>, slot: nat, j: nat, name: seq<Byte>, size: nat, hash: seq<Byte>) {
    && j < |events| == |notes|
    && Announces(events[j], slot, name, size, hash) && notes[j] == Started(name)
    && (forall k :: j < k < |notes| && events[k].slot == slot ==> notes[k].Progress? || notes[k].Ignored?)
  }

  /** What every active slot can show for itself. */
  ghost predicate HasOrigin(events: seq<SlotEvent>, m: Hall, slot: nat)
    requires slot < |m.rxs| == |m.since|
  {
    var rx, j := m.rxs[slot], m.since[slot];
    rx.active ==>
      && Ongoing(events, m.notes, slot, j, rx.localName, rx.expectedSize, rx.expectedHash)
      && rx.localName in m.disk && m.disk[rx.localName] == Fed(events[j + 1..], slot)
  }

  /** The three ways an event can leave a slot's transfer. */
  lemma EventAtSlot(h: HashFn, rx: Rx, disk: Disk, e: SlotEvent)
    requires RxInv(rx, disk)
    ensures var s := Apply(h, rx, disk, e.ev);
            var fed := if e.ev.Deliver? && e.ev.pt.Some? then e.ev.pt.value else [];
            && (s.note.Started? ==>
                  !rx.active && s.rx.active && s.note.name == s.rx.localName &&
                  Announces(e, e.slot, s.rx.localName, s.rx.expectedSize, s.rx.expectedHash) &&
                  s.rx.localName in s.disk && s.disk[s.rx.localName] == [])
            && (s.rx.active && !s.note.Started? ==>
                  rx.active && (s.note.Progress? || s.note.Ignored?) && s.rx.localName == rx.localName &&
                  s.rx.expectedSize == rx.expectedSize && s.rx.expectedHash == rx.expectedHash &&
                  rx.localName in disk && rx.localName in s.disk && s.disk[rx.localName] == disk[rx.localName] + fed)
            && (s.note.Kept? ==>
                  rx.active && s.note.name == rx.localName && s.note.size == rx.expectedSize && s.note.hash == rx.expectedHash &&
                  rx.localName in disk && s.note.size <= |disk[rx.localName] + fed| &&
                  s.note.content == (disk[rx.localName] + fed)[..s.note.size])
  {
    hide Sanitize;
    hide CString;
    hide FromBigEndian;
    hide BigEndian;
    if rx.active { assert disk[rx.localName] + [] == disk[rx.localName]; }
  }

  lemma OngoingOn(events: seq<SlotEvent>, notes: seq<Note>, slot: nat, j: nat, name: seq<Byte>, size: nat, hash: seq<Byte>,
                  e: SlotEvent, note: Note)
    requires Ongoing(events, notes, slot, j, name, size, hash)
    requires e.slot == slot ==> note.Progress? || note.Ignored?
    ensures Ongoing(events + [e], notes + [note], slot, j, name, size, hash)
  {
    hide Announces;
  }

  lemma OngoingStarts(events: seq<SlotEvent>, notes: seq<Note>, slot: nat, name: seq<Byte>, size: nat, hash: seq<Byte>, e: SlotEvent)
    requires |events| == |notes| && Announces(e, slot, name, size, hash)
    ensures Ongoing(events + [e], notes + [Started(name)], slot, |events|, name, size, hash)
  {
    hide Announces;
  }

  lemma FedOn(events: seq<SlotEvent>, j: nat, slot: nat, e: SlotEvent)
    requires j <= |events|
    ensures Fed((events + [e])[j..], slot) ==
            Fed(events[j..], slot) + if e.slot == slot && e.ev.Deliver? && e.ev.pt.Some? then e.ev.pt.value else []
    ensures Fed([], slot) == [] && (events + [e])[|events| + 1..] == []
  {
    var all := (events + [e])[j..];
    assert all == events[j..] + [e];
    assert all[..|all| - 1] == events[j..] && all[|all| - 1] == e;
  }

  lemma OriginAtSlot(h: HashFn, m: Hall, events: seq<SlotEvent>, e: SlotEvent)
    requires e.slot < |m.rxs| == |m.since| && |events| == |m.notes|
    requires RxInv(m.rxs[e.slot], m.disk) && HasOrigin(events, m, e.slot)
    ensures HasOrigin(events + [e], Happen(h, m, e), e.slot)
  {
    hide Apply;
    hide RxInv;
    hide Announces;
    hide Ongoing;
    hide Fed;
    var rx, j := m.rxs[e.slot], m.since[e.slot];
    var s := Apply(h, rx, m.disk, e.ev);
    EventAtSlot(h, rx, m.disk, e);
    if s.note.Started? {
      OngoingStarts(events, m.notes, e.slot, s.rx.localName, s.rx.expectedSize, s.rx.expectedHash, e);
      FedOn(events, 0, e.slot, e);
    } else if s.rx.active {
      OngoingOn(events, m.notes, e.slot, j, rx.localName, rx.expectedSize, rx.expectedHash, e, s.note);
      OngoingInRange(events, m.notes, e.slot, j, rx.localName, rx.expectedSize, rx.expectedHash);
      FedOn(events, j + 1, e.slot, e);
    }
  }

  lemma OngoingInRange(events: seq<SlotEvent>, notes: seq<Note>, slot: nat, j: nat, name: seq<Byte>, size: nat, hash: seq<Byte>)
    requires Ongoing(events, notes, slot, j, name, size, hash)
    ensures j < |events|
  {
  }

  lemma OriginElsewhere(h: HashFn, start: Disk, m: Hall, events: seq<SlotEvent>, e: SlotEvent, i: nat)
    requires i < |m.rxs| == |m.since| && i != e.slot && |events| == |m.notes|
    requires HallInv(h, start, m) && HasOrigin(events, m, i)
    ensures HasOrigin(events + [e], Happen(h, m, e), i)
  {
    hide Apply;
    hide RxInv;
    hide Announces;
    hide Ongoing;
    hide Fed;
    hide KeptFiles;
    hide DirectoryIs;
    var rx, j := m.rxs[i], m.since[i];
    if rx.active {
      var note := if e.slot < |m.rxs| then Apply(h, m.rxs[e.slot], m.disk, e.ev).note else Ignored;
      OngoingOn(events, m.notes, i, j, rx.localName, rx.expectedSize, rx.expectedHash, e, note);
      OngoingInRange(events, m.notes, i, j, rx.localName, rx.expectedSize, rx.expectedHash);
      FedOn(events, j + 1, i, e);
      if e.slot < |m.rxs| {
        ApplyTouches(h, m.rxs[e.slot], m.disk, e.ev);
        assert !(m.rxs[e.slot].active && rx.localName == m.rxs[e.slot].localName);
      }
    }
  }

  /** In every run, every transfer in progress was announced by METADATA, and has stored exactly what was delivered since. */
  lemma {:induction false} EveryTransferHasOrigin(h: HashFn, n: nat, start: Disk, events: seq<SlotEvent>, i: nat)
    requires i < n
    ensures HasOrigin(events, RunHall(h, n, start, events), i)
    decreases |events|
  {
    hide HasOrigin;
    hide Happen;
    hide HallInv;
    if events == [] {
      EmptyHasOrigin(n, start, i);
    } else {
      var k := |events| - 1;
      var before, e := events[..k], events[k];
      var m := RunHall(h, n, start, before);
      assert events == before + [e];
      EveryTransferHasOrigin(h, n, start, before, i);
      ReceiverSafety(h, n, start, before);
      if e.slot == i {
        InvAt(h, start, m, i);
        OriginAtSlot(h, m, before, e);
      } else {
        OriginElsewhere(h, start, m, before, e, i);
      }
    }
  }

  lemma EmptyHasOrigin(n: nat, start: Disk, i: nat)
    requires i < n
    ensures HasOrigin([], Empty(n, start), i)
  {
  }

  lemma InvAt(h: HashFn, start: Disk, m: Hall, i: nat)
    requires HallInv(h, start, m) && i < |m.rxs|
    ensures RxInv(m.rxs[i], m.disk)
  {
  }

  lemma HappenNotes(h: HashFn, m: Hall, e: SlotEvent)
    requires |m.since| == |m.rxs|
    ensures var notes := Happen(h, m, e).notes;
            && |notes| == |m.notes| + 1 && notes[..|m.notes|] == m.notes
            && notes[|m.notes|] == if e.slot < |m.rxs| then Apply(h, m.rxs[e.slot], m.disk, e.ev).note else Ignored
  {
    hide Apply;
  }

  lemma {:induction false} NotesOfPrefix(h: HashFn, n: nat, start: Disk, events: seq<SlotEvent>, k: nat)
    requires k <= |events|
    ensures |RunHall(h, n, start, events).notes| == |events|
    ensures RunHall(h, n, start, events).notes[..k] == RunHall(h, n, start, events[..k]).notes
    decreases |events|
  {
    hide Happen;
    if k == |events| {
      assert events[..k] == events;
    }
    if events != [] {
      var last := |events| - 1;
      HappenNotes(h, RunHall(h, n, start, events[..last]), events[last]);
      NotesOfPrefix(h, n, start, events[..last], if k < last then k else last);
      if k < |events| { assert events[..last][..k] == events[..k]; }
      TakeLess(RunHall(h, n, start, events).notes, last, k);
    }
  }

  lemma TakeLess(notes: seq<Note>, n: nat, k: nat)
    requires n <= |notes|
    ensures k <= n ==> notes[..n][..k] == notes[..k]
    ensures notes[..|notes|] == notes
  {
  }

  /** A file kept at event k is the file announced at event j of the same slot: its size and hash are those of that METADATA,
      its name comes from it, its content is the first `size` bytes delivered to the slot since, the hash over size and
      content is the announced one, and in between the slot neither started, dropped nor kept anything. */
  lemma KeptAsAnnounced(h: HashFn, n: nat, start: Disk, events: seq<SlotEvent>, k: nat) returns (j: nat)
    requires k < |events| && k < |RunHall(h, n, start, events).notes| && RunHall(h, n, start, events).notes[k].Kept?
    ensures var notes := RunHall(h, n, start, events).notes;
            var slot, file := events[k].slot, notes[k];
            && j < k < |notes| && Ongoing(events[..k], notes[..k], slot, j, file.name, file.size, file.hash)
            && file.size <= |Fed(events[j + 1..k + 1], slot)| && file.content == Fed(events[j + 1..k + 1], slot)[..file.size]
            && |file.content| == file.size && h(BigEndian(8, file.size) + file.content) == file.hash && !AllZero(file.hash)
  {
    hide Apply;
    hide Announces;
    hide Ongoing;
    hide Fed;
    hide RunHall;
    hide RxInv;
    hide BigEndian;
    hide Happen;
    hide HallInv;
    var before, e := events[..k], events[k];
    var m := RunHall(h, n, start, before);
    NoteAt(h, n, start, events, k);
    InvAt(h, start, m, e.slot);
    EveryTransferHasOrigin(h, n, start, before, e.slot);
    EventAtSlot(h, m.rxs[e.slot], m.disk, e);
    j := m.since[e.slot];
    var rx := m.rxs[e.slot];
    OngoingInRange(before, m.notes, e.slot, j, rx.localName, rx.expectedSize, rx.expectedHash);
    FedOn(before, j + 1, e.slot, e);
    assert (before + [e])[j + 1..] == events[j + 1..k + 1];
    assert before[j + 1..] == events[j + 1..k];
  }

  /** The note of event k. */
  lemma NoteAt(h: HashFn, n: nat, start: Disk, events: seq<SlotEvent>, k: nat)
    requires k < |events|
    ensures var m, notes := RunHall(h, n, start, events[..k]), RunHall(h, n, start, events).notes;
            && |notes| == |events| && notes[..k] == m.notes && |m.notes| == k && HallInv(h, start, m)
            && notes[k] == (if events[k].slot < n then Apply(h, m.rxs[events[k].slot], m.disk, events[k].ev).note else Ignored)
            && Verified(h, notes[k])
  {
    hide RunHall;
    hide Happen;
    hide Apply;
    hide BigEndian;
    hide DirectoryIs;
    var m := RunHall(h, n, start, events[..k]);
    NotesOfPrefix(h, n, start, events, k);
    NotesOfPrefix(h, n, start, events, k + 1);
    RunOneMore(h, n, start, events, k);
    HappenNotes(h, m, events[k]);
    ReceiverSafety(h, n, start, events[..k]);
    ReceiverSafety(h, n, start, events);
    assert RunHall(h, n, start, events).notes[..k + 1][k] == RunHall(h, n, start, events).notes[k];
  }

  lemma RunOneMore(h: HashFn, n: nat, start: Disk, events: seq<SlotEvent>, k: nat)
    requires k < |events|
    ensures RunHall(h, n, start, events[..k + 1]) == Happen(h, RunHall(h, n, start, events[..k]), events[k])
  {
    hide Happen;
    assert events[..k + 1][..k] == events[..k] && events[..k + 1][k] == events[k];
  }

  // ----- what is left behind -----

  lemma {:induction false} KeptFilesMeaning(notes: seq<Note>, name: seq<Byte>) returns (k: nat)
    ensures name in KeptFiles(notes) <==> exists i :: 0 <= i < |notes| && notes[i].Kept? && notes[i].name == name
    ensures name in KeptFiles(notes) ==>
              k < |notes| && notes[k].Kept? && notes[k].name == name && notes[k].content == KeptFiles(notes)[name]
  {
    k := 0;
    if notes != [] {
      var last := |notes| - 1;
      var i := KeptFilesMeaning(notes[..last], name);
      k := if notes[last].Kept? && notes[last].name == name then last else i;
      assert forall i :: 0 <= i < last ==> notes[..last][i] == notes[i];
    }
  }

  ghost predicate AllIdle(m: Hall) {
    forall i :: 0 <= i < |m.rxs| ==> !m.rxs[i].active
  }

  /** Once no slot is receiving, the new files in the directory are exactly the files kept: each, as event k kept it, is as
      METADATA at event j announced it. */
  lemma InactiveMeansVerified(h: HashFn, n: nat, start: Disk, events: seq<SlotEvent>, name: seq<Byte>) returns (k: nat, j: nat)
    requires AllIdle(RunHall(h, n, start, events)) && name !in start
    ensures var m := RunHall(h, n, start, events);
            name in m.disk <==> exists i :: 0 <= i < |m.notes| && m.notes[i].Kept? && m.notes[i].name == name
    ensures var m := RunHall(h, n, start, events);
            name in m.disk ==>
              && j < k < |events| == |m.notes|
              && m.notes[k] == Kept(name, m.disk[name], |m.disk[name]|, h(BigEndian(8, |m.disk[name]|) + m.disk[name]))
              && Announces(events[j], events[k].slot, name, |m.disk[name]|, m.notes[k].hash)
  {
    hide RunHall;
    hide Announces;
    hide RxInv;
    hide BigEndian;
    hide Fed;
    ReceiverSafety(h, n, start, events);
    var m := RunHall(h, n, start, events);
    assert !InUse(m.rxs, name);
    k := KeptFilesMeaning(m.notes, name);
    j := 0;
    if name in m.disk {
      j := KeptAsAnnounced(h, n, start, events, k);
      assert events[..k][j] == events[j];
    }
  }
}
