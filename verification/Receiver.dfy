/**
 The receiving side of a file transfer: METADATA, chunks, abort, verification, chunk timeout and
 cleanup (src/file_transfer.c:487-821, src/event_loop.c:710-731). The downloads directory is a map
 from names to contents; the streaming hash is a function of the bytes fed to it.
 */
module Receiver {
  import opened Bytes
  import opened FileName

  type Disk = map<seq<Byte>, seq<Byte>>
  type HashFn = seq<Byte> -> seq<Byte>

  const MAX_FILE_SIZE: nat := 100 * 1024 * 1024 * 1024
  const METADATA_LEN: nat := 305
  const CHUNK_TIMEOUT: int := 60
  /** "METADATA" and its terminator. */
  const MARK: seq<Byte> := [77, 69, 84, 65, 68, 65, 84, 65, 0]

  /** struct file_rx_state */
  datatype Rx = Rx(active: bool, localName: seq<Byte>, expectedSize: nat, received: nat,
                   expectedHash: seq<Byte>, hashed: seq<Byte>, lastChunk: int)

  /** The zeroed struct. */
  const BLANK: Rx := Rx(false, [], 0, 0, [], [], 0)

  /** What the operating system answers while one frame is handled. */
  datatype Answers = Answers(statOk: bool, avail: nat, dirOk: bool, openOk: bool, writeOk: bool,
                             hashOk: bool, nameRnd: nat, openRnd: nat, now: int)

  datatype Note =
    | Ignored
    | Refused
    | Started(name: seq<Byte>)
    | Progress
    | Kept(name: seq<Byte>, content: seq<Byte>, size: nat, hash: seq<Byte>)
    | Dropped

  datatype Step = Step(rx: Rx, disk: Disk, note: Note)

  predicate MetadataShaped(p: seq<Byte>) {
    |p| == METADATA_LEN && p[..9] == MARK
  }

  /** The announced name: up to 255 bytes, stopped at the first NUL. */
  function NameField(p: seq<Byte>): (n: seq<Byte>)
    requires |p| == METADATA_LEN
  {
    CString(p[9..264] + [0])
  }

  function SizeField(p: seq<Byte>): (n: nat)
    requires |p| == METADATA_LEN
  {
    FromBigEndian(p[265..273])
  }

  function HashField(p: seq<Byte>): (h: seq<Byte>)
    requires |p| == METADATA_LEN
    ensures |h| == 32
  {
    p[273..305]
  }

  /** open_recv_file: O_CREAT|O_EXCL on the plain name, then once on a randomised one. */
  function OpenName(disk: Disk, safe: seq<Byte>, a: Answers): (n: Option<seq<Byte>>)
    ensures n.Some? ==> n.value !in disk && n.value != []
  {
    if SLASH in safe || BACKSLASH in safe || !a.dirOk then None
    else
      var first := LocalName(safe);
      if |first| >= LOCAL_NAME_SIZE then None
      else if first !in disk then (if a.openOk then Some(first) else None)
      else
        var second := FallbackName(safe, a.openRnd);
        if |second| >= LOCAL_NAME_SIZE || second in disk || !a.openOk then None else Some(second)
  }

  function Unlink(disk: Disk, name: seq<Byte>): (d: Disk) {
    if name == [] then disk else disk - {name}
  }

  lemma UnlinkForgets(disk: Disk, name: seq<Byte>, content: seq<Byte>)
    requires name != []
    ensures Unlink(disk[name := content], name) == Unlink(disk, name)
  {
  }

  function AbortRx(rx: Rx, disk: Disk): (s: Step) {
    Step(BLANK, Unlink(disk, rx.localName), Dropped)
  }

  function StartRx(disk: Disk, p: seq<Byte>, rx: Rx, a: Answers): (s: Step)
    requires |p| == METADATA_LEN
  {
    var size := SizeField(p);
    if size == 0 || size > MAX_FILE_SIZE || !a.statOk || a.avail < size + size / 10 then Step(rx, disk, Refused)
    else if AllZero(HashField(p)) then Step(rx, disk, Refused)
    else
      var name := OpenName(disk, Sanitize(NameField(p), 256, a.nameRnd), a);
      if name.None? then Step(BLANK, disk, Refused)
      else if !a.hashOk then Step(BLANK, Unlink(disk[name.value := []], name.value), Dropped)
      else
        Step(Rx(true, name.value, size, 0, HashField(p), BigEndian(8, size), a.now),
             disk[name.value := []], Started(name.value))
  }

  /** The content of the file being received (empty if it is not there). */
  function Content(disk: Disk, name: seq<Byte>): (c: seq<Byte>) {
    if name in disk then disk[name] else []
  }

  function ChunkRx(h: HashFn, rx: Rx, disk: Disk, p: seq<Byte>, a: Answers): (s: Step) {
    if rx.received > rx.expectedSize then AbortRx(rx, disk)
    else
      var remaining := rx.expectedSize - rx.received;
      if remaining == 0 || !a.writeOk || !a.hashOk then AbortRx(rx, disk)
      else
        StoreRx(h, rx, disk, if |p| > remaining then p[..remaining] else p, a.now)
  }

  /** The bytes are on disk and hashed: wait for more, or verify. */
  function StoreRx(h: HashFn, rx: Rx, disk: Disk, data: seq<Byte>, now: int): (s: Step) {
    var content := Content(disk, rx.localName) + data;
    var disk' := disk[rx.localName := content];
    var hashed := rx.hashed + data;
    if rx.received + |data| < rx.expectedSize then
      Step(rx.(received := rx.received + |data|, hashed := hashed, lastChunk := now), disk', Progress)
    else if h(hashed) == rx.expectedHash then
      Step(BLANK, disk', Kept(rx.localName, content, rx.expectedSize, rx.expectedHash))
    else Step(BLANK, Unlink(disk', rx.localName), Dropped)
  }

  /** file_transfer_handle_rx after noise_decrypt; None is a failed or empty decryption. */
  function RxStep(h: HashFn, rx: Rx, disk: Disk, pt: Option<seq<Byte>>, a: Answers): (s: Step) {
    match pt
    case None => if rx.active then AbortRx(rx, disk) else Step(rx, disk, Ignored)
    case Some(p) =>
      if MetadataShaped(p) then (if rx.active then AbortRx(rx, disk) else StartRx(disk, p, rx, a))
      else if rx.active then ChunkRx(h, rx, disk, p, a)
      else Step(rx, disk, Ignored)
  }

  /** file_transfer_chunk_expired */
  predicate Expired(last: int, now: int) {
    now - last > CHUNK_TIMEOUT
  }

  datatype RxEvent = Deliver(pt: Option<seq<Byte>>, a: Answers) | Tick(now: int) | Cleanup

  function Apply(h: HashFn, rx: Rx, disk: Disk, e: RxEvent): (s: Step) {
    match e
    case Deliver(pt, a) => RxStep(h, rx, disk, pt, a)
    case Tick(now) => if rx.active && Expired(rx.lastChunk, now) then AbortRx(rx, disk) else Step(rx, disk, Ignored)
    case Cleanup => if rx.active then AbortRx(rx, disk) else Step(rx, disk, Ignored)
  }

  // ----- what every event keeps -----

  /** An active transfer has on disk exactly the bytes counted and hashed so far, fewer than announced. */
  ghost predicate RxInv(rx: Rx, disk: Disk) {
    rx.active ==>
      && rx.localName in disk && rx.localName != []
      && |disk[rx.localName]| == rx.received < rx.expectedSize <= MAX_FILE_SIZE
      && rx.hashed == BigEndian(8, rx.expectedSize) + disk[rx.localName]
      && |rx.expectedHash| == 32 && !AllZero(rx.expectedHash)
  }

  /** A kept file has the announced size and the announced, non-zero hash over size and content. */
  ghost predicate Verified(h: HashFn, n: Note) {
    n.Kept? ==> |n.content| == n.size <= MAX_FILE_SIZE && h(BigEndian(8, n.size) + n.content) == n.hash && !AllZero(n.hash)
  }

  /** One event keeps the invariant and touches nothing but the file in progress. */
  lemma ApplyKeepsInv(h: HashFn, rx: Rx, disk: Disk, e: RxEvent)
    requires RxInv(rx, disk)
    ensures var s := Apply(h, rx, disk, e);
            RxInv(s.rx, s.disk) && Verified(h, s.note) && (s.note.Kept? ==> rx.active && s.note.name == rx.localName)
    ensures var s := Apply(h, rx, disk, e);
            forall n :: n in disk && !(rx.active && n == rx.localName) ==> n in s.disk && s.disk[n] == disk[n]
    ensures var s := Apply(h, rx, disk, e);
            forall n :: n in s.disk && n !in disk ==> s.rx.active && n == s.rx.localName
    ensures var s := Apply(h, rx, disk, e); s.rx.active ==> if rx.active then s.rx.localName == rx.localName else s.rx.localName !in disk
    ensures var s := Apply(h, rx, disk, e);
            rx.active && !s.rx.active ==>
              if s.note.Kept? then rx.localName in s.disk && s.disk[rx.localName] == s.note.content else rx.localName !in s.disk
  {
    hide Sanitize;
    hide CString;
    hide FromBigEndian;
    hide BigEndian;
    if e.Deliver? && e.pt.Some? && rx.active && !MetadataShaped(e.pt.value) {
      ChunkKeepsInv(h, rx, disk, e.pt.value, e.a);
    }
  }

  lemma ChunkKeepsInv(h: HashFn, rx: Rx, disk: Disk, p: seq<Byte>, a: Answers)
    requires RxInv(rx, disk) && rx.active
    ensures var s := ChunkRx(h, rx, disk, p, a); RxInv(s.rx, s.disk) && Verified(h, s.note)
  {
    hide BigEndian;
    var remaining := rx.expectedSize - rx.received;
    var data := if |p| > remaining then p[..remaining] else p;
    var c := disk[rx.localName];
    assert BigEndian(8, rx.expectedSize) + (c + data) == (BigEndian(8, rx.expectedSize) + c) + data;
  }

  // ----- the handler as it updates its fields -----

  class FileReceiver {
    const hash: HashFn
    var active: bool
    var localName: seq<Byte>
    var expectedSize: nat
    var received: nat
    var expectedHash: seq<Byte>
    var hashed: seq<Byte>
    var lastChunk: int
    var disk: Disk

    ghost function Fields(): (r: Rx)
      reads this
    {
      Rx(active, localName, expectedSize, received, expectedHash, hashed, lastChunk)
    }

    /** An active transfer has a file to remove. */
    ghost predicate Named()
      reads this
    {
      active ==> localName != []
    }

    constructor (h: HashFn, d: Disk)
      ensures hash == h && disk == d && Fields() == BLANK
    {
      hash, disk := h, d;
      active, localName, expectedSize, received, expectedHash, hashed, lastChunk := false, [], 0, 0, [], [], 0;
    }

    /** sodium_memzero(&ps->rx_file) */
    method Zero()
      modifies this
      ensures Fields() == BLANK && disk == old(disk)
    {
      active, localName, expectedSize, received, expectedHash, hashed, lastChunk := false, [], 0, 0, [], [], 0;
    }

    /** The shared exit: remove the half-written file, zero the struct. */
    method AbortTransfer()
      modifies this
      ensures Fields() == BLANK && disk == Unlink(old(disk), old(localName))
    {
      if localName != [] { disk := disk - {localName}; }
      Zero();
    }

    method HandleMetadata(p: seq<Byte>, a: Answers) returns (note: Note)
      requires |p| == METADATA_LEN && !active
      modifies this
      ensures Named()
      ensures Step(Fields(), disk, note) == StartRx(old(disk), p, old(Fields()), a)
    {
      hide Sanitize;
      hide CString;
      hide FromBigEndian;
      hide BigEndian;
      var safe := Sanitize(NameField(p), 256, a.nameRnd);
      var netSize := SizeField(p);
      if netSize == 0 || netSize > MAX_FILE_SIZE { return Refused; }
      if !a.statOk { return Refused; }
      var required := netSize + netSize / 10;
      if a.avail < required { return Refused; }
      var fileHash := HashField(p);
      if AllZero(fileHash) { return Refused; }
      Zero();
      var created := OpenName(disk, safe, a);
      if created.None? { return Refused; }
      disk := disk[created.value := []];
      localName := created.value;
      active, expectedSize, received, lastChunk, expectedHash := true, netSize, 0, a.now, fileHash;
      if !a.hashOk {
        AbortTransfer();
        return Dropped;
      }
      hashed := BigEndian(8, netSize);
      return Started(localName);
    }

    /** The last byte has arrived: keep the file if its hash is the announced one. */
    method Finish() returns (note: Note)
      requires active && localName in disk
      modifies this
      ensures Fields() == BLANK
      ensures if hash(old(hashed)) == old(expectedHash)
              then disk == old(disk) && note == Kept(old(localName), old(disk[localName]), old(expectedSize), old(expectedHash))
              else disk == Unlink(old(disk), old(localName)) && note == Dropped
    {
      if hash(hashed) == expectedHash {
        note := Kept(localName, disk[localName], expectedSize, expectedHash);
      } else {
        disk := Unlink(disk, localName);
        note := Dropped;
      }
      Zero();
    }

    method HandleChunk(p: seq<Byte>, a: Answers) returns (note: Note)
      requires active && Named()
      modifies this
      ensures Named()
      ensures Step(Fields(), disk, note) == ChunkRx(hash, old(Fields()), old(disk), p, a)
    {
      hide StoreRx;
      if received > expectedSize || received == expectedSize || !a.writeOk {
        AbortTransfer();
        return Dropped;
      }
      var remaining := expectedSize - received;
      var data := if |p| > remaining then p[..remaining] else p;
      if !a.hashOk {
        WriteData(data);
        UnlinkForgets(old(disk), localName, disk[localName]);
        AbortTransfer();
        return Dropped;
      }
      note := StoreData(data, a.now);
    }

    /** write_to_file */
    method WriteData(data: seq<Byte>)
      modifies this`disk
      ensures disk == old(disk)[localName := Content(old(disk), localName) + data]
    {
      disk := disk[localName := Content(disk, localName) + data];
    }

    method StoreData(data: seq<Byte>, now: int) returns (note: Note)
      requires active && Named()
      modifies this
      ensures Named()
      ensures Step(Fields(), disk, note) == StoreRx(hash, old(Fields()), old(disk), data, now)
    {
      hide Unlink;
      WriteData(data);
      hashed := hashed + data;
      received := received + |data|;
      lastChunk := now;
      if received < expectedSize { return Progress; }
      note := Finish();
    }

    /** file_transfer_handle_rx after decryption. */
    method HandleRx(pt: Option<seq<Byte>>, a: Answers) returns (note: Note)
      requires Named()
      modifies this
      ensures Named()
      ensures Step(Fields(), disk, note) == RxStep(hash, old(Fields()), old(disk), pt, a)
    {
      if pt.None? {
        if !active { return Ignored; }
        AbortTransfer();
        return Dropped;
      }
      var p := pt.value;
      if MetadataShaped(p) {
        if active {
          AbortTransfer();
          return Dropped;
        }
        note := HandleMetadata(p, a);
      } else if active {
        note := HandleChunk(p, a);
      } else {
        note := Ignored;
      }
    }

    /** The chunk-timeout sweep of the event loop. */
    method Sweep(now: int) returns (note: Note)
      requires Named()
      modifies this
      ensures Named()
      ensures Step(Fields(), disk, note) == Apply(hash, old(Fields()), old(disk), Tick(now))
    {
      note := Ignored;
      if active && Expired(lastChunk, now) {
        AbortTransfer();
        note := Dropped;
      }
    }

    /** file_transfer_cleanup and the slot cleanup, for one slot. */
    method CleanUp() returns (note: Note)
      requires Named()
      modifies this
      ensures Named()
      ensures Step(Fields(), disk, note) == Apply(hash, old(Fields()), old(disk), Cleanup)
    {
      note := Ignored;
      if active {
        AbortTransfer();
        note := Dropped;
      }
    }
  }
}
