/**
 The secure bump arena (src/arena.c:80-135, 201-233, 381-442, 468-512, 669-727) on values: what initialisation
 establishes and what every run of allocations, writes and restores keeps.
 */
module Arena {
  import opened Bytes
  import opened Bits

  const CANARY_LEN: nat := 16

  // ----- page arithmetic -----

  /** page_align: 0 signals an error. */
  function PageAlign(size: nat, page: nat): (r: nat)
    requires size <= SIZE_MAX && page <= SIZE_MAX
  {
    if page == 0 || And(page, page - 1) != 0 then 0
    else if size > SIZE_MAX - (page - 1) then 0
    else And(size + page - 1, Not(page - 1))
  }

  /** Rounding gives the least page multiple, and signals an error exactly when the page size is no power of two
      or no 64-bit page multiple is large enough. */
  lemma PageAlignExactly(size: nat, page: nat)
    requires 0 < size <= SIZE_MAX && page <= SIZE_MAX
    ensures PageAlign(size, page) == 0 <==>
            page == 0 || !PowerOfTwo(page) || forall m: nat :: Multiple(m, page) && size <= m ==> m > SIZE_MAX
    ensures PageAlign(size, page) != 0 ==> page > 0 && LeastMultiple(PageAlign(size, page), size, page)
    ensures PageAlign(size, page) <= SIZE_MAX
  {
    if page > 0 {
      PowerTest(page);
      RoundUp(size, page);
      if PowerOfTwo(page) {
        if size <= SIZE_MAX - (page - 1) {
          MaskRoundsDown(size + page - 1, page);
        } else {
          TooLarge(size, page);
        }
      }
    }
  }

  lemma TooLarge(size: nat, page: nat)
    requires 0 < page <= SIZE_MAX && PowerOfTwo(page) && SIZE_MAX - (page - 1) < size
    ensures forall m: nat :: Multiple(m, page) && size <= m ==> m > SIZE_MAX
  {
    Powers();
    PowerDivides(page, SIZE_MAX + 1, 64);
    forall m: nat | Multiple(m, page) && size <= m ensures m > SIZE_MAX {
      NoneBetween(m, SIZE_MAX + 1, page);
    }
  }

  /** (size + 15) & ~15 */
  function Align16(size: nat): (r: nat)
    requires size <= SIZE_MAX - 15
  {
    And(size + 15, Not(15))
  }

  lemma Align16Is(size: nat)
    requires size <= SIZE_MAX - 15
    ensures Align16(size) % 16 == 0 && size <= Align16(size) < size + 16
  {
    hide And;
    assert PowerOfTwo(16) by { PowFour(); }
    hide Pow;
    MaskRoundsDown(size + 15, 16);
  }

  // ----- the arena -----

  /** The struct, with the bytes between the two guard pages. */
  datatype Arena = Arena(base: nat, pageSize: nat, totalSize: nat, usableSize: nat, offset: nat,
                         forkSafe: Byte, dumpSafe: Byte, canary: seq<Byte>, mem: seq<Byte>)

  /** The two values of a hardened boolean. */
  const HARD_FALSE: Byte := 0
  const HARD_TRUE: Byte := 255

  function Hard(b: bool): (h: Byte) {
    if b then HARD_TRUE else HARD_FALSE
  }

  /** arena_is_valid */
  predicate IsValid(a: Arena) {
    && a.base != 0 && a.pageSize != 0
    && And(a.pageSize, a.pageSize - 1) == 0
    && a.base % a.pageSize == 0
    && a.usableSize != 0 && a.usableSize < a.totalSize
    && a.pageSize <= SIZE_MAX / 2
    && a.totalSize >= 2 * a.pageSize
    && a.usableSize <= SIZE_MAX - CANARY_LEN
    && (a.usableSize + CANARY_LEN) % a.pageSize == 0
    && a.usableSize + CANARY_LEN <= SIZE_MAX - 2 * a.pageSize
    && a.totalSize == a.usableSize + CANARY_LEN + 2 * a.pageSize
    && a.offset <= a.usableSize
    && And(a.offset, 15) == 0
    && (a.forkSafe == HARD_FALSE || a.forkSafe == HARD_TRUE)
    && (a.dumpSafe == HARD_FALSE || a.dumpSafe == HARD_TRUE)
  }

  /** arena_check_canary does not abort. */
  predicate CanaryIntact(a: Arena) {
    && IsValid(a) && |a.mem| >= a.usableSize + CANARY_LEN
    && a.mem[a.usableSize..a.usableSize + CANARY_LEN] == a.canary
  }

  /** What the kernel and the random source deliver: page size, address of the mapping (if any), whether it can be
      protected (both guard pages, and the lock where that is compulsory), the two pieces of advice, canary bytes. */
  datatype Setup = Setup(page: nat, mapping: Option<nat>, guarded: bool, noFork: bool, noDump: bool, canary: seq<Byte>)

  /** A page size is 0 or a positive long, and mappings are page aligned and not null. */
  predicate SetupOk(k: Setup) {
    && k.page <= SIZE_MAX / 2 && |k.canary| == CANARY_LEN
    && (k.mapping.Some? && k.page > 0 ==> k.mapping.value > 0 && k.mapping.value % k.page == 0)
  }

  /** Refused leaves the struct alone; Emptied gives the mapping back and zeroes the struct. */
  datatype InitResult = Refused | Emptied | Made(a: Arena)

  /** arena_init */
  function Init(size: nat, k: Setup): (r: InitResult)
    requires size <= SIZE_MAX && SetupOk(k)
  {
    if size == 0 || k.page == 0 || size > SIZE_MAX - CANARY_LEN then Refused
    else
      var usable := PageAlign(size + CANARY_LEN, k.page);
      PageAlignExactly(size + CANARY_LEN, k.page);
      if usable == 0 || usable > SIZE_MAX - 2 * k.page || k.mapping.None? then Refused
      else if !k.guarded then Emptied
      else
        Made(Arena(k.mapping.value, k.page, k.page + usable + k.page, usable - CANARY_LEN, 0, Hard(k.noFork), Hard(k.noDump),
                   k.canary, Zeros(usable - CANARY_LEN) + k.canary))
  }

  /** There is room for the request, the canary and both guard pages in the address space. */
  ghost predicate Fits(size: nat, page: nat) {
    page > 0 && PowerOfTwo(page) && exists m: nat :: Multiple(m, page) && size + CANARY_LEN <= m <= SIZE_MAX - 2 * page
  }

  /** A mapping is used exactly when the size is not zero, the layout fits and a mapping is given; initialisation then
      succeeds exactly when it can be protected. The result is valid, holds at least the request and wastes less than a page. */
  lemma InitIsValid(size: nat, k: Setup)
    requires size <= SIZE_MAX && SetupOk(k)
    ensures !Init(size, k).Refused? <==> size > 0 && k.mapping.Some? && Fits(size, k.page)
    ensures Init(size, k).Made? <==> !Init(size, k).Refused? && k.guarded
    ensures Init(size, k).Made? ==>
              var a := Init(size, k).a;
              && Ready(a) && a.offset == 0 && a.base == k.mapping.value && a.canary == k.canary
              && LeastMultiple(a.usableSize + CANARY_LEN, size + CANARY_LEN, k.page)
  {
    if size > 0 && k.page > 0 && size <= SIZE_MAX - CANARY_LEN {
      hide PageAlign;
      PageAlignExactly(size + CANARY_LEN, k.page);
      PowerTest(k.page);
      var usable := PageAlign(size + CANARY_LEN, k.page);
      if Fits(size, k.page) {
        var m: nat :| Multiple(m, k.page) && size + CANARY_LEN <= m <= SIZE_MAX - 2 * k.page;
        assert usable != 0;
      }
      if !Init(size, k).Refused? { assert Multiple(usable, k.page); }
      if Init(size, k).Made? { ReadyAtStart(size, k); }
    }
  }

  lemma ReadyAtStart(size: nat, k: Setup)
    requires size <= SIZE_MAX && SetupOk(k) && Init(size, k).Made? && PowerOfTwo(k.page)
    requires LeastMultiple(Init(size, k).a.usableSize + CANARY_LEN, size + CANARY_LEN, k.page)
    ensures Ready(Init(size, k).a)
  {
    hide PageAlign;
    PowerTest(k.page);
    var a := Init(size, k).a;
    assert a.mem[a.usableSize..a.usableSize + CANARY_LEN] == k.canary;
  }

  /** Valid, the canary in place, and nothing but zeros in the part not handed out. */
  ghost predicate Ready(a: Arena) {
    && IsValid(a) && |a.mem| == a.usableSize + CANARY_LEN
    && a.mem[a.usableSize..] == a.canary
    && (forall i :: a.offset <= i < a.usableSize ==> a.mem[i] == 0)
  }

  datatype AllocResult = Aborted | Null | Ptr(start: nat)

  /** arena_alloc; a pointer is given by its distance from the first guard page's end. */
  function Alloc(a: Arena, size: nat): (r: (Arena, AllocResult))
    requires size <= SIZE_MAX
  {
    if a.base == 0 || size == 0 then (a, Null)
    else if !CanaryIntact(a) then (a, Aborted)
    else if size > SIZE_MAX - 15 then (a, Null)
    else
      var aligned := Align16(size);
      if aligned > SIZE_MAX - a.offset || a.offset + aligned > a.usableSize then (a, Null)
      else (a.(offset := a.offset + aligned), Ptr(a.offset))
  }

  function Wipe(mem: seq<Byte>, lo: nat, hi: nat): (r: seq<Byte>)
    requires lo <= hi <= |mem|
    ensures |r| == |mem|
  {
    mem[..lo] + Zeros(hi - lo) + mem[hi..]
  }

  /** arena_restore; None is an abort, and a bad mark is ignored. */
  function Restore(a: Arena, saved: nat): (r: Option<Arena>) {
    if a.base == 0 then Some(a)
    else if !CanaryIntact(a) then None
    else if saved > a.usableSize || saved % 16 != 0 || saved >= a.offset then Some(a)
    else Some(a.(mem := Wipe(a.mem, saved, a.offset), offset := saved))
  }

  // ----- runs -----

  /** A block a client holds. */
  datatype Block = Block(start: nat, size: nat)

  datatype World = World(a: Arena, blocks: seq<Block>)

  datatype Event =
    | AllocEv(size: nat)
    | WriteEv(i: nat, at: nat, data: seq<Byte>)
    | RestoreEv(saved: nat)

  /** Blocks in address order, 16-aligned, not empty, apart from each other and ending at or below hi. */
  ghost predicate BlocksUpTo(bs: seq<Block>, hi: nat) {
    bs == [] ||
    (var b := bs[|bs| - 1]; b.size > 0 && b.start % 16 == 0 && b.start + b.size <= hi && BlocksUpTo(bs[..|bs| - 1], b.start))
  }

  /** The blocks a restore to this mark leaves whole. */
  function Survivors(bs: seq<Block>, mark: nat): (r: seq<Block>)
    ensures |r| <= |bs| && r == bs[..|r|]
  {
    if bs == [] then []
    else if bs[|bs| - 1].start + bs[|bs| - 1].size <= mark then bs else Survivors(bs[..|bs| - 1], mark)
  }

  function Put(mem: seq<Byte>, at: nat, data: seq<Byte>): (r: seq<Byte>)
    requires at + |data| <= |mem|
    ensures |r| == |mem|
  {
    mem[..at] + data + mem[at + |data|..]
  }

  /** A client writes inside a block it holds. */
  predicate InBlock(w: World, i: nat, at: nat, data: seq<Byte>) {
    i < |w.blocks| && at + |data| <= w.blocks[i].size && w.blocks[i].start + w.blocks[i].size <= |w.a.mem|
  }

  /** None: the program aborts. */
  function Step(w: World, e: Event): (w': Option<World>) {
    match e
    case AllocEv(size) =>
      if size > SIZE_MAX then Some(w)
      else
        var (a, r) := Alloc(w.a, size);
        (match r
         case Aborted => None
         case Null => Some(w)
         case Ptr(start) => Some(World(a, w.blocks + [Block(start, size)])))
    case WriteEv(i, at, data) =>
      if InBlock(w, i, at, data) then Some(w.(a := w.a.(mem := Put(w.a.mem, w.blocks[i].start + at, data)))) else Some(w)
    case RestoreEv(saved) =>
      match Restore(w.a, saved)
      case None => None
      case Some(a) => Some(World(a, Survivors(w.blocks, a.offset)))
  }

  ghost predicate Inv(w: World) {
    Ready(w.a) && BlocksUpTo(w.blocks, w.a.offset)
  }

  function Run(w: World, es: seq<Event>): (w': Option<World>)
    decreases |es|
  {
    if es == [] then Some(w)
    else
      match Step(w, es[0]) case None => None case Some(w1) => Run(w1, es[1..])
  }

  // ----- what the blocks hold -----

  function Slice(mem: seq<Byte>, b: Block): (c: seq<Byte>) {
    if b.start + b.size <= |mem| then mem[b.start..b.start + b.size] else []
  }

  function Contents(mem: seq<Byte>, bs: seq<Block>): (c: seq<seq<Byte>>)
    ensures |c| == |bs|
  {
    seq(|bs|, i requires 0 <= i < |bs| => Slice(mem, bs[i]))
  }

  /** A request is granted exactly when it is not empty and, rounded up to 16, fits. */
  predicate Granted(a: Arena, size: nat) {
    0 < size && a.offset + (size + 15) / 16 * 16 <= a.usableSize
  }

  /** The reference: a stack of independent byte strings. */
  function Expected(c: seq<seq<Byte>>, w: World, e: Event): (c': seq<seq<Byte>>)
    requires |c| == |w.blocks|
  {
    match e
    case AllocEv(size) => if Granted(w.a, size) then c + [Zeros(size)] else c
    case WriteEv(i, at, data) =>
      if InBlock(w, i, at, data) && at + |data| <= |c[i]| then c[i := Put(c[i], at, data)] else c
    case RestoreEv(saved) =>
      if saved <= w.a.offset && saved % 16 == 0 then c[..|Survivors(w.blocks, saved)|] else c
  }

  lemma {:induction false} BlockAt(bs: seq<Block>, hi: nat, i: nat)
    requires BlocksUpTo(bs, hi) && i < |bs|
    ensures bs[i].size > 0 && bs[i].start % 16 == 0 && bs[i].start + bs[i].size <= hi
  {
    if i < |bs| - 1 {
      BlockAt(bs[..|bs| - 1], bs[|bs| - 1].start, i);
      assert bs[..|bs| - 1][i] == bs[i];
    }
  }

  lemma {:induction false} BlocksApart(bs: seq<Block>, hi: nat, i: nat, j: nat)
    requires BlocksUpTo(bs, hi) && i < j < |bs|
    ensures bs[i].start + bs[i].size <= bs[j].start
  {
    var n := |bs| - 1;
    if j == n {
      BlockAt(bs[..n], bs[n].start, i);
    } else {
      BlocksApart(bs[..n], bs[n].start, i, j);
    }
    assert bs[..n][i] == bs[i] && (j < n ==> bs[..n][j] == bs[j]);
  }

  lemma {:induction false} SurvivorsUpTo(bs: seq<Block>, hi: nat, mark: nat)
    requires BlocksUpTo(bs, hi)
    ensures BlocksUpTo(Survivors(bs, mark), mark)
    ensures hi <= mark ==> Survivors(bs, mark) == bs
  {
    if bs != [] && bs[|bs| - 1].start + bs[|bs| - 1].size > mark { SurvivorsUpTo(bs[..|bs| - 1], bs[|bs| - 1].start, mark); }
  }

  lemma Aligned(x: nat)
    ensures And(x, 15) == 0 <==> x % 16 == 0
  {
    LowBits(x, 4);
    PowFour();
  }

  /** What a valid struct says about its offset. */
  lemma ValidOffset(a: Arena)
    requires IsValid(a)
    ensures a.offset <= a.usableSize <= SIZE_MAX - CANARY_LEN && a.offset % 16 == 0 && a.base != 0
  {
    hide And;
    Aligned(a.offset);
  }

  /** Another good offset and other memory keep a struct valid. */
  lemma ValidWith(a: Arena, offset: nat, mem: seq<Byte>)
    requires IsValid(a) && offset <= a.usableSize && offset % 16 == 0
    ensures IsValid(a.(offset := offset, mem := mem))
  {
    hide And;
    Aligned(offset);
  }

  lemma AllocGranted(a: Arena, size: nat)
    requires Ready(a) && size <= SIZE_MAX
    ensures Alloc(a, size) ==
            if Granted(a, size) then (a.(offset := a.offset + (size + 15) / 16 * 16), Ptr(a.offset)) else (a, Null)
  {
    hide Align16;
    hide IsValid;
    ValidOffset(a);
    assert a.mem[a.usableSize..a.usableSize + CANARY_LEN] == a.mem[a.usableSize..];
    if size <= SIZE_MAX - 15 { Align16Is(size); }
  }

  lemma AllocReady(a: Arena, size: nat)
    requires Ready(a) && Granted(a, size)
    ensures Ready(a.(offset := a.offset + (size + 15) / 16 * 16))
  {
    hide IsValid;
    ValidOffset(a);
    ValidWith(a, a.offset + (size + 15) / 16 * 16, a.mem);
  }

  lemma AllocStep(w: World, size: nat)
    requires Inv(w)
    ensures var w' := Step(w, AllocEv(size));
            && w'.Some? && Inv(w'.value)
            && Contents(w'.value.a.mem, w'.value.blocks) == Expected(Contents(w.a.mem, w.blocks), w, AllocEv(size))
  {
    hide Alloc;
    hide Ready;
    hide BlocksUpTo;
    hide Contents;
    if size <= SIZE_MAX {
      AllocGranted(w.a, size);
      if Granted(w.a, size) { AllocBlock(w, size); }
    } else {
      TooMuch(w.a, size);
    }
  }

  lemma TooMuch(a: Arena, size: nat)
    requires Ready(a) && size > SIZE_MAX
    ensures !Granted(a, size)
  {
    hide IsValid;
    ValidOffset(a);
  }

  /** A granted block: in order, and all zeros. */
  lemma AllocBlock(w: World, size: nat)
    requires Inv(w) && Granted(w.a, size)
    ensures var a, bs := w.a.(offset := w.a.offset + (size + 15) / 16 * 16), w.blocks + [Block(w.a.offset, size)];
            Ready(a) && BlocksUpTo(bs, a.offset) && Contents(w.a.mem, bs) == Contents(w.a.mem, w.blocks) + [Zeros(size)]
  {
    hide IsValid;
    AllocReady(w.a, size);
    ValidOffset(w.a);
    var b := Block(w.a.offset, size);
    var bs := w.blocks + [b];
    assert bs[..|bs| - 1] == w.blocks;
    FreshSlice(w.a, size);
    AppendContents(w.a.mem, w.blocks, b);
  }

  lemma FreshSlice(a: Arena, size: nat)
    requires Ready(a) && Granted(a, size)
    ensures Slice(a.mem, Block(a.offset, size)) == Zeros(size)
  {
    hide IsValid;
  }

  lemma AppendContents(mem: seq<Byte>, bs: seq<Block>, b: Block)
    ensures Contents(mem, bs + [b]) == Contents(mem, bs) + [Slice(mem, b)]
  {
    hide Slice;
  }

  lemma SliceLength(mem: seq<Byte>, b: Block)
    requires b.start + b.size <= |mem|
    ensures |Slice(mem, b)| == b.size
  {
  }

  lemma SlicePut(mem: seq<Byte>, b: Block, at: nat, data: seq<Byte>)
    requires b.start + b.size <= |mem| && at + |data| <= b.size
    ensures Slice(Put(mem, b.start + at, data), b) == Put(Slice(mem, b), at, data)
  {
  }

  lemma SlicePutElsewhere(mem: seq<Byte>, b: Block, at: nat, data: seq<Byte>)
    requires b.start + b.size <= |mem| && at + |data| <= |mem|
    requires b.start + b.size <= at || at + |data| <= b.start
    ensures Slice(Put(mem, at, data), b) == Slice(mem, b)
  {
  }

  lemma WriteReady(a: Arena, at: nat, data: seq<Byte>)
    requires Ready(a) && at + |data| <= a.offset
    ensures a.offset <= |a.mem| && Ready(a.(mem := Put(a.mem, at, data)))
  {
    hide IsValid;
    ValidOffset(a);
    var mem' := Put(a.mem, at, data);
    ValidWith(a, a.offset, mem');
    assert mem'[a.usableSize..] == a.mem[a.usableSize..];
  }

  lemma WriteStep(w: World, i: nat, at: nat, data: seq<Byte>)
    requires Inv(w)
    ensures var w' := Step(w, WriteEv(i, at, data));
            && w'.Some? && Inv(w'.value)
            && Contents(w'.value.a.mem, w'.value.blocks) == Expected(Contents(w.a.mem, w.blocks), w, WriteEv(i, at, data))
  {
    hide Ready;
    hide BlocksUpTo;
    hide Slice;
    hide Put;
    if InBlock(w, i, at, data) {
      var b, mem := w.blocks[i], w.a.mem;
      BlockAt(w.blocks, w.a.offset, i);
      var mem' := Put(mem, b.start + at, data);
      WriteReady(w.a, b.start + at, data);
      SlicePut(mem, b, at, data);
      SliceLength(mem, b);
      forall j | 0 <= j < |w.blocks| && j != i
        ensures Slice(mem', w.blocks[j]) == Slice(mem, w.blocks[j])
      {
        BlockAt(w.blocks, w.a.offset, j);
        if j < i { BlocksApart(w.blocks, w.a.offset, j, i); } else { BlocksApart(w.blocks, w.a.offset, i, j); }
        SlicePutElsewhere(mem, w.blocks[j], b.start + at, data);
      }
    }
  }

  lemma SliceWipe(mem: seq<Byte>, b: Block, lo: nat, hi: nat)
    requires b.start + b.size <= lo <= hi <= |mem|
    ensures Slice(Wipe(mem, lo, hi), b) == Slice(mem, b)
  {
  }

  lemma RestoreReady(a: Arena, saved: nat)
    requires Ready(a)
    ensures Restore(a, saved).Some? && Ready(Restore(a, saved).value)
    ensures Restore(a, saved).value.offset == if saved <= a.offset && saved % 16 == 0 then saved else a.offset
    ensures var a' := Restore(a, saved).value;
            a'.offset <= a.offset <= |a.mem| && a' == a.(offset := a'.offset, mem := Wipe(a.mem, a'.offset, a.offset))
  {
    hide IsValid;
    ValidOffset(a);
    assert Wipe(a.mem, a.offset, a.offset) == a.mem;
    assert a.mem[a.usableSize..a.usableSize + CANARY_LEN] == a.mem[a.usableSize..];
    if saved <= a.offset && saved % 16 == 0 {
      var mem' := Wipe(a.mem, saved, a.offset);
      ValidWith(a, saved, mem');
      assert mem'[a.usableSize..] == a.mem[a.usableSize..];
    }
  }

  lemma RestoreStep(w: World, saved: nat)
    requires Inv(w)
    ensures var w' := Step(w, RestoreEv(saved));
            && w'.Some? && Inv(w'.value)
            && Contents(w'.value.a.mem, w'.value.blocks) == Expected(Contents(w.a.mem, w.blocks), w, RestoreEv(saved))
  {
    RestoreReady(w.a, saved);
    hide Ready;
    hide Restore;
    hide BlocksUpTo;
    hide Wipe;
    var a := Restore(w.a, saved).value;
    var kept := Survivors(w.blocks, a.offset);
    SurvivorsUpTo(w.blocks, w.a.offset, a.offset);
    forall i | 0 <= i < |kept|
      ensures Slice(a.mem, kept[i]) == Slice(w.a.mem, w.blocks[i])
    {
      BlockAt(kept, a.offset, i);
      SliceWipe(w.a.mem, kept[i], a.offset, w.a.offset);
    }
  }

  /** Every event keeps the arena valid with its canary, and acts on the contents of the blocks as on a stack of
      independent byte strings: new blocks are zero, a write changes one block only, and a restore pops. */
  lemma StepRefines(w: World, e: Event)
    requires Inv(w)
    ensures Step(w, e).Some? && Inv(Step(w, e).value)
    ensures Contents(Step(w, e).value.a.mem, Step(w, e).value.blocks) == Expected(Contents(w.a.mem, w.blocks), w, e)
  {
    match e
    case AllocEv(size) => AllocStep(w, size);
    case WriteEv(i, at, data) => WriteStep(w, i, at, data);
    case RestoreEv(saved) => RestoreStep(w, saved);
  }

  /** No run aborts, and every run ends in a valid arena. */
  lemma {:induction false} RunsAreSafe(w: World, es: seq<Event>)
    requires Inv(w)
    ensures Run(w, es).Some? && Inv(Run(w, es).value)
    decreases |es|
  {
    if es != [] {
      StepRefines(w, es[0]);
      RunsAreSafe(Step(w, es[0]).value, es[1..]);
    }
  }

  /** What the invariant says about a block held: its address is 16-aligned, and it lies inside the usable part, clear of
      the canary and of both guard pages. */
  lemma BlockIsSound(w: World, i: nat)
    requires Inv(w) && i < |w.blocks| && w.a.pageSize % 16 == 0
    ensures var b, first := w.blocks[i], w.a.base + w.a.pageSize;
            && (first + b.start) % 16 == 0
            && b.start + b.size <= w.a.usableSize
            && first + b.start + b.size + CANARY_LEN <= w.a.base + w.a.totalSize - w.a.pageSize
  {
    Layout(w.a);
    assert BlocksUpTo(w.blocks, w.a.offset);
    hide Inv;
    hide BlocksUpTo;
    BlockAt(w.blocks, w.a.offset, i);
    AddressAligned(w.a.base, w.a.pageSize, w.blocks[i].start);
  }

  /** Two blocks held do not overlap. */
  lemma BlocksAreDisjoint(w: World, i: nat, j: nat)
    requires Inv(w) && i < |w.blocks| && j < |w.blocks| && i != j
    ensures w.blocks[i].start + w.blocks[i].size <= w.blocks[j].start || w.blocks[j].start + w.blocks[j].size <= w.blocks[i].start
  {
    hide BlocksUpTo;
    if i < j { BlocksApart(w.blocks, w.a.offset, i, j); } else { BlocksApart(w.blocks, w.a.offset, j, i); }
  }

  lemma Layout(a: Arena)
    requires Ready(a)
    ensures a.pageSize > 0 && a.base % a.pageSize == 0 && a.offset <= a.usableSize
    ensures a.totalSize == a.usableSize + CANARY_LEN + 2 * a.pageSize
  {
  }

  lemma AddressAligned(base: nat, page: nat, start: nat)
    requires 0 < page && base % page == 0 && page % 16 == 0 && start % 16 == 0
    ensures (base + page + start) % 16 == 0
  {
    var q, r := base / page, page / 16;
    assert base == q * page && page == r * 16;
    assert q * page == (q * r) * 16;
    ModUnique(base, 16, q * r, 0);
  }

  // ----- save and restore -----

  /** Events that leave what was there at the mark alone: n blocks and the memory below the mark. */
  predicate Above(e: Event, mark: nat, n: nat) {
    match e
    case AllocEv(_) => true
    case WriteEv(i, _, _) => i >= n
    case RestoreEv(saved) => saved >= mark
  }

  /** w' has grown out of w, which was at its mark. */
  ghost predicate GrownFrom(w: World, w': World) {
    && Inv(w) && Inv(w')
    && w.a.(offset := 0, mem := []) == w'.a.(offset := 0, mem := [])
    && w.a.offset <= w'.a.offset && w.a.mem[..w.a.offset] == w'.a.mem[..w.a.offset]
    && |w.blocks| <= |w'.blocks| && w'.blocks[..|w.blocks|] == w.blocks
    && (forall i :: |w.blocks| <= i < |w'.blocks| ==> w.a.offset <= w'.blocks[i].start)
  }

  lemma AllocGrows(w: World, w': World, size: nat)
    requires GrownFrom(w, w')
    ensures Step(w', AllocEv(size)).Some? && GrownFrom(w, Step(w', AllocEv(size)).value)
  {
    hide Alloc;
    AllocStep(w', size);
    if size <= SIZE_MAX { AllocGranted(w'.a, size); }
  }

  lemma WriteGrows(w: World, w': World, i: nat, at: nat, data: seq<Byte>)
    requires GrownFrom(w, w') && i >= |w.blocks|
    ensures Step(w', WriteEv(i, at, data)).Some? && GrownFrom(w, Step(w', WriteEv(i, at, data)).value)
  {
    WriteStep(w', i, at, data);
  }

  lemma RestoreGrows(w: World, w': World, saved: nat)
    requires GrownFrom(w, w') && saved >= w.a.offset
    ensures Step(w', RestoreEv(saved)).Some? && GrownFrom(w, Step(w', RestoreEv(saved)).value)
  {
    RestoreStep(w', saved);
    RestoreReady(w'.a, saved);
    KeptBelow(w, w', Restore(w'.a, saved).value.offset);
  }

  /** A restore to a mark at or above the old one keeps the old blocks. */
  lemma KeptBelow(w: World, w': World, mark: nat)
    requires GrownFrom(w, w') && mark >= w.a.offset
    ensures |w.blocks| <= |Survivors(w'.blocks, mark)|
  {
    SurvivorsAtLeast(w'.blocks, |w.blocks|, w.a.offset, mark);
  }

  lemma {:induction false} SurvivorsAtLeast(bs: seq<Block>, n: nat, old': nat, mark: nat)
    requires n <= |bs| && BlocksUpTo(bs[..n], old') && old' <= mark
    ensures n <= |Survivors(bs, mark)|
    decreases |bs|
  {
    if |bs| > n {
      assert bs[..|bs| - 1][..n] == bs[..n];
      SurvivorsAtLeast(bs[..|bs| - 1], n, old', mark);
    } else {
      assert bs[..n] == bs;
    }
  }

  lemma {:induction false} RunGrows(w: World, w': World, es: seq<Event>)
    requires GrownFrom(w, w') && forall k :: 0 <= k < |es| ==> Above(es[k], w.a.offset, |w.blocks|)
    ensures Run(w', es).Some? && GrownFrom(w, Run(w', es).value)
    decreases |es|
  {
    if es != [] {
      hide GrownFrom;
      hide Step;
      match es[0] {
        case AllocEv(size) => AllocGrows(w, w', size);
        case WriteEv(i, at, data) => WriteGrows(w, w', i, at, data);
        case RestoreEv(saved) => RestoreGrows(w, w', saved);
      }
      RunGrows(w, Step(w', es[0]).value, es[1..]);
    }
  }

  lemma {:induction false} SurvivorsAtMost(bs: seq<Block>, n: nat, mark: nat)
    requires n <= |bs| && forall i :: n <= i < |bs| ==> bs[i].size > 0 && mark <= bs[i].start
    ensures |Survivors(bs, mark)| <= n
    decreases |bs|
  {
    if |bs| > n { SurvivorsAtMost(bs[..|bs| - 1], n, mark); }
  }

  lemma RestoreShrinks(w: World, w': World)
    requires GrownFrom(w, w')
    ensures Step(w', RestoreEv(w.a.offset)) == Some(w)
  {
    var mark := w.a.offset;
    RestoreReady(w'.a, mark);
    Aligned(mark);
    var a := Restore(w'.a, mark).value;
    KeptBelow(w, w', mark);
    forall i | |w.blocks| <= i < |w'.blocks| ensures w'.blocks[i].size > 0 { BlockAt(w'.blocks, w'.a.offset, i); }
    SurvivorsAtMost(w'.blocks, |w.blocks|, mark);
    SameMemory(w.a, a);
  }

  lemma SameMemory(a: Arena, b: Arena)
    requires Ready(a) && Ready(b) && a.(mem := []) == b.(mem := []) && a.mem[..a.offset] == b.mem[..a.offset]
    ensures a == b
  {
    forall i | 0 <= i < |a.mem|
      ensures a.mem[i] == b.mem[i]
    {
      if i < a.offset {
        assert a.mem[i] == a.mem[..a.offset][i] == b.mem[..a.offset][i];
      } else if i >= a.usableSize {
        assert a.mem[i] == a.mem[a.usableSize..][i - a.usableSize] == b.mem[b.usableSize..][i - a.usableSize];
      }
    }
  }

  /** Save, any run above the mark, restore: the arena, byte for byte, and the blocks held are as they were. */
  lemma RestoreUndoes(w: World, es: seq<Event>)
    requires Inv(w) && forall k :: 0 <= k < |es| ==> Above(es[k], w.a.offset, |w.blocks|)
    ensures Run(w, es).Some? && Step(Run(w, es).value, RestoreEv(w.a.offset)) == Some(w)
  {
    RunGrows(w, w, es);
    RestoreShrinks(w, Run(w, es).value);
  }

  // ----- destruction -----

  const MAX_WIPE: nat := 268435456

  /** The struct after it has been zeroed. */
  const EMPTY: Arena := Arena(0, 0, 0, 0, 0, 0, 0, seq(CANARY_LEN, _ => 0), [])

  /** How many bytes arena_destroy clears. */
  function WipeLength(a: Arena): (n: nat) {
    if a.usableSize + CANARY_LEN > MAX_WIPE then MAX_WIPE else a.usableSize + CANARY_LEN
  }

  /** The memory as arena_destroy leaves it. */
  function Cleared(a: Arena): (mem: seq<Byte>)
    requires a.usableSize + CANARY_LEN <= |a.mem|
    ensures |mem| == |a.mem|
  {
    Wipe(a.mem, 0, WipeLength(a))
  }

  /** Everything, the canary too, is cleared exactly when there was nothing beyond the first 256 MB. */
  lemma DestroyClears(a: Arena)
    requires |a.mem| == a.usableSize + CANARY_LEN
    ensures AllZero(Cleared(a)) <==> |a.mem| <= MAX_WIPE || AllZero(a.mem[MAX_WIPE..])
  {
    var mem' := Cleared(a);
    if |a.mem| > MAX_WIPE {
      assert mem'[MAX_WIPE..] == a.mem[MAX_WIPE..];
      if AllZero(a.mem[MAX_WIPE..]) {
        assert forall i :: MAX_WIPE <= i < |mem'| ==> mem'[i] == mem'[MAX_WIPE..][i - MAX_WIPE];
      }
      if AllZero(mem') {
        assert forall i :: 0 <= i < |mem'[MAX_WIPE..]| ==> mem'[MAX_WIPE..][i] == mem'[MAX_WIPE + i];
      }
    }
  }

  lemma KeptByte(a: Arena, i: nat)
    requires |a.mem| == a.usableSize + CANARY_LEN && MAX_WIPE <= i < |a.mem|
    ensures Cleared(a)[i] == a.mem[i]
  {
  }

  /** A run that shows it: in an arena for 256 MB and 16 bytes a second block is written, and its byte outlives the
      arena. */
  lemma SecretSurvives(k: Setup, secret: Byte)
    requires SetupOk(k) && k.page == 4096 && k.mapping.Some? && k.guarded && secret != 0
    ensures Init(MAX_WIPE + 16, k).Made?
    ensures var w := World(Init(MAX_WIPE + 16, k).a, []);
            var r := Run(w, [AllocEv(MAX_WIPE), AllocEv(16), WriteEv(1, 0, [secret])]);
            && r.Some? && |r.value.blocks| == 2 && |r.value.a.mem| == r.value.a.usableSize + CANARY_LEN > MAX_WIPE
            && Cleared(r.value.a)[MAX_WIPE] == secret && !AllZero(Cleared(r.value.a))
  {
    PageFits();
    InitIsValid(MAX_WIPE + 16, k);
    var a := Init(MAX_WIPE + 16, k).a;
    hide Init;
    hide Ready;
    hide Run;
    hide Step;
    var w := TwoBlocks(a);
    SecretWritten(w, secret);
    ThreeEvents(World(a, []), World(a.(offset := MAX_WIPE), [Block(0, MAX_WIPE)]), w,
                w.(a := w.a.(mem := Put(w.a.mem, MAX_WIPE, [secret]))), AllocEv(MAX_WIPE), AllocEv(16), WriteEv(1, 0, [secret]));
  }

  lemma TwoBlocks(a: Arena) returns (w: World)
    requires Ready(a) && a.offset == 0 && a.usableSize >= MAX_WIPE + 16
    ensures w == World(a.(offset := MAX_WIPE + 16), [Block(0, MAX_WIPE), Block(MAX_WIPE, 16)]) && Ready(w.a)
    ensures var w1 := World(a.(offset := MAX_WIPE), [Block(0, MAX_WIPE)]);
            Step(World(a, []), AllocEv(MAX_WIPE)) == Some(w1) && Step(w1, AllocEv(16)) == Some(w)
  {
    hide Ready;
    hide Alloc;
    var a1 := a.(offset := MAX_WIPE);
    AllocGranted(a, MAX_WIPE);
    AllocReady(a, MAX_WIPE);
    AllocGranted(a1, 16);
    AllocReady(a1, 16);
    assert [] + [Block(0, MAX_WIPE)] == [Block(0, MAX_WIPE)];
    assert [Block(0, MAX_WIPE)] + [Block(MAX_WIPE, 16)] == [Block(0, MAX_WIPE), Block(MAX_WIPE, 16)];
    w := World(a.(offset := MAX_WIPE + 16), [Block(0, MAX_WIPE), Block(MAX_WIPE, 16)]);
  }

  lemma PageFits()
    ensures Fits(MAX_WIPE + 16, 4096)
  {
    PowFour();
    PowAdds(4, 4);
    PowAdds(8, 4);
    assert PowerOfTwo(4096);
    var m := MAX_WIPE + 4096;
    assert Multiple(m, 4096) && MAX_WIPE + 16 + CANARY_LEN <= m <= SIZE_MAX - 2 * 4096;
  }

  lemma SecretWritten(w: World, secret: Byte)
    requires Ready(w.a) && w.blocks == [Block(0, MAX_WIPE), Block(MAX_WIPE, 16)] && MAX_WIPE + 16 <= w.a.usableSize && secret != 0
    ensures MAX_WIPE + 1 <= |w.a.mem|
    ensures var w' := w.(a := w.a.(mem := Put(w.a.mem, MAX_WIPE, [secret])));
            && Step(w, WriteEv(1, 0, [secret])) == Some(w') && |w'.a.mem| == w'.a.usableSize + CANARY_LEN > MAX_WIPE
            && Cleared(w'.a)[MAX_WIPE] == secret && !AllZero(Cleared(w'.a))
  {
    hide IsValid;
    var w' := w.(a := w.a.(mem := Put(w.a.mem, MAX_WIPE, [secret])));
    KeptByte(w'.a, MAX_WIPE);
  }

  lemma ThreeEvents(w0: World, w1: World, w2: World, w3: World, a: Event, b: Event, c: Event)
    requires Step(w0, a) == Some(w1) && Step(w1, b) == Some(w2) && Step(w2, c) == Some(w3)
    ensures Run(w0, [a, b, c]) == Some(w3)
  {
    hide Step;
    assert [a, b, c][1..] == [b, c] && [b, c][1..] == [c] && [c][1..] == [];
    assert Run(w3, []) == Some(w3);
    assert Run(w2, [c]) == Some(w3);
    assert Run(w1, [b, c]) == Some(w3);
  }

  // ----- in place -----

  datatype Ending = Nothing | AbortedAtOnce | Gone | GoneThenAborted

  /** struct secure_arena and the memory it owns. */
  class SecureArena {
    var base: nat
    var pageSize: nat
    var totalSize: nat
    var usableSize: nat
    var offset: nat
    var forkSafe: Byte
    var dumpSafe: Byte
    var canary: seq<Byte>
    var mem: array<Byte>

    ghost function View(): (a: Arena)
      reads this, mem
    {
      Arena(base, pageSize, totalSize, usableSize, offset, forkSafe, dumpSafe, canary, mem[..])
    }

    constructor ()
      ensures View() == EMPTY
    {
      base, pageSize, totalSize, usableSize, offset, forkSafe, dumpSafe := 0, 0, 0, 0, 0, 0, 0;
      canary, mem := seq(CANARY_LEN, _ => 0), new Byte[0];
    }

    /** sodium_memzero on the struct. */
    method Zero()
      modifies this
      ensures View() == EMPTY && fresh(mem)
    {
      base, pageSize, totalSize, usableSize, offset, forkSafe, dumpSafe := 0, 0, 0, 0, 0, 0, 0;
      canary, mem := seq(CANARY_LEN, _ => 0), new Byte[0];
    }

    /** arena_init */
    method Initialise(size: nat, k: Setup) returns (ok: bool)
      requires size <= SIZE_MAX && SetupOk(k)
      modifies this
      ensures ok == Init(size, k).Made?
      ensures match Init(size, k)
              case Refused => View() == old(View()) && mem == old(mem)
              case Emptied => View() == EMPTY
              case Made(a) => View() == a && fresh(mem)
    {
      hide PageAlign;
      if size == 0 || k.page == 0 || size > SIZE_MAX - CANARY_LEN { return false; }
      var usable := PageAlign(size + CANARY_LEN, k.page);
      PageAlignExactly(size + CANARY_LEN, k.page);
      if usable == 0 || usable > SIZE_MAX - 2 * k.page || k.mapping.None? { return false; }
      forkSafe, dumpSafe := Hard(k.noFork), Hard(k.noDump);
      if !k.guarded {
        Zero();
        return false;
      }
      base, totalSize, usableSize := k.mapping.value, k.page + usable + k.page, usable - CANARY_LEN;
      offset, pageSize, canary := 0, k.page, k.canary;
      mem := NewMemory(usable - CANARY_LEN, k.canary);
      return true;
    }

    /** arena_check_canary: false stands for the abort. */
    method CheckCanary() returns (ok: bool)
      ensures ok == CanaryIntact(View())
    {
      ok := IsValid(Arena(base, pageSize, totalSize, usableSize, offset, forkSafe, dumpSafe, canary, mem[..])) &&
            mem.Length >= usableSize + CANARY_LEN && mem[usableSize..usableSize + CANARY_LEN] == canary;
      assert mem.Length >= usableSize + CANARY_LEN ==>
          mem[..][usableSize..usableSize + CANARY_LEN] == mem[usableSize..usableSize + CANARY_LEN];
    }

    /** arena_alloc */
    method Allocate(size: nat) returns (r: AllocResult)
      requires size <= SIZE_MAX
      modifies this`offset
      ensures (View(), r) == Alloc(old(View()), size)
    {
      hide Align16;
      if base == 0 || size == 0 { return Null; }
      var ok := CheckCanary();
      if !ok { return Aborted; }
      if size > SIZE_MAX - 15 { return Null; }
      var aligned := Align16(size);
      if aligned > SIZE_MAX - offset { return Null; }
      if offset + aligned > usableSize { return Null; }
      r := Ptr(offset);
      offset := offset + aligned;
    }

    /** arena_restore: the memory given back is cleared. */
    method RestoreTo(saved: nat) returns (aborted: bool)
      modifies this`offset, mem
      ensures Restore(old(View()), saved) == if aborted then None else Some(View())
      ensures aborted ==> View() == old(View())
    {
      if base == 0 { return false; }
      var ok := CheckCanary();
      if !ok { return true; }
      if saved > usableSize || saved % 16 != 0 || saved > offset { return false; }
      if saved == offset { return false; }
      Clear(saved, offset);
      offset := saved;
      return false;
    }

    /** sodium_memzero */
    method Clear(lo: nat, hi: nat)
      requires lo <= hi <= mem.Length
      modifies mem
      ensures mem[..] == Wipe(old(mem[..]), lo, hi)
    {
      ghost var was := mem[..];
      forall i | lo <= i < hi { mem[i] := 0; }
      assert |Wipe(was, lo, hi)| == mem.Length;
      assert forall i :: 0 <= i < mem.Length ==> mem[i] == Wipe(was, lo, hi)[i];
    }

    /** arena_destroy: an empty struct is ignored, a broken one aborts at once, and otherwise the memory is cleared before
        it is given back and the struct is emptied; a damaged canary aborts only after that. */
    method Destroy() returns (r: Ending)
      requires IsValid(View()) ==> usableSize + CANARY_LEN <= mem.Length
      modifies this, mem
      ensures r == if old(base) == 0 then Nothing
                   else if !IsValid(old(View())) then AbortedAtOnce
                   else if CanaryIntact(old(View())) then Gone else GoneThenAborted
      ensures r.Nothing? || r.AbortedAtOnce? ==> View() == old(View()) && mem == old(mem)
      ensures r.Gone? || r.GoneThenAborted? ==> View() == EMPTY && old(mem)[..] == Cleared(old(View()))
    {
      hide IsValid;
      if base == 0 { return Nothing; }
      if !IsValid(Arena(base, pageSize, totalSize, usableSize, offset, forkSafe, dumpSafe, canary, mem[..])) { return AbortedAtOnce; }
      var intact := CheckCanary();
      var n := usableSize + CANARY_LEN;
      if n > MAX_WIPE { n := MAX_WIPE; }
      Clear(0, n);
      Zero();
      r := if intact then Gone else GoneThenAborted;
    }
  }

  /** An anonymous mapping is zero; the canary goes right after the usable part. */
  method NewMemory(usable: nat, canary: seq<Byte>) returns (mem: array<Byte>)
    ensures fresh(mem) && mem[..] == Zeros(usable) + canary
  {
    mem := new Byte[usable + |canary|](_ => 0);
    forall i | usable <= i < usable + |canary| { mem[i] := canary[i - usable]; }
    assert |mem[..]| == |Zeros(usable) + canary|;
    assert forall i :: 0 <= i < mem.Length ==> mem[i] == (Zeros(usable) + canary)[i];
  }
}
