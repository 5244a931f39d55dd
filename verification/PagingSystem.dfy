/** Page directories over one physical memory: mapping, unmapping, copying and faults. */
module PagingSystem {
  import opened Wrappers
  import opened PageForest
  import opened PagingSteps
  import opened AddressSpaces
  import opened CowModel
  import opened PagingBridge
  import opened PageCensus
  import opened Lean
  import opened TableChanges
  import opened Translation
  import opened Words

  class PagingSystem {
    /** Table frames and their entries. */
    var tables: map<nat, Table>
    /** Frames handed out for data, with their contents. */
    var data: map<nat, Page>
    /** Frames the allocator may hand out. */
    var free: set<nat>
    /** `pml4_table` and `total_mapped_pages` of each live directory. */
    var roots: map<nat, nat>
    var mapped: map<nat, nat>
    var nextDir: nat
    ghost var pos: map<nat, Pos>
    /** How often the allocator has refused a frame. */
    ghost var refused: nat

    ghost predicate Valid()
      reads this
    {
      && Shape(tables, pos, roots)
      && Pools(tables.Keys, free, data.Keys)
      && Numbered(roots, mapped, pos, nextDir)
    }

    /** The system as page maps. */
    ghost function Abs(): Sys
      reads this
    {
      View(tables, roots, mapped, data, free)
    }

    /** No directory yet, and these frames to hand out. */
    constructor (frames: set<nat>)
      ensures Valid() && CowInv(Abs()) && Abs() == Sys(map[], map[], map[], frames) && roots == map[] && refused == 0
    {
      tables, data, free, roots, mapped, nextDir := map[], map[], frames, map[], map[], 0;
      pos, refused := map[], 0;
      new;
      SpacesOfNone();
      StartInv(frames);
    }

    /** `alloc_pages(1, ...)`: some free frame, or failure. */
    method AllocFrame() returns (r: Option<nat>)
      modifies this`free, this`refused
      ensures refused == old(refused) + if r.None? then 1 else 0
      ensures r.None? ==> free == old(free)
      ensures r.Some? ==> r.value in old(free) && free == old(free) - {r.value}
    {
      if * {
        refused := refused + 1;
        return None;
      } else {
        if free == {} {
          refused := refused + 1;
          return None;
        }
        var f :| f in free;
        free := free - {f};
        return Some(f);
      }
    }

    /** A zeroed data frame for a caller of `alloc_pages`. */
    method AllocData() returns (r: Option<nat>)
      requires Valid()
      modifies this`free, this`refused, this`data
      ensures refused == old(refused) + if r.None? then 1 else 0
      ensures Valid()
      ensures r.None? ==> Abs() == old(Abs())
      ensures r.Some? ==> NewDataStep(old(Abs()), r.value, Abs())
      ensures r.Some? ==> r.value in data && forall i | 0 <= i < 4096 :: data[r.value][i] == 0
    {
      hide Shape, Spaces;
      r := AllocFrame();
      if r.Some? {
        data := data[r.value := ZeroPage()];
      }
    }

    /** Find or create the table below slot `Index(v, level)` of `f`. */
    method EnsureTable(d: nat, f: nat, level: nat, v: nat, link: Flags) returns (r: Option<nat>)
      requires Valid() && d in roots && v < PAGES && 2 <= level <= 4
      requires TableAt(tables, roots[d], level, v) == Some(f)
      requires f in tables
      requires tables[f][Index(v, level)].flags.present ==> IsTablePtr(tables[f][Index(v, level)], level)
      requires link.present && !link.large
      modifies this`tables, this`free, this`refused, this`pos
      ensures refused == old(refused) + if r.None? then 1 else 0
      ensures Valid() && TableAdded(old(tables), old(pos), old(free), tables, pos, free, roots, d, v, level - 1)
      ensures r.None? ==> tables == old(tables) && Walk(tables, roots[d], 4, v).NoLeaf?
      ensures r.Some? ==> TableAt(tables, roots[d], level - 1, v) == r && r.value in tables
    {
      hide Shape, Attach, TableAt, Walk, TableAdded;
      AddedNothing(tables, pos, free, roots, d, v, level - 1);
      WalkEnds(tables, roots[d], level, v);
      var i := Index(v, level);
      var e := tables[f][i];
      if e.flags.present {
        Descend(tables, pos, roots, d, level, v, f);
        return Some(e.frame);
      }
      r := AllocFrame();
      if r.None? {
        return;
      }
      AddedByAttach(tables, pos, old(free), roots, d, v, level, f, r.value, link);
      PositionOf(tables, pos, roots, d, level, v);
      tables := Attach(tables, f, i, r.value, link);
      pos := AttachPos(pos, f, i, r.value);
    }

    /** Write a leaf entry (or clear it) in the table on the way to `v`. */
    method StoreLeaf(d: nat, f: nat, level: nat, v: nat, e: Entry)
      requires Valid() && d in roots && v < PAGES && 1 <= level <= 3
      requires TableAt(tables, roots[d], level, v) == Some(f)
      requires f in tables
      requires !IsTablePtr(e, level)
      modifies this`tables
      ensures Valid() && tables.Keys == old(tables.Keys) && Grown(old(tables), free, tables, free)
      ensures forall d', w: nat {:trigger Walk(tables, roots[d'], 4, w)} | d' in roots && w < PAGES ::
                Walk(tables, roots[d'], 4, w) ==
                if d' == d && Up(w, level - 1) == Up(v, level - 1) then LeafOf(e, level)
                else Walk(old(tables), roots[d'], 4, w)
      ensures forall l: nat | level <= l <= 4 :: TableAt(tables, roots[d], l, v) == TableAt(old(tables), roots[d], l, v)
      ensures level == 1 ==> KeepsPaths(old(tables), tables, roots[d])
      ensures level == 1 && e.flags.present && old(LeanFrom(tables, pos, roots, d, v, 1)) ==> LeanDir(tables, pos, roots, d)
      ensures level == 1 && e == NO_ENTRY && old(LeanDir(tables, pos, roots, d)) ==> LeanFrom(tables, pos, roots, d, v, 1)
      ensures OnlyIn(old(tables), pos, tables, pos, d)
      ensures Overlaid(old(tables), pos, tables, pos, TableAt(old(tables), roots[d], level - 1, v))
      ensures e == NO_ENTRY ==> Idle(tables, roots[d], level, v, 512) == Idle(old(tables), roots[d], level, v, Index(v, level))
    {
      hide OnlyIn, Overlaid, Idle, Shape, SetSlot, TableAt, Walk, OnTree, KeepsPaths, LeanFrom, LeanDir;
      OnTreeAt(tables, pos, roots, d, level, v);
      var i := Index(v, level);
      if level == 1 {
        StoreKept(tables, pos, roots, f, e, v);
      }
      StoreKeeps(tables, pos, roots, f, i, e);
      assert forall d', w: nat :: Governs(pos[f], i, d', w) <==> d' == d && Up(w, level - 1) == Up(v, level - 1);
      SlotOnly(tables, pos, f, i, e);
      SlotOverlaid(tables, pos, roots, d, level, v, f, e);
      if e == NO_ENTRY {
        IdleStored(tables, pos, roots, d, level, v, f);
      }
      tables := SetSlot(tables, f, i, e);
    }

    /** Store a leaf that a map request asks for. */
    method InstallLeaf(d: nat, f: nat, level: nat, v: nat, p: nat, flags: Flags)
      requires Valid() && d in roots && v < PAGES && 1 <= level <= 3
      requires TableAt(tables, roots[d], level, v) == Some(f)
      requires f in tables
      requires level > 1 ==> flags.large
      requires Low(v, level) == 0 && p % Span(level) == 0
      modifies this`tables
      ensures Valid() && tables.Keys == old(tables.Keys) && Grown(old(tables), free, tables, free)
      ensures Installed(old(tables), tables, roots, d, v, p, Span(level), flags)
      ensures AtLevel(tables, roots[d], v, Span(level), level)
      ensures level == 1 ==> KeepsPaths(old(tables), tables, roots[d])
      ensures level == 1 && old(LeanFrom(tables, pos, roots, d, v, 1)) ==> LeanDir(tables, pos, roots, d)
      ensures OnlyIn(old(tables), pos, tables, pos, d)
      ensures Overlaid(old(tables), pos, tables, pos, TableAt(old(tables), roots[d], level - 1, v))
    {
      hide OnlyIn, Overlaid, Idle, Shape, TableAt, Walk, KeepsPaths, LeanFrom, LeanDir, Installed;
      var e := Entry(p, MapFlags(flags));
      StoreLeaf(d, f, level, v, e);
      InstalledByLeaf(old(tables), tables, roots, d, level, v, p, flags);
      LeafAtLevel(old(tables), tables, roots, d, level, v, e);
    }

    /** Map what the request wants at page `v`, with `left` pages still to go: a 1G or 2M leaf
        where alignment and length allow, otherwise one 4K page.  Returns the leaf's level.  A leaf in
        the way is overwritten by a large one of at least its size. */
    method MapOne(d: nat, v: nat, p: nat, flags: Flags, left: nat) returns (r: Errno, level: nat)
      requires Valid() && d in roots && 1 <= left && v + left <= PAGES
      modifies this`tables, this`free, this`refused, this`pos
      ensures refused == old(refused) + if r == ENOMEM then 1 else 0
      ensures Valid() && LeafMapped(old(tables), old(pos), old(free), tables, pos, free, roots, d, v, p, flags, r, level)
      ensures r == Ok ==> Span(level) <= left && level == LeafLevel(flags, v, p, left)
      ensures var leaf, l := Walk(old(tables), roots[d], 4, v), LeafLevel(flags, v, p, left);
              r == EEXIST <==> leaf.Leaf? && (l == 1 || leaf.level > l)
      ensures r == Ok ==> level == if HasRoom(flags, v, p, left, 0x4000_0000) then 3 else if HasRoom(flags, v, p, left, 0x20_0000) then 2 else 1
    {
      LevelInBytes(flags, v, p, left);
      hide Shape, TableAt, Walk, TableAdded, LeafMapped, Installed, Overlaid, OnlyIn, AtLevel, Grown;
      RootAt(tables, pos, roots, d, v);
      WalkLevel(tables, roots[d], 4, v);
      var pdpt := EnsureTable(d, roots[d], 4, v, LinkFlags(flags));
      if pdpt.None? {
        MappedNot(old(tables), old(pos), old(free), tables, pos, free, roots, d, v, p, flags, 3);
        return ENOMEM, 0;
      }
      ghost var before, freeBefore, posBefore := tables, free, pos;
      if Suits(flags, v, p, left, PAGES_1G) {
        InstallLeaf(d, pdpt.value, 3, v, p, flags);
        MappedLarge(before, pos, free, tables, pos, free, roots, d, v, p, flags, 3);
        r, level := Ok, 3;
      } else {
        r, level := MapInPdpt(d, pdpt.value, v, p, flags, left);
      }
      MappedAfter(old(tables), old(pos), old(free), before, posBefore, freeBefore, tables, pos, free, roots, d, v, p, flags, r, level, 3);
    }

    method MapInPdpt(d: nat, pdpt: nat, v: nat, p: nat, flags: Flags, left: nat) returns (r: Errno, level: nat)
      requires Valid() && d in roots && 1 <= left && v + left <= PAGES
      requires TableAt(tables, roots[d], 3, v) == Some(pdpt) && pdpt in tables
      modifies this`tables, this`free, this`refused, this`pos
      ensures refused == old(refused) + if r == ENOMEM then 1 else 0
      ensures Valid() && LeafMapped(old(tables), old(pos), old(free), tables, pos, free, roots, d, v, p, flags, r, level)
      ensures r == Ok ==> Span(level) <= left && level == if Suits(flags, v, p, left, PAGES_2M) then 2 else 1
      ensures var leaf, suits := Walk(old(tables), roots[d], 4, v), Suits(flags, v, p, left, PAGES_2M);
              r == EEXIST <==> leaf.Leaf? && (!suits || leaf.level > 2)
    {
      hide Shape, TableAt, Walk, TableAdded, LeafMapped, Installed, Overlaid, OnlyIn, AtLevel, Grown;
      WalkEnds(tables, roots[d], 3, v);
      var e := tables[pdpt][Index(v, 3)];
      if e.flags.present && e.flags.large {
        MappedAlready(tables, pos, free, roots, d, v, p, flags);
        return EEXIST, 0;
      }
      SmallerBelow(tables, roots[d], 3, v, pdpt);
      var pd := EnsureTable(d, pdpt, 3, v, LinkFlags(flags));
      if pd.None? {
        MappedNot(old(tables), old(pos), old(free), tables, pos, free, roots, d, v, p, flags, 2);
        return ENOMEM, 0;
      }
      ghost var before, freeBefore, posBefore := tables, free, pos;
      if Suits(flags, v, p, left, PAGES_2M) {
        InstallLeaf(d, pd.value, 2, v, p, flags);
        MappedLarge(before, pos, free, tables, pos, free, roots, d, v, p, flags, 2);
        r, level := Ok, 2;
      } else {
        r, level := MapInPd(d, pd.value, v, p, flags);
      }
      MappedAfter(old(tables), old(pos), old(free), before, posBefore, freeBefore, tables, pos, free, roots, d, v, p, flags, r, level, 2);
    }

    method MapInPd(d: nat, pd: nat, v: nat, p: nat, flags: Flags) returns (r: Errno, level: nat)
      requires Valid() && d in roots && v < PAGES
      requires TableAt(tables, roots[d], 2, v) == Some(pd) && pd in tables
      modifies this`tables, this`free, this`refused, this`pos
      ensures refused == old(refused) + if r == ENOMEM then 1 else 0
      ensures Valid() && LeafMapped(old(tables), old(pos), old(free), tables, pos, free, roots, d, v, p, flags, r, level)
      ensures (r == Ok ==> level == 1) && (r == EEXIST <==> Walk(old(tables), roots[d], 4, v).Leaf?)
    {
      hide Shape, TableAt, Walk, TableAdded, LeafMapped;
      WalkEnds(tables, roots[d], 2, v);
      var e := tables[pd][Index(v, 2)];
      if e.flags.present && e.flags.large {
        MappedAlready(tables, pos, free, roots, d, v, p, flags);
        return EEXIST, 0;
      }
      var pt := EnsureTable(d, pd, 2, v, LinkFlags(flags));
      if pt.None? {
        MappedNot(old(tables), old(pos), old(free), tables, pos, free, roots, d, v, p, flags, 1);
        return ENOMEM, 0;
      }
      ghost var before, freeBefore, posBefore := tables, free, pos;
      r, level := MapInPt(d, pt.value, v, p, flags);
      MappedAfter(old(tables), old(pos), old(free), before, posBefore, freeBefore, tables, pos, free, roots, d, v, p, flags, r, level, 1);
    }

    method MapInPt(d: nat, pt: nat, v: nat, p: nat, flags: Flags) returns (r: Errno, level: nat)
      requires Valid() && d in roots && v < PAGES
      requires TableAt(tables, roots[d], 1, v) == Some(pt) && pt in tables
      modifies this`tables
      ensures Valid() && LeafMapped(old(tables), pos, free, tables, pos, free, roots, d, v, p, flags, r, level)
      ensures r != ENOMEM && (r == Ok ==> level == 1) && (r == EEXIST <==> Walk(old(tables), roots[d], 4, v).Leaf?)
    {
      hide Shape, TableAt, Walk, LeafMapped, Installed, Overlaid, OnlyIn, AtLevel, KeepsPaths, LeanFrom, LeanDir;
      WalkEnds(tables, roots[d], 1, v);
      if tables[pt][Index(v, 1)].flags.present {
        MappedAlready(tables, pos, free, roots, d, v, p, flags);
        return EEXIST, 0;
      }
      InstallLeaf(d, pt, 1, v, p, flags);
      MappedSmall(old(tables), pos, free, tables, pos, free, roots, d, v, p, flags);
      return Ok, 1;
    }

    /** The loop of `map_memory_range`, over page numbers.  `done` is the number of pages mapped. */
    method MapPages(d: nat, v: nat, p: nat, n: nat, flags: Flags) returns (r: Errno, ghost done: nat)
      requires Valid() && d in roots && v + n <= PAGES
      modifies this`tables, this`free, this`refused, this`pos, this`mapped
      ensures refused == old(refused) + if r == ENOMEM then 1 else 0
      ensures Valid() && RangeTables(old(tables), old(pos), old(free), tables, pos, free, roots, d, flags, r != ENOMEM)
      ensures MapResult(old(tables), tables, roots, d, v, p, n, flags, r, done)
      ensures Tallied(old(mapped), mapped, tables, roots[d], d, v, p, n, done, flags)
    {
      hide Shape, RangeTables, Tallied, LeafMapped, MapOutcome, MapProgress, TableAt, Walk, LeafLevel, WrapAdd;
      var i := 0;
      RangeTablesStart(tables, pos, free, roots, d, flags);
      TalliedStart(mapped, tables, roots[d], d, v, p, n, flags);
      MapProgressStart(tables, roots, d, v, p, flags);
      while i < n
        invariant Valid() && 0 <= i <= n && d in roots && refused == old(refused)
        invariant RangeTables(old(tables), old(pos), old(free), tables, pos, free, roots, d, flags, true)
        invariant MapProgress(old(tables), tables, roots, d, v, p, i, flags)
        invariant Tallied(old(mapped), mapped, tables, roots[d], d, v, p, n, i, flags)
      {
        ghost var before, freeBefore, posBefore := tables, free, pos;
        var level;
        r, level := MapOne(d, v + i, p + i, flags, n - i);
        MappedFacts(before, posBefore, freeBefore, tables, pos, free, roots, d, v + i, p + i, flags, r, level);
        RangeTablesThen(old(tables), old(pos), old(free), before, posBefore, freeBefore, tables, pos, free,
                        roots, d, v, p, i, flags, r, level);
        if r != Ok {
          MapProgressStop(old(tables), before, tables, roots, d, v, p, i, n, flags, r, level);
          TalliedStop(old(mapped), mapped, before, tables, roots, d, v, p, n, i, flags, r, level);
          return r, i;
        }
        MapProgressThen(old(tables), before, tables, roots, d, v, p, i, flags, level);
        TalliedThen(old(mapped), mapped, before, tables, roots, d, v, p, n, i, flags, level);
        if level == 1 {
          CountPage(d);
        }
        i := i + Span(level);
      }
      return Ok, n;
    }

    method CountPage(d: nat)
      requires Valid() && d in roots
      modifies this`mapped
      ensures Valid() && mapped == old(mapped)[d := WrapAdd(old(mapped)[d], 1)]
    {
      hide Shape;
      mapped := mapped[d := WrapAdd(mapped[d], 1)];
    }

    /** `map_memory_range`.  `done` is the number of pages newly mapped. */
    method MapMemoryRange(d: nat, vaddr: nat, paddr: nat, size: nat, flags: Flags) returns (r: Errno, ghost done: nat)
      requires Valid()
      requires vaddr + size <= 0x1_0000_0000_0000
      modifies this`tables, this`free, this`refused, this`pos, this`mapped
      ensures refused == old(refused) + if r == ENOMEM then 1 else 0
      ensures Valid()
      ensures r == EINVAL <==> d !in roots || size == 0
      ensures r == EINVAL ==> done == 0 && Abs() == old(Abs()) && tables == old(tables) && pos == old(pos)
      ensures r != EINVAL ==> MapResult(old(tables), tables, roots, d, vaddr / 4096, paddr / 4096, PageCount(vaddr, size), flags, r, done)
      ensures r != EINVAL ==>
                Abs().spaces == old(Abs()).spaces[d := old(Abs()).spaces[d] + PageRun(vaddr / 4096, paddr / 4096, done, flags)]
      ensures r != EINVAL ==>
                Tallied(old(mapped), mapped, tables, roots[d], d, vaddr / 4096, paddr / 4096, PageCount(vaddr, size), done, flags)
      ensures r != EINVAL ==> RangeTables(old(tables), old(pos), old(free), tables, pos, free, roots, d, flags, r != ENOMEM)
      ensures OthersLean(old(tables), old(pos), tables, pos, roots, d)
      ensures r != ENOMEM && !flags.large ==> KeepsLean(old(tables), old(pos), roots, tables, pos, roots)
      ensures r != EINVAL && !flags.large ==> LayStep(old(Abs()), d, vaddr / 4096, paddr / 4096, done, flags, Abs())
      ensures r != EINVAL ==> KeptOutside(old(tables), tables, roots, d, vaddr, size)
      ensures r == Ok ==> RangeMapped(tables, roots[d], vaddr, paddr, size, flags)
    {
      hide KeptOutside, RangeMapped, Shape, Installed, SameWalks, TableAt, Walk, WrapAdd, LayStep, Spaces, SmallIn, PageRun, RangeTables, Tallied, KeepsLean, OthersLean, SmallAreNew;
      done := 0;
      KeepsLeanSame(tables, pos, roots);
      OthersLeanSame(tables, pos, roots, d);
      if d !in roots || size == 0 {
        return EINVAL, 0;
      }
      var v, p := vaddr / 4096, paddr / 4096;
      r, done := MapPages(d, v, p, PageCount(vaddr, size), flags);
      SpaceIn(old(tables), roots, d);
      InstalledSpaces(old(tables), tables, roots, d, v, p, done, flags);
      InstalledBytes(old(tables), tables, roots, d, vaddr, paddr, size, done, flags);
      RangeFacts(old(tables), old(pos), old(free), tables, pos, free, roots, d, flags, r != ENOMEM);
      if !flags.large {
        MapRefines(old(tables), tables, roots, old(mapped), mapped, data, old(free), free, d, v, p, PageCount(vaddr, size), done, flags);
      }
    }

    /** Does the table hold no present entry? */
    method ScanEmpty(f: nat) returns (empty: bool)
      requires f in tables
      ensures empty <==> IsEmpty(tables[f])
    {
      for j := 0 to 512
        invariant forall i | 0 <= i < j :: !tables[f][i].flags.present
      {
        if tables[f][j].flags.present {
          return false;
        }
      }
      return true;
    }

    /** Free the table below `f` on the way to `v` if it has become empty. */
    method ReleaseIfEmpty(d: nat, f: nat, c: nat, level: nat, v: nat) returns (freed: bool)
      requires Valid() && d in roots && v < PAGES && 2 <= level <= 4
      requires TableAt(tables, roots[d], level, v) == Some(f) && f in tables
      requires TableAt(tables, roots[d], level - 1, v) == Some(c) && c in tables
      modifies this`tables, this`free, this`pos
      ensures Valid() && SameWalks(old(tables), tables, roots)
      ensures freed <==> IsEmpty(old(tables)[c])
      ensures !freed ==> tables == old(tables) && free == old(free) && pos == old(pos)
      ensures freed ==> f != c && tables == Detach(old(tables), f, Index(v, level), c) && free == old(free) + {c}
      ensures f in tables && Shrunk(old(tables), old(pos), tables, pos, d)
      ensures forall l: nat | level <= l <= 4 :: TableAt(tables, roots[d], l, v) == TableAt(old(tables), roots[d], l, v)
      ensures KeepsPaths(old(tables), tables, roots[d])
      ensures old(LeanFrom(tables, pos, roots, d, v, level - 1)) ==>
                if freed then LeanFrom(tables, pos, roots, d, v, level) else LeanDir(tables, pos, roots, d)
    {
      hide Shape, SameWalks, Detach, TableAt, Walk, OnTree, KeepsPaths, LeanFrom, LeanDir, IsEmpty, Shrunk;
      ShrunkSame(tables, pos, d);
      OnTreeAt(tables, pos, roots, d, level, v);
      Unchanged(tables, free, roots);
      KeepsSelf(tables, roots[d]);
      PointerBetween(tables, roots[d], level, v);
      freed := ScanEmpty(c);
      if !freed {
        if LeanFrom(tables, pos, roots, d, v, level - 1) {
          NonEmptyLean(tables, pos, roots, d, c, v, level - 1);
        }
      } else {
        DetachKeeps(tables, pos, roots, f, Index(v, level), c);
        DetachKept(tables, pos, roots, f, Index(v, level), c, v);
        DetachShrinks(tables, pos, roots, f, Index(v, level), c);
        tables := Detach(tables, f, Index(v, level), c);
        pos := pos - {c};
        free := free + {c};
      }
    }

    /** Free the tables on the way to `v`, as long as they are empty.  `path` holds them from the
        given level up to the PML4 table, which is never freed. */
    method Prune(d: nat, path: seq<nat>, level: nat, v: nat)
      requires Valid() && d in roots && v < PAGES && 1 <= level <= 4
      requires OnPath(tables, roots[d], path, level, v)
      modifies this`tables, this`free, this`pos
      ensures Valid() && SameWalks(old(tables), tables, roots)
      ensures var idle := Idle(old(tables), roots[d], level, v, 512);
              tables.Keys == old(tables.Keys) - idle && free == old(free) + idle && idle <= old(tables.Keys)
      ensures Shrunk(old(tables), old(pos), tables, pos, d)
      ensures KeepsPaths(old(tables), tables, roots[d])
      ensures old(LeanFrom(tables, pos, roots, d, v, level)) ==> LeanDir(tables, pos, roots, d)
      decreases 4 - level
    {
      hide Shape, TableAt, Walk, KeepsPaths, LeanFrom, LeanDir, Shrunk, Idle, Detach, IsEmpty, SameWalks;
      KeepsSelf(tables, roots[d]);
      ShrunkSame(tables, pos, d);
      Unchanged(tables, free, roots);
      if level == 4 {
        IdleAtRoot(tables, roots[d], v, 512);
        if LeanFrom(tables, pos, roots, d, v, 4) {
          LeanAtTop(tables, pos, roots, d, v);
        }
      } else {
        IdleStep(tables, roots[d], level, v, path[0]);
        var freed := ReleaseIfEmpty(d, path[1], path[0], level + 1, v);
        if freed {
          ghost var before, posBefore := tables, pos;
          IdleDetached(old(tables), old(pos), roots, d, level + 1, v, path[1], path[0]);
          PathStays(old(tables), tables, pos, roots, d, path, level, v);
          Prune(d, path[1..], level + 1, v);
          PruneThen(old(tables), old(pos), before, posBefore, tables, pos, roots, d);
        }
      }
    }

    /** Follow table pointers towards `v` until the walk ends.  `path` holds the tables passed,
        from the one the walk ends in up to the root. */
    method Locate(d: nat, v: nat) returns (level: nat, path: seq<nat>)
      requires Valid() && d in roots && v < PAGES
      ensures 1 <= level <= 4 && OnPath(tables, roots[d], path, level, v)
      ensures !IsTablePtr(tables[path[0]][Index(v, level)], level)
      ensures Walk(tables, roots[d], 4, v) == LeafOf(tables[path[0]][Index(v, level)], level)
    {
      level, path := 4, [roots[d]];
      while IsTablePtr(tables[path[0]][Index(v, level)], level)
        invariant 1 <= level <= 4 && OnPath(tables, roots[d], path, level, v)
        decreases level
      {
        Descend(tables, pos, roots, d, level, v, path[0]);
        path := [tables[path[0]][Index(v, level)].frame] + path;
        level := level - 1;
      }
      WalkEnds(tables, roots[d], level, v);
    }

    /** Clear a leaf, giving its frames back if asked to and the leaf is not copy-on-write. */
    method ClearLeaf(d: nat, f: nat, level: nat, v: nat, freePhys: bool)
      requires Valid() && d in roots && v < PAGES && 1 <= level <= 3
      requires TableAt(tables, roots[d], level, v) == Some(f) && f in tables && !IsTablePtr(tables[f][Index(v, level)], level)
      requires Low(v, level) == 0
      requires freePhys && !tables[f][Index(v, level)].flags.cow ==>
                 Frames(tables[f][Index(v, level)].frame, Span(level)) <= data.Keys
      modifies this`tables, this`free, this`data
      ensures Valid() && tables.Keys == old(tables.Keys)
      ensures Cleared(old(tables), tables, roots, d, v, Span(level))
      ensures var e := old(tables)[f][Index(v, level)];
              var freed := if freePhys && !e.flags.cow then Frames(e.frame, Span(level)) else {};
              free == old(free) + freed && data == old(data) - freed
      ensures forall l: nat | level <= l <= 4 :: TableAt(tables, roots[d], l, v) == TableAt(old(tables), roots[d], l, v)
      ensures level == 1 ==> KeepsPaths(old(tables), tables, roots[d])
      ensures level == 1 && old(LeanDir(tables, pos, roots, d)) ==> LeanFrom(tables, pos, roots, d, v, 1)
      ensures Shrunk(old(tables), pos, tables, pos, d)
      ensures Idle(tables, roots[d], level, v, 512) == Idle(old(tables), roots[d], level, v, Index(v, level))
    {
      hide Shape, TableAt, Walk, KeepsPaths, LeanFrom, LeanDir, OnlyIn, Overlaid, Idle, Shrunk;
      BelowLeaf(tables, roots[d], level, v, f);
      var e := tables[f][Index(v, level)];
      var freed := if freePhys && !e.flags.cow then Frames(e.frame, Span(level)) else {};
      free := free + freed;
      data := data - freed;
      StoreLeaf(d, f, level, v, NO_ENTRY);
      StoreShrinks(old(tables), pos, tables, d);
      ClearedByStore(old(tables), tables, roots, d, level, v);
    }

    /** Unmap what lies at page `v`; returns the level of the leaf removed, 0 if there was none. */
    method UnmapOne(d: nat, v: nat, freePhys: bool) returns (level: nat)
      requires Valid() && d in roots && v < PAGES
      requires AtLeafStart(tables, roots[d], v)
      requires var leaf := Walk(tables, roots[d], 4, v);
               freePhys && leaf.Leaf? ==> OwnsFrames(tables, roots[d], data.Keys, v, v + Span(leaf.level))
      modifies this`tables, this`free, this`pos, this`data
      ensures Valid() && Kept(old(tables), old(free), old(data), tables, free, data)
      ensures var leaf := Walk(old(tables), roots[d], 4, v);
              var freed := if freePhys && leaf.Leaf? && !leaf.entry.flags.cow then Frames(leaf.entry.frame, Span(leaf.level)) else {};
              level == (if leaf.Leaf? then leaf.level else 0) && data == old(data) - freed
      ensures Cleared(old(tables), tables, roots, d, v, Span(level))
      ensures level <= 1 ==> TidyRange(old(tables), old(pos), tables, pos, roots, d, true)
      ensures Shrunk(old(tables), old(pos), tables, pos, d)
      ensures tables.Keys == old(tables.Keys) - if level > 0 then Idle(old(tables), roots[d], level, v, Index(v, level)) else {}
    {
      hide Shape, TableAt, Walk, AtLeafStart, OwnsFrames, KeepsPaths, LeanFrom, LeanDir, TidyRange, Shrunk, Idle, Kept, Frames;
      TidyRangeStart(tables, pos, roots, d);
      ShrunkSame(tables, pos, d);
      KeptSame(tables, free, data);
      var path;
      level, path := Locate(d, v);
      var e := tables[path[0]][Index(v, level)];
      if !IsLeaf(e, level) {
        ClearNothing(tables, roots, d, v);
        level := 0;
      } else {
        AlignedLeaf(tables, roots[d], v);
        if freePhys && !e.flags.cow {
          OwnsLeaf(tables, roots[d], data.Keys, v, v + Span(level));
        }
        ClearLeaf(d, path[0], level, v, freePhys);
        ghost var before, freeBefore := tables, free;
        PathHolds(old(tables), tables, roots[d], path, level, v);
        Prune(d, path, level, v);
        KeptUnmap(old(tables), old(free), old(data), before, freeBefore, data, tables, free,
                  if freePhys && !e.flags.cow then Frames(e.frame, Span(level)) else {}, Idle(before, roots[d], level, v, 512));
        ClearedStays(old(tables), before, tables, roots, d, v, Span(level));
        ShrunkThen(old(tables), old(pos), before, old(pos), tables, pos, roots, d);
        if level == 1 {
          TidyUnmap(old(tables), old(pos), before, tables, pos, roots, d, v);
        }
      }
    }

    /** The loop of `unmap_memory_range`, over page numbers.  `done` is the number of pages gone
        over: the requested ones, and the rest of a large leaf when the request ends inside one. */
    method UnmapPages(d: nat, v: nat, n: nat, freePhys: bool) returns (ghost done: nat)
      requires Valid() && d in roots && 0 < n && v + n <= PAGES
      requires AtLeafStart(tables, roots[d], v)
      requires freePhys ==> OwnsFrames(tables, roots[d], data.Keys, v, LastEnd(tables, roots[d], v, n))
      modifies this`tables, this`free, this`pos, this`data, this`mapped
      ensures Valid() && UnmapTables(old(tables), old(pos), old(free), old(data), tables, pos, free, data, roots, d)
      ensures UnmapResult(old(tables), old(data), tables, data, roots, d, v, n, freePhys, done)
      ensures mapped == old(mapped)[d := WrapSub(old(mapped)[d], |MappedIn(old(tables), roots[d], v, done)|)]
    {
      hide Shape, TableAt, Walk, AtLeafStart, OwnsFrames, Cleared, WrapSub, MappedIn, UnmapProgress, UnmapResult, StopsAt, Kept, FourK, TidyRange, Shrunk, UnmapTables, LastEnd, Idle;
      UnmapTablesStart(tables, pos, free, data, roots, d);
      var i := 0;
      ghost var to := LastEnd(tables, roots[d], v, n);
      UnmapProgressStart(tables, data, roots, d, v, freePhys, to);
      WrapSubThen(mapped[d], 0, 0);
      while i < n
        invariant Valid() && d in roots && v + i <= PAGES
        invariant UnmapTables(old(tables), old(pos), old(free), old(data), tables, pos, free, data, roots, d)
        invariant UnmapProgress(old(tables), old(data), tables, data, roots, d, v, freePhys, i, to)
        invariant StopsAt(old(tables), roots[d], v, n, i)
        invariant mapped == old(mapped)[d := WrapSub(old(mapped)[d], |MappedIn(old(tables), roots[d], v, i)|)]
      {
        ghost var before, freeBefore, dataBefore, posBefore := tables, free, data, pos;
        UnmapProgressReady(old(tables), old(data), tables, data, roots, d, v, freePhys, n, i);
        var level := UnmapOne(d, v + i, freePhys);
        UnmapTablesThen(old(tables), old(pos), old(free), old(data), before, posBefore, freeBefore, dataBefore,
                        tables, pos, free, data, roots, d, v, freePhys, i, level, to);
        UnmapProgressThen(old(tables), old(data), before, dataBefore, tables, data, roots, d, v, freePhys, n, i, level);
        if level > 0 {
          DiscountPages(d, Span(level));
          WrapSubThen(old(mapped)[d], |MappedIn(old(tables), roots[d], v, i)|, Span(level));
        }
        i := i + Span(level);
      }
      UnmapProgressDone(old(tables), old(data), tables, data, roots, d, v, n, freePhys, i, to);
      done := i;
    }

    method DiscountPages(d: nat, n: nat)
      requires Valid() && d in roots
      modifies this`mapped
      ensures Valid() && mapped == old(mapped)[d := WrapSub(old(mapped)[d], n)]
    {
      hide Shape;
      mapped := mapped[d := WrapSub(mapped[d], n)];
    }

    /** `unmap_memory_range` */
    method UnmapMemoryRange(d: nat, vaddr: nat, size: nat, freePhys: bool) returns (r: Errno, ghost done: nat)
      requires Valid()
      requires vaddr + size <= 0x1_0000_0000_0000
      requires d in roots && size > 0 ==> AtLeafStart(tables, roots[d], vaddr / 4096)
      requires d in roots && freePhys && size > 0 ==>
                 OwnsFrames(tables, roots[d], data.Keys, vaddr / 4096, LastEnd(tables, roots[d], vaddr / 4096, PageCount(vaddr, size)))
      modifies this`tables, this`free, this`pos, this`data, this`mapped
      ensures Valid()
      ensures r == if d !in roots || size == 0 then EINVAL else Ok
      ensures r == EINVAL ==> Abs() == old(Abs()) && tables == old(tables) && pos == old(pos)
      ensures r == Ok ==> UnmapTables(old(tables), old(pos), old(free), old(data), tables, pos, free, data, roots, d)
      ensures r == Ok ==> UnmapResult(old(tables), old(data), tables, data, roots, d, vaddr / 4096, PageCount(vaddr, size), freePhys, done)
      ensures r == Ok ==> Abs().spaces == old(Abs()).spaces[d := Without(old(Abs()).spaces[d], vaddr / 4096, done)]
      ensures r == Ok ==> mapped == old(mapped)[d := WrapSub(old(mapped)[d], |MappedIn(old(tables), roots[d], vaddr / 4096, done)|)]
      ensures OthersLean(old(tables), old(pos), tables, pos, roots, d)
      ensures r == Ok && FourK(old(tables), roots[d]) ==> KeepsLean(old(tables), old(pos), roots, tables, pos, roots)
      ensures r == Ok && FourK(old(tables), roots[d]) ==>
                UnmapStep(old(Abs()), d, vaddr / 4096, PageCount(vaddr, size), freePhys, Abs())
      ensures r == Ok ==> RangeUnmapped(tables, roots[d], vaddr, size)
      ensures r == Ok && FourK(old(tables), roots[d]) ==> KeptOutside(old(tables), tables, roots, d, vaddr, size)
    {
      hide KeptOutside, RangeUnmapped, Shape, TableAt, Walk, AtLeafStart, OwnsFrames, Cleared, WrapSub, MappedIn, StopsAt, Spaces, Without, UnmapStep, FreedIn, FourK, UnmapTables, KeepsLean, OthersLean, LastEnd;
      OthersLeanSame(tables, pos, roots, d);
      done := 0;
      if d !in roots || size == 0 {
        return EINVAL, 0;
      }
      var v, n := vaddr / 4096, PageCount(vaddr, size);
      done := UnmapPages(d, v, n, freePhys);
      SpaceIn(old(tables), roots, d);
      ClearedSpaces(old(tables), tables, roots, d, v, done);
      UnmapFacts(old(tables), old(pos), old(free), old(data), tables, pos, free, data, roots, d);
      ClearedBytes(old(tables), tables, roots, d, vaddr, size, done);
      if FourK(old(tables), roots[d]) {
        FourKStops(old(tables), roots[d], v, n, done);
        UnmapRefines(old(tables), tables, roots, old(mapped), mapped, old(data), data, old(free), free, d, v, n, freePhys, done);
      }
      r := Ok;
    }

    // ----- flags and copy-on-write -----

    /** `set_page_flags`: turn on the bits of `set`, after turning off those of `mask`. */
    method SetPageFlags(d: nat, v: nat, on: Flags, mask: Flags) returns (r: Errno)
      requires Valid() && d in roots && v < PAGES
      requires !mask.present && !mask.large && !on.large
      modifies this`tables
      ensures Valid() && tables.Keys == old(tables.Keys)
      ensures r == if Walk(old(tables), roots[d], 4, v).Leaf? then Ok else EFAULT
      ensures r == EFAULT ==> tables == old(tables)
      ensures r == Ok ==> Reflagged(old(tables), tables, roots, d, v, on, mask)
      ensures OnlyIn(old(tables), pos, tables, pos, d)
      ensures r == Ok && Walk(old(tables), roots[d], 4, v).level == 1 && old(LeanDir(tables, pos, roots, d)) ==> LeanDir(tables, pos, roots, d)
    {
      hide Shape, TableAt, Walk, OnlyIn, LeanDir, LeanFrom, KeepsPaths, Overlaid, Idle;
      OnlySame(tables, pos, d);
      var level, path := Locate(d, v);
      var e := tables[path[0]][Index(v, level)];
      if !IsLeaf(e, level) {
        return EFAULT;
      }
      if LeanDir(tables, pos, roots, d) {
        LeanAnywhere(tables, pos, roots, d, v, 1);
      }
      StoreLeaf(d, path[0], level, v, Entry(e.frame, Reflag(e.flags, on, mask)));
      return Ok;
    }

    /** `mark_pages_cow` on the user half of a directory of 4K pages. */
    method MarkPagesCow(d: nat)
      requires Valid() && d in roots && FourK(tables, roots[d])
      modifies this`tables
      ensures Valid() && tables.Keys == old(tables.Keys)
      ensures Marked(old(tables), tables, roots, d, USER_PAGES)
      ensures UserHalfMarked(old(tables), roots[d], tables, roots[d])
      ensures KeepsLean(old(tables), pos, roots, tables, pos, roots)
    {
      hide UserHalfMarked, Shape, TableAt, Walk, Reflagged, Marked, FourK, OnlyIn, LeanDir, KeepsLean;
      OnlySame(tables, pos, d);
      MarkedStart(tables, roots, d);
      var k := 0;
      while k < USER_PAGES
        invariant Valid() && d in roots && 0 <= k <= USER_PAGES && tables.Keys == old(tables.Keys)
        invariant Marked(old(tables), tables, roots, d, k) && OnlyIn(old(tables), pos, tables, pos, d)
        invariant old(LeanDir(tables, pos, roots, d)) ==> LeanDir(tables, pos, roots, d)
      {
        ghost var before := tables;
        MarkedSmall(old(tables), tables, roots, d, k);
        var r := SetPageFlags(d, k, COW_ONLY, WRITABLE_ONLY);
        MarkedThen(old(tables), before, tables, roots, d, k, r);
        OnlyThen(old(tables), pos, before, pos, tables, pos, d);
        k := k + 1;
      }
      MarkedBytes(old(tables), tables, roots, d);
      LeanKept(old(tables), pos, roots, tables, pos, roots, d);
    }

    /** Give page `v` another 4K leaf. */
    method StorePage(d: nat, f: nat, v: nat, e: Entry)
      requires Valid() && d in roots && v < PAGES && e.flags.present
      requires TableAt(tables, roots[d], 1, v) == Some(f) && f in tables
      modifies this`tables
      ensures Valid() && tables.Keys == old(tables.Keys)
      ensures forall d', w: nat {:trigger Walk(tables, roots[d'], 4, w)} | d' in roots && w < PAGES ::
                Walk(tables, roots[d'], 4, w) == if d' == d && w == v then Leaf(1, e) else Walk(old(tables), roots[d'], 4, w)
      ensures KeepsLean(old(tables), pos, roots, tables, pos, roots)
    {
      hide Shape, TableAt, Walk, LeanDir, LeanFrom, KeepsPaths, OnlyIn, Overlaid, Idle, KeepsLean;
      if LeanDir(tables, pos, roots, d) {
        LeanAnywhere(tables, pos, roots, d, v, 1);
      }
      StoreLeaf(d, f, 1, v, e);
      LeanKept(old(tables), pos, roots, tables, pos, roots, d);
    }

    /** Copy a page; what memory other than data frames holds is not known. */
    method CopyFrame(from: nat, to: nat)
      modifies this`data
      ensures to in data && data == old(data)[to := data[to]] && (from in old(data) ==> data[to] == old(data)[from])
    {
      var contents: Page := *;
      if from in data {
        contents := data[from];
      }
      data := data[to := contents];
    }

    /** `handle_cow_page_fault` */
    method HandleCowPageFault(d: nat, v: nat) returns (r: Errno)
      requires Valid() && d in roots && v < PAGES
      modifies this`tables, this`free, this`refused, this`data
      ensures refused == old(refused) + if r == ENOMEM then 1 else 0
      ensures Valid() && tables.Keys == old(tables.Keys)
      ensures FaultResult(old(tables), old(data), old(free), tables, data, free, roots, d, v, r)
      ensures KeepsLean(old(tables), pos, roots, tables, pos, roots)
    {
      hide Shape, TableAt, Walk, KeepsLean;
      KeepsLeanSame(tables, pos, roots);
      var level, path := Locate(d, v);
      var e := tables[path[0]][Index(v, level)];
      if IsLeaf(e, level) && level > 1 {
        return ENOTSUP;
      }
      if !IsLeaf(e, level) || !e.flags.cow {
        return EFAULT;
      }
      var page := AllocFrame();
      if page.None? {
        return ENOMEM;
      }
      CopyFrame(e.frame, page.value);
      StorePage(d, path[0], v, Entry(page.value, e.flags.(writable := true, cow := false)));
      return Ok;
    }

    /** `handle_page_fault`; only bits 0 (write) and 3 (reserved) of the error code matter. */
    method HandlePageFault(d: nat, vaddr: nat, code: nat) returns (r: Errno)
      requires Valid() && vaddr < 0x1_0000_0000_0000
      modifies this`tables, this`free, this`refused, this`data
      ensures refused >= old(refused)
      ensures r == Ok <==> d in roots && code % 2 == 1 && code / 8 % 2 == 0 && CowSmall(Walk(old(tables), roots[d], 4, vaddr / 4096)) && refused == old(refused)
      ensures Valid() && tables.Keys == old(tables.Keys)
      ensures r == Ok || r == EINVAL || r == EFAULT
      ensures refused > old(refused) ==>
                d in roots && code % 2 == 1 && code / 8 % 2 == 0 && CowSmall(Walk(old(tables), roots[d], 4, vaddr / 4096))
      ensures r == EINVAL <==> d !in roots
      ensures r == Ok ==> exists f :: f in old(free) && MoveStep(old(Abs()), d, vaddr / 4096, f, Abs())
      ensures r != Ok ==> tables == old(tables) && Abs() == old(Abs())
      ensures KeepsLean(old(tables), pos, roots, tables, pos, roots)
    {
      hide Shape, Walk, Spaces, MoveStep, CowBroken, KeepsLean;
      KeepsLeanSame(tables, pos, roots);
      if d !in roots {
        return EINVAL;
      }
      if code % 2 == 1 && code / 8 % 2 == 0 {
        r := HandleCowPageFault(d, vaddr / 4096);
        if r == Ok {
          ghost var f :| f in old(free) && CowBroken(old(tables), old(data), old(free), tables, data, free, roots, d, vaddr / 4096, f);
          FaultRefines(old(tables), tables, roots, mapped, old(data), data, old(free), free, d, vaddr / 4096, f);
          return;
        }
      }
      return EFAULT;
    }

    // ----- the processor's view -----

    /** A load: what the page at `vaddr` holds, or a fault nobody resolves. */
    method LoadByte(d: nat, vaddr: nat) returns (r: Option<bv8>)
      requires Valid() && d in roots && vaddr < 0x1_0000_0000_0000
      requires CowInv(Abs())
      ensures r.Some? <==> Has(Abs(), d, vaddr / 4096)
      ensures r.Some? ==> ReadStep(Abs(), d, vaddr / 4096, vaddr % 4096, r.value, Abs())
    {
      hide Shape, TableAt, Walk, Spaces, CowInv, FourK;
      InvFourK(tables, roots, mapped, data, free, d);
      HasIsWalk(tables, roots, mapped, data, free, d, vaddr / 4096);
      FourKLevel(tables, roots[d], vaddr / 4096);
      FrameIsData(tables, roots[d], data.Keys, vaddr / 4096);
      var level, path := Locate(d, vaddr / 4096);
      var e := tables[path[0]][Index(vaddr / 4096, level)];
      if !IsLeaf(e, level) {
        return None;
      }
      return Some(data[e.frame][vaddr % 4096]);
    }

    /** A store to a writable page. */
    method PokeByte(d: nat, vaddr: nat, value: bv8) returns (ok: bool)
      requires Valid() && d in roots && vaddr < 0x1_0000_0000_0000
      requires CowInv(Abs())
      modifies this`data
      ensures Valid()
      ensures ok <==> Has(old(Abs()), d, vaddr / 4096) && At(old(Abs()), d, vaddr / 4096).flags.writable
      ensures if ok then WriteStep(old(Abs()), d, vaddr / 4096, vaddr % 4096, value, Abs()) else data == old(data)
    {
      hide Shape, TableAt, Walk, Spaces, CowInv, FourK;
      InvFourK(tables, roots, mapped, data, free, d);
      HasIsWalk(tables, roots, mapped, data, free, d, vaddr / 4096);
      FourKLevel(tables, roots[d], vaddr / 4096);
      FrameIsData(tables, roots[d], data.Keys, vaddr / 4096);
      var level, path := Locate(d, vaddr / 4096);
      var e := tables[path[0]][Index(vaddr / 4096, level)];
      if !IsLeaf(e, level) || !e.flags.writable {
        return false;
      }
      data := data[e.frame := data[e.frame][vaddr % 4096 := value]];
      return true;
    }

    /** A store, retried once after `handle_page_fault` has resolved the write fault. */
    method StoreByte(d: nat, vaddr: nat, value: bv8) returns (ok: bool)
      requires Valid() && d in roots && vaddr < 0x1_0000_0000_0000
      requires CowInv(Abs())
      modifies this`tables, this`free, this`refused, this`data
      ensures refused >= old(refused)
      ensures ok <==> Storable(old(Abs()), d, vaddr / 4096) && refused == old(refused)
      ensures Valid() && CowInv(Abs())
      ensures !ok ==> Abs() == old(Abs())
      ensures ok ==> StoredAt(old(Abs()), d, vaddr / 4096, vaddr % 4096, value, Abs())
      ensures KeepsLean(old(tables), pos, roots, tables, pos, roots)
    {
      hide Shape, Walk, Spaces, CowInv, FaultStep, MoveStep, WriteStep, FramesAreData, KeepsLean;
      KeepsLeanSame(tables, pos, roots);
      ok := PokeByte(d, vaddr, value);
      ghost var v, offset := vaddr / 4096, vaddr % 4096;
      if ok {
        WriteKeeps(old(Abs()), d, v, offset, value, Abs());
        return;
      }
      InvFourK(tables, roots, mapped, data, free, d);
      HasIsWalk(tables, roots, mapped, data, free, d, v);
      FourKLevel(tables, roots[d], v);
      var r := HandlePageFault(d, vaddr, 3);
      if r != Ok {
        return false;
      }
      ghost var s, f :| s == Abs() && f in old(free) && MoveStep(old(Abs()), d, v, f, s);
      InvFrame(old(Abs()), d, v);
      MoveOfData(old(Abs()), d, v, f, s);
      FaultStores(old(Abs()), d, v, f, s);
      FaultKeeps(old(Abs()), d, v, f, s);
      ok := PokeByte(d, vaddr, value);
      WriteKeeps(s, d, v, offset, value, Abs());
    }

    // ----- directories -----

    /** `create_page_directory` */
    method CreatePageDirectory() returns (r: Option<nat>, ghost root: nat)
      requires Valid()
      modifies this`tables, this`free, this`refused, this`pos, this`roots, this`mapped, this`nextDir
      ensures refused == old(refused) + if r.None? then 1 else 0
      ensures Valid() && SameWalks(old(tables), tables, old(roots))
      ensures r.None? ==> tables == old(tables) && roots == old(roots) && Abs() == old(Abs())
      ensures r.Some? ==> Created(old(tables), old(pos), old(roots), tables, pos, roots, r.value, root)
      ensures r.Some? ==> CreateStep(old(Abs()), r.value, Abs())
      ensures KeepsLean(old(tables), old(pos), old(roots), tables, pos, roots)
    {
      hide Shape, Walk, Spaces, SameWalks, Created, CreateStep, KeepsLean, Pools, Numbered, EmptyTable;
      Unchanged(tables, free, roots);
      KeepsLeanSame(tables, pos, roots);
      var f := AllocFrame();
      if f.None? {
        return None, 0;
      }
      var d := nextDir;
      root := f.value;
      PoolsToTable(tables, old(free), data.Keys, root, EmptyTable());
      NumbersNew(roots, mapped, pos, nextDir, root);
      NewDirectory(tables, pos, roots, mapped, data, old(free), d, root);
      tables := tables[f.value := EmptyTable()];
      pos := pos[root := Pos(d, 4, 0, root)];
      roots := roots[d := f.value];
      mapped := mapped[d := 0];
      nextDir := nextDir + 1;
      return Some(d), root;
    }

    /** `destroy_page_directory`: frees the PML4 table and nothing below it. */
    method DestroyPageDirectory(d: nat)
      requires Valid()
      modifies this`tables, this`free, this`pos, this`roots, this`mapped
      ensures Valid() && roots == old(roots) - {d} && mapped == old(mapped) - {d}
      ensures SameWalks(old(tables), tables, roots)
      ensures d !in old(roots) ==> tables == old(tables) && free == old(free)
      ensures d in old(roots) ==> tables == old(tables) - {old(roots)[d]} && free == old(free) + {old(roots)[d]}
      ensures DestroyStep(old(Abs()), d, Abs())
      ensures OnlyIn(old(tables), old(pos), tables, pos, d)
      ensures KeepsLean(old(tables), old(pos), old(roots), tables, pos, roots)
    {
      hide Shape, Walk, Spaces, Pools, SameWalks, OnlyIn, KeepsLean;
      Unchanged(tables, free, roots);
      OnlySame(tables, pos, d);
      KeepsLeanSame(tables, pos, roots);
      MapMissing(roots, d);
      if d !in roots {
        MapMissing(mapped, d);
        PoolsApart(tables.Keys, free, data.Keys);
        DropSpace(tables, tables, roots, d);
        return;
      }
      DropRootKeeps(tables, pos, roots, d);
      DropRootOnly(tables, pos, roots, d);
      LeanKept(tables, pos, roots, tables - {roots[d]}, pos - {roots[d]}, roots - {d}, d);
      DropSpace(tables, tables - {roots[d]}, roots, d);
      RootAt(tables, pos, roots, d, 0);
      PoolsFromTable(tables, free, data.Keys, roots[d]);
      free := free + {roots[d]};
      tables := tables - {roots[d]};
      pos := pos - {roots[d]};
      roots := roots - {d};
      mapped := mapped - {d};
    }

    /** Copy the 4K page `v` of directory `src`, if mapped, into directory `dst`. */
    method CopyOne(src: nat, dst: nat, v: nat) returns (r: Errno)
      requires Valid() && src in roots && dst in roots && src != dst && v < PAGES
      requires FourK(tables, roots[src]) && FourK(tables, roots[dst])
      modifies this`tables, this`free, this`refused, this`pos
      ensures refused == old(refused) + if r == ENOMEM then 1 else 0
      ensures Valid() && Grown(old(tables), old(free), tables, free)
      ensures r == Ok || r == ENOMEM
      ensures r == Ok ==> CopiedPage(old(tables), tables, roots, src, dst, v)
      ensures r != Ok ==> SameWalks(old(tables), tables, roots)
      ensures OnlyIn(old(tables), old(pos), tables, pos, dst)
      ensures r == Ok && old(LeanDir(tables, pos, roots, dst)) ==> LeanDir(tables, pos, roots, dst)
    {
      hide Shape, Walk, TableAt, SameWalks, Grown, FourK, OnlyIn, LeanDir, LeanFrom, TableAdded, KeepsPaths, Overlaid, Idle;
      Unchanged(tables, free, roots);
      OnlySame(tables, pos, dst);
      var level, path := Locate(src, v);
      var e := tables[path[0]][Index(v, level)];
      if !IsLeaf(e, level) {
        CopiedNothing(tables, roots, src, dst, v);
        return Ok;
      }
      FourKLevel(tables, roots[src], v);
      PathFlags(tables, pos, roots, src, path, v);
      var pt := DescendCopy(dst, v, tables[path[3]][Index(v, 4)].flags, tables[path[2]][Index(v, 3)].flags,
                            tables[path[1]][Index(v, 2)].flags);
      AddedFacts(old(tables), old(pos), old(free), tables, pos, free, roots, dst, v, 1);
      if pt.None? {
        return ENOMEM;
      }
      ghost var before, freeBefore := tables, free;
      StoreLeaf(dst, pt.value, 1, v, e);
      OnlyThen(old(tables), old(pos), before, pos, tables, pos, dst);
      GrownThen(old(tables), old(free), before, freeBefore, tables, free);
      CopiedByStore(old(tables), before, tables, roots, src, dst, v, e);
      return Ok;
    }

    /** Find or create the three tables below the root of `d` on the way to `v`. */
    method DescendCopy(d: nat, v: nat, link4: Flags, link3: Flags, link2: Flags) returns (r: Option<nat>)
      requires Valid() && d in roots && v < PAGES && FourK(tables, roots[d])
      requires link4.present && !link4.large && link3.present && !link3.large && link2.present && !link2.large
      modifies this`tables, this`free, this`refused, this`pos
      ensures refused == old(refused) + if r.None? then 1 else 0
      ensures Valid() && TableAdded(old(tables), old(pos), old(free), tables, pos, free, roots, d, v, 1)
      ensures r.Some? ==> TableAt(tables, roots[d], 1, v) == r && r.value in tables
    {
      hide Shape, Walk, TableAt, FourK, TableAdded;
      RootAt(tables, pos, roots, d, v);
      AddedNothing(tables, pos, free, roots, d, v, 3);
      r := EnsureTable(d, roots[d], 4, v, link4);
      ghost var t1, p1, f1 := tables, pos, free;
      AddedThen(old(tables), old(pos), old(free), old(tables), old(pos), old(free), t1, p1, f1, roots, d, v, 3, 3, 1);
      if r.None? {
        return;
      }
      AddedFourK(old(tables), old(pos), old(free), t1, p1, f1, roots, d, v, 3);
      FourKSlot(tables, roots[d], 3, v);
      r := EnsureTable(d, r.value, 3, v, link3);
      ghost var t2, p2, f2 := tables, pos, free;
      AddedThen(old(tables), old(pos), old(free), t1, p1, f1, t2, p2, f2, roots, d, v, 3, 2, 1);
      if r.None? {
        return;
      }
      AddedFourK(old(tables), old(pos), old(free), t2, p2, f2, roots, d, v, 1);
      FourKSlot(tables, roots[d], 2, v);
      r := EnsureTable(d, r.value, 2, v, link2);
      AddedThen(old(tables), old(pos), old(free), t2, p2, f2, tables, pos, free, roots, d, v, 1, 1, 1);
    }

    /** `copy_page_tables` on the user half. */
    method CopyPageTables(src: nat, dst: nat) returns (r: Errno)
      requires Valid() && src in roots && dst in roots && src != dst
      requires FourK(tables, roots[src]) && WalksNowhere(tables, roots[dst])
      modifies this`tables, this`free, this`refused, this`pos
      ensures refused == old(refused) + if r == ENOMEM then 1 else 0
      ensures Valid() && Grown(old(tables), old(free), tables, free)
      ensures r == Ok || r == ENOMEM
      ensures exists k: nat :: k <= USER_PAGES && Copied(old(tables), tables, roots, src, dst, k) && (r == Ok ==> k == USER_PAGES)
      ensures r == Ok ==> UserHalfCopied(old(tables), roots[src], tables, roots[dst])
      ensures OnlyIn(old(tables), old(pos), tables, pos, dst)
      ensures r == Ok && old(LeanDir(tables, pos, roots, dst)) ==> LeanDir(tables, pos, roots, dst)
    {
      hide UserHalfCopied, Shape, Walk, TableAt, Grown, FourK, WalksNowhere, Copied, SameWalks, OnlyIn, LeanDir;
      Unchanged(tables, free, roots);
      OnlySame(tables, pos, dst);
      CopiedStart(tables, roots, src, dst);
      var k := 0;
      while k < USER_PAGES
        invariant Valid() && src in roots && dst in roots && 0 <= k <= USER_PAGES
        invariant Grown(old(tables), old(free), tables, free)
        invariant Copied(old(tables), tables, roots, src, dst, k) && refused == old(refused)
        invariant OnlyIn(old(tables), old(pos), tables, pos, dst)
        invariant old(LeanDir(tables, pos, roots, dst)) ==> LeanDir(tables, pos, roots, dst)
      {
        ghost var before, freeBefore, posBefore := tables, free, pos;
        CopiedReady(old(tables), tables, roots, src, dst, k);
        r := CopyOne(src, dst, k);
        OnlyThen(old(tables), old(pos), before, posBefore, tables, pos, dst);
        GrownThen(old(tables), old(free), before, freeBefore, tables, free);
        if r != Ok {
          CopiedStop(old(tables), before, tables, roots, src, dst, k);
          return;
        }
        CopiedThen(old(tables), before, tables, roots, src, dst, k);
        k := k + 1;
      }
      CopiedBytes(old(tables), tables, roots, src, dst);
      return Ok;
    }

    /** Copy the pages of `src` into the new directory `dst` and mark both if asked to. */
    method FillCopy(src: nat, dst: nat, cow: bool) returns (ok: bool)
      requires Valid() && src in roots && dst in roots && src != dst
      requires FourK(tables, roots[src]) && WalksNowhere(tables, roots[dst])
      modifies this`tables, this`free, this`refused, this`pos
      ensures refused == old(refused) + if ok then 0 else 1
      ensures Valid() && free <= old(free)
      ensures !ok ==> SameWalks(old(tables), tables, roots - {dst})
      ensures ok ==> CopiedInto(Spaces(old(tables), roots), Spaces(tables, roots), src, dst, cow)
      ensures !ok ==> OnlyIn(old(tables), old(pos), tables, pos, dst)
      ensures ok ==> KeepsLean(old(tables), old(pos), roots, tables, pos, roots)
    {
      hide Shape, Walk, SameWalks, Grown, FourK, Copied, Marked, WalksNowhere, Spaces, CopiedInto, OnlyIn, LeanDir, KeepsLean;
      var e := CopyPageTables(src, dst);
      GrownFree(old(tables), old(free), tables, free);
      ghost var t2 := tables;
      if e != Ok {
        ghost var k: nat :| k <= USER_PAGES && Copied(old(tables), t2, roots, src, dst, k);
        CopiedOthers(old(tables), t2, roots, src, dst, k, roots - {dst});
        return false;
      }
      LeanKept(old(tables), old(pos), roots, t2, pos, roots, dst);
      if cow {
        CopiedReady(old(tables), t2, roots, src, dst, USER_PAGES);
        MarkPagesCow(src);
        ghost var t3 := tables;
        MarkedFourK(t2, t3, roots, src, dst);
        MarkPagesCow(dst);
        KeepsLeanThen(t2, pos, roots, t3, pos, roots, tables, pos, roots);
        KeepsLeanThen(old(tables), old(pos), roots, t2, pos, roots, tables, pos, roots);
        CopyMarkSpaces(old(tables), t2, t3, tables, roots, src, dst);
      } else {
        CopySpaces(old(tables), t2, roots, src, dst);
      }
      return true;
    }

    method CopyStatistics(src: nat, dst: nat)
      requires Valid() && src in roots && dst in roots
      modifies this`mapped
      ensures Valid() && mapped == old(mapped)[dst := old(mapped)[src]]
    {
      hide Shape;
      mapped := mapped[dst := mapped[src]];
    }

    /** Fill the new directory `dst`, or destroy it if memory runs out. */
    method FillOrDestroy(src: nat, dst: nat, cow: bool) returns (ok: bool)
      requires Valid() && src in roots && dst in roots && src != dst
      requires FourK(tables, roots[src]) && WalksNowhere(tables, roots[dst])
      modifies this`tables, this`free, this`refused, this`pos, this`roots, this`mapped
      ensures refused == old(refused) + if ok then 0 else 1
      ensures Valid() && free !! data.Keys
      ensures ok ==> roots == old(roots) && mapped == old(mapped)[dst := old(mapped)[src]] && free <= old(free)
      ensures ok ==> CopiedInto(old(Abs()).spaces, Abs().spaces, src, dst, cow)
      ensures !ok ==> roots == old(roots) - {dst} && mapped == old(mapped) - {dst}
      ensures !ok ==> Abs().spaces == old(Abs()).spaces - {dst}
      ensures KeepsLean(old(tables), old(pos), old(roots), tables, pos, roots)
    {
      hide Shape, Walk, SameWalks, FourK, WalksNowhere, Spaces, CopiedInto, KeepsLean, OnlyIn, LeanDir;
      ok := FillCopy(src, dst, cow);
      if ok {
        CopyStatistics(src, dst);
      } else {
        ghost var t2, pos2 := tables, pos;
        DestroyPageDirectory(dst);
        OnlyThen(old(tables), old(pos), t2, pos2, tables, pos, dst);
        LeanKept(old(tables), old(pos), old(roots), tables, pos, roots, dst);
        SameWalksThen(old(tables), t2, tables, roots);
        DropSpace(old(tables), tables, old(roots), dst);
      }
    }

    /** `copy_page_directory` */
    method CopyPageDirectory(src: nat, cow: bool) returns (r: Option<nat>)
      requires Valid()
      requires src in roots ==> FourK(tables, roots[src])
      modifies this`tables, this`free, this`refused, this`pos, this`roots, this`mapped, this`nextDir
      ensures refused == old(refused) + if src in old(roots) && r.None? then 1 else 0
      ensures Valid()
      ensures src !in old(roots) ==> r.None? && Abs() == old(Abs())
      ensures r.None? ==> roots == old(roots) && FailStep(old(Abs()), Abs())
      ensures r.Some? ==> src in old(roots) && r.value !in old(roots) && mapped == old(mapped)[r.value := old(mapped)[src]]
      ensures r.Some? ==> CopiedInto(old(Abs()).spaces, Abs().spaces, src, r.value, cow)
      ensures r.Some? ==> src in roots && r.value in roots && CopySeen(old(tables), old(roots)[src], tables, roots[src], roots[r.value], cow)
      ensures r.Some? ==> if cow then CopyStep(old(Abs()), src, r.value, Abs()) else PlainCopyStep(old(Abs()), src, r.value, Abs())
      ensures KeepsLean(old(tables), old(pos), old(roots), tables, pos, roots)
      ensures r.Some? ==> r.value in roots && LeanDir(tables, pos, roots, r.value)
    {
      hide CopySeen, Shape, Walk, SameWalks, FourK, WalksNowhere, Spaces, CopyStep, PlainCopyStep, LeanDir, CopiedInto, KeepsLean;
      KeepsLeanSame(tables, pos, roots);
      PoolsApart(tables.Keys, free, data.Keys);
      if src !in roots {
        return None;
      }
      ghost var root;
      r, root := CreatePageDirectory();
      if r.None? {
        return;
      }
      var dst := r.value;
      ghost var mid, t1, pos1, roots1 := Abs(), tables, pos, roots;
      FourKKept(old(tables), tables, old(roots), roots, src);
      var ok := FillOrDestroy(src, dst, cow);
      KeepsLeanThen(old(tables), old(pos), old(roots), t1, pos1, roots1, tables, pos, roots);
      KeptAt(t1, pos1, roots1, tables, pos, roots, dst);
      if ok {
        MapTwice(old(mapped), src, dst, 0);
        CopiedFrom(old(Abs()).spaces, mid.spaces, Abs().spaces, src, dst, cow);
        CopyIsStep(old(Abs()), Abs(), src, dst, cow);
        CopyIsSeen(old(tables), old(roots), tables, roots, src, dst, cow);
      } else {
        MapBack(old(roots), dst, root);
        MapBack(old(mapped), dst, 0);
        MapBack(old(Abs()).spaces, dst, map[]);
        return None;
      }
    }

    // ----- validation -----

    /** One table of `validate_page_tables`: are all leaves below it in order, and how many pages
        do they map?  The nested loops over the four levels are this loop at each level. */
    method ValidateTable(f: nat, level: nat, base: nat) returns (ok: bool, count: nat)
      requires Valid() && f in tables && pos[f].level == level && pos[f].base == base
      requires 1 <= level <= 4 && base < Prefixes(level)
      ensures count == |PagesUnder(tables, f, level, base)|
      ensures ok <==> AllOkUnder(tables, f, level, base)
      decreases level
    {
      hide Walk, PagesThrough, PagesBefore, PagesUnder, Up;
      ok, count := true, 0;
      BeforeStart(tables, f, level, base);
      for j := 0 to 512
        invariant count == |PagesBefore(tables, f, level, base, j)|
        invariant ok <==> AllOkBefore(tables, f, level, base, j)
      {
        BeforeThen(tables, f, level, base, j);
        var slotOk, n := ValidateSlot(f, level, base, j);
        ok, count := ok && slotOk, count + n;
      }
      BeforeEnd(tables, f, level, base);
    }

    /** One entry: absent, a leaf to be checked, or a pointer to the next table. */
    method ValidateSlot(f: nat, level: nat, base: nat, j: nat) returns (ok: bool, count: nat)
      requires Valid() && f in tables && pos[f].level == level && pos[f].base == base
      requires 1 <= level <= 4 && base < Prefixes(level) && j < 512
      ensures count == |PagesThrough(tables, f, level, base, j)|
      ensures ok <==> forall v | v in PagesThrough(tables, f, level, base, j) :: LeafOk(Walk(tables, f, level, v))
      decreases level, 0
    {
      hide Walk, PagesThrough, PagesBefore, PagesUnder, Up;
      var e := tables[f][j];
      assert Linked(tables, pos, f, j);
      if !e.flags.present {
        ThroughNothing(tables, f, level, base, j);
        return true, 0;
      }
      if IsTablePtr(e, level) {
        ok, count := ValidateTable(e.frame, level - 1, base * 512 + j);
        ThroughTable(tables, f, level, base, j);
        return;
      }
      ThroughLeaf(tables, f, level, base, j);
      return LeafOk(Leaf(level, e)), Span(level);
    }

    /** `validate_page_tables` */
    method ValidatePageTables(d: nat) returns (r: Errno)
      requires Valid()
      ensures r == EINVAL <==> d !in roots
      ensures d in roots ==> r == if Validates(tables, roots[d], mapped[d]) then Ok else EFAULT
      ensures d in roots ==> (r == Ok <==> InOrder(tables, roots[d]) && mapped[d] == |SpaceOf(tables, roots[d])|)
    {
      if d in roots {
        OrderOnBytes(tables, roots[d]);
      }
      hide Walk, PagesUnder;
      if d !in roots {
        return EINVAL;
      }
      var ok, count := ValidateTable(roots[d], 4, 0);
      UnderRoot(tables, roots[d]);
      return if ok && count == mapped[d] then Ok else EFAULT;
    }
  }
}
