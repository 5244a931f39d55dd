/** Laws of translation: page sizes do not show, and unmapping undoes mapping. */
module PagingLaws {
  import opened Wrappers
  import opened PageForest
  import opened AddressSpaces
  import opened CowModel
  import opened PagingSteps
  import opened TableChanges
  import opened Lean
  import opened Translation
  import opened PagingSystem
  import opened Words

  /** Whichever leaf sizes a large-page request picks, every address of every directory is
      translated as by the same request made without large pages. */
  lemma PageSizeDoesNotShow(h: Heap, large: Heap, small: Heap, roots: map<nat, nat>, d: nat, v: nat, p: nat, k: nat,
                            flags: Flags, flags': Flags, d': nat, vaddr: nat)
    requires Installed(h, large, roots, d, v, p, k, flags) && Installed(h, small, roots, d, v, p, k, flags')
    requires d' in roots && vaddr < 0x1_0000_0000_0000
    ensures GetPhysicalAddress(large, roots[d'], vaddr) == GetPhysicalAddress(small, roots[d'], vaddr)
  {
    hide Walk, Low, GetPhysicalAddress, FlagsOf;
    var w := vaddr / 4096;
    FromWalk(large, roots[d'], vaddr);
    FromWalk(small, roots[d'], vaddr);
    if d' == d && v <= w < v + k {
      assert LeafInside(Walk(large, roots[d'], 4, w), w, v, p, k, flags);
      assert LeafInside(Walk(small, roots[d'], 4, w), w, v, p, k, flags');
    } else {
      assert Walk(large, roots[d'], 4, w) == Walk(h, roots[d'], 4, w) == Walk(small, roots[d'], 4, w);
    }
  }

  /** A mapped range begins and ends with its leaves, so unmapping it may start and stops in time. */
  lemma MappedRangeEnds(h: Heap, h1: Heap, roots: map<nat, nat>, d: nat, v: nat, p: nat, n: nat, flags: Flags, done: nat)
    requires d in roots && 0 < n && v + n <= PAGES && Installed(h, h1, roots, d, v, p, n, flags)
    ensures AtLeafStart(h1, roots[d], v)
    ensures n <= done && StopsAt(h1, roots[d], v, n, done) ==> done == n
  {
    hide Walk;
    assert LeafInside(Walk(h1, roots[d], 4, v), v, v, p, n, flags);
    assert LeafInside(Walk(h1, roots[d], 4, v + n - 1), v + n - 1, v, p, n, flags);
  }

  /** Unmapping what was mapped over a free range restores every translation, for any page sizes. */
  lemma UnmapUndoesMap(h: Heap, h1: Heap, h2: Heap, roots: map<nat, nat>, d: nat, v: nat, p: nat, n: nat, flags: Flags)
    requires d in roots && v + n <= PAGES
    requires RangeFree(h, roots[d], v, n)
    requires Installed(h, h1, roots, d, v, p, n, flags) && Cleared(h1, h2, roots, d, v, n)
    ensures SameWalks(h, h2, roots)
  {
    hide Walk, PageOf;
    forall d', w: nat | d' in roots && w < PAGES ensures Walk(h2, roots[d'], 4, w) == Walk(h, roots[d'], 4, w) {
      assert d' == d && v <= w < v + n ==> Walk(h2, roots[d'], 4, w) == NoLeaf;
    }
  }

  lemma MappedCount(h: Heap, h1: Heap, roots: map<nat, nat>, d: nat, v: nat, p: nat, n: nat, flags: Flags)
    requires d in roots && v + n <= PAGES && Installed(h, h1, roots, d, v, p, n, flags)
    ensures |MappedIn(h1, roots[d], v, n)| == n
  {
    hide Walk, PageOf;
    forall w: nat | v <= w < v + n ensures Walk(h1, roots[d], 4, w).Leaf? {
      assert LeafInside(Walk(h1, roots[d], 4, w), w, v, p, n, flags);
    }
    assert MappedIn(h1, roots[d], v, n) == Frames(v, n);
    FramesCount(v, n);
  }

  lemma FourKAfterMap(h: Heap, h1: Heap, roots: map<nat, nat>, d: nat, v: nat, p: nat, n: nat, flags: Flags)
    requires d in roots && FourK(h, roots[d]) && !flags.large && Installed(h, h1, roots, d, v, p, n, flags)
    ensures FourK(h1, roots[d])
  {
    forall w: nat | w < PAGES && Walk(h1, roots[d], 4, w).Leaf? ensures Walk(h1, roots[d], 4, w).level == 1 {
      if v <= w < v + n {
        assert LeafInside(Walk(h1, roots[d], 4, w), w, v, p, n, flags);
        WalkLeafLarge(h1, roots[d], 4, w);
      } else {
        assert Walk(h1, roots[d], 4, w) == Walk(h, roots[d], 4, w);
      }
    }
  }

  /** In a lean directory of 4K pages the round trip also restores the exact set of table frames. */
  lemma RoundTripTables(h: Heap, pos: map<nat, Pos>, h1: Heap, pos1: map<nat, Pos>, h2: Heap, pos2: map<nat, Pos>,
                        roots: map<nat, nat>, d: nat, v: nat, p: nat, n: nat, flags: Flags)
    requires Shape(h, pos, roots) && Shape(h2, pos2, roots) && d in roots && LeanDir(h, pos, roots, d)
    requires Installed(h, h1, roots, d, v, p, n, flags) && SameWalks(h, h2, roots)
    requires TidyRange(h, pos, h1, pos1, roots, d, true) && TidyRange(h1, pos1, h2, pos2, roots, d, true)
    ensures LeanDir(h2, pos2, roots, d) && TablesOf(h2, pos2, d) == TablesOf(h, pos, d)
  {
    hide Walk, TableAt, PageOf, Shape, LeanDir, TablesOf;
    KeepsThen(h, h1, h2, roots[d]);
    KeepsBack(h, h2, roots[d]);
    LeanTablesIncluded(h, pos, h2, pos2, roots, d);
    LeanTablesIncluded(h2, pos2, h, pos, roots, d);
  }

  lemma KeepsBack(h: Heap, h': Heap, root: nat)
    requires KeepsPaths(h, h', root)
    ensures KeepsPaths(h', h, root)
  {
    hide Walk, TableAt;
  }

  /** If the tables of `d` are back and no other directory's were touched, so are all frames. */
  lemma RoundTripFrames(h: Heap, pos: map<nat, Pos>, free: set<nat>, h1: Heap, pos1: map<nat, Pos>, free1: set<nat>,
                        h2: Heap, pos2: map<nat, Pos>, free2: set<nat>, data: map<nat, Page>, roots: map<nat, nat>, d: nat)
    requires Shape(h, pos, roots) && Shape(h1, pos1, roots) && Shape(h2, pos2, roots) && d in roots
    requires OnlyIn(h, pos, h1, pos1, d) && OnlyIn(h1, pos1, h2, pos2, d) && TablesOf(h2, pos2, d) == TablesOf(h, pos, d)
    requires Grown(h, free, h1, free1) && Kept(h1, free1, data, h2, free2, data)
    requires Pools(h.Keys, free, data.Keys) && Pools(h2.Keys, free2, data.Keys)
    ensures h2.Keys == h.Keys && free2 == free
  {
    hide Forest, Rooted, TablesOf, OnlyIn;
    forall g ensures g in h <==> g in h2 {
      TableIsBack(h, pos, h1, pos1, h2, pos2, roots, d, g);
      TableIsBack(h2, pos2, h1, pos1, h, pos, roots, d, g);
    }
    assert h2.Keys == h.Keys;
    assert h2.Keys + free2 + data.Keys == h.Keys + free + data.Keys;
  }

  /** A table frame is a PML4 table, a table of `d`, or one that was not touched. */
  lemma TableIsBack(h: Heap, pos: map<nat, Pos>, h1: Heap, pos1: map<nat, Pos>, h2: Heap, pos2: map<nat, Pos>,
                    roots: map<nat, nat>, d: nat, g: nat)
    requires Shape(h, pos, roots) && Shape(h1, pos1, roots) && Shape(h2, pos2, roots) && d in roots
    requires OnlyIn(h, pos, h1, pos1, d) || OnlyIn(h1, pos1, h, pos, d)
    requires OnlyIn(h1, pos1, h2, pos2, d) || OnlyIn(h2, pos2, h1, pos1, d)
    requires TablesOf(h2, pos2, d) == TablesOf(h, pos, d)
    ensures g in h ==> g in h2
  {
    if g in h && pos[g].dir == d {
      if pos[g].level == 4 {
        assert g == roots[d];
      } else {
        assert g in TablesOf(h, pos, d);
      }
    }
  }

  lemma LeanRoundTrip(h: Heap, pos: map<nat, Pos>, free: set<nat>, h1: Heap, pos1: map<nat, Pos>, free1: set<nat>,
                      h2: Heap, pos2: map<nat, Pos>, free2: set<nat>, data: map<nat, Page>,
                      roots: map<nat, nat>, d: nat, v: nat, p: nat, n: nat, flags: Flags)
    requires Shape(h, pos, roots) && Shape(h1, pos1, roots) && Shape(h2, pos2, roots) && d in roots
    requires Pools(h.Keys, free, data.Keys) && Pools(h2.Keys, free2, data.Keys)
    requires !flags.large && FourK(h, roots[d]) && LeanDir(h, pos, roots, d)
    requires Installed(h, h1, roots, d, v, p, n, flags) && SameWalks(h, h2, roots)
    requires RangeTables(h, pos, free, h1, pos1, free1, roots, d, flags, true)
    requires UnmapTables(h1, pos1, free1, data, h2, pos2, free2, data, roots, d)
    ensures h2.Keys == h.Keys && free2 == free && TablesOf(h2, pos2, d) == TablesOf(h, pos, d) && LeanDir(h2, pos2, roots, d)
  {
    hide Walk, LeanDir, TablesOf, FourK, SameWalks, Shape, RangeTables, UnmapTables, Installed, TidyRange, OnlyIn, Grown, Kept, Pools;
    FourKAfterMap(h, h1, roots, d, v, p, n, flags);
    TidyBoth(h, pos, free, h1, pos1, free1, data, h2, pos2, free2, data, roots, d, flags);
    RoundTripTables(h, pos, h1, pos1, h2, pos2, roots, d, v, p, n, flags);
    RoundTripFrames(h, pos, free, h1, pos1, free1, h2, pos2, free2, data, roots, d);
  }

  ghost predicate RangeFree(h: Heap, root: nat, v: nat, n: nat) {
    forall w: nat | v <= w < v + n :: Walk(h, root, 4, w).NoLeaf?
  }

  /** Map a range, then unmap the same range.  A request for large pages must find it free; any other
      fails if it does not.  The counter comes back exactly if no large leaf suits anywhere in the range;
      in a lean directory of 4K pages, so does every frame. */
  method MapThenUnmap(s: PagingSystem, d: nat, vaddr: nat, paddr: nat, size: nat, flags: Flags) returns (r: Errno)
    requires s.Valid() && vaddr + size <= 0x1_0000_0000_0000
    requires d in s.roots && flags.large ==> RangeFree(s.tables, s.roots[d], vaddr / 4096, PageCount(vaddr, size))
    modifies s
    ensures s.Valid() && s.roots == old(s.roots) && s.data == old(s.data)
    ensures r == EINVAL <==> d !in s.roots || size == 0
    ensures r == ENOMEM <==> s.refused != old(s.refused)
    ensures r == Ok <==>
              && d in s.roots && size > 0 && s.refused == old(s.refused)
              && RangeFree(old(s.tables), s.roots[d], vaddr / 4096, PageCount(vaddr, size))
    ensures r == Ok ==> d in s.roots && SameWalks(old(s.tables), s.tables, s.roots)
    ensures r == Ok ==>
              (s.mapped == old(s.mapped) <==>
               NoLargeLeaf(flags, vaddr / 4096, paddr / 4096, PageCount(vaddr, size), PageCount(vaddr, size)))
    ensures r == Ok && !flags.large && FourK(old(s.tables), s.roots[d]) && old(LeanDir(s.tables, s.pos, s.roots, d)) ==>
              && s.tables.Keys == old(s.tables.Keys) && s.free == old(s.free)
              && TablesOf(s.tables, s.pos, d) == old(TablesOf(s.tables, s.pos, d))
              && LeanDir(s.tables, s.pos, s.roots, d)
  {
    hide Walk, TableAt, LeanDir, TablesOf, FourK, Cleared, SameWalks, MappedIn, Shape, MapResult, UnmapResult, WrapSub,
         RangeTables, UnmapTables, Tallied, NoLargeLeaf, KeepsLean, OthersLean, Installed, SmallAreNew, PageCount, RangeFree,
         LayStep, UnmapStep, Spaces, Without, PageRun, OwnsFrames, LastEnd, AtLeafStart, Pools;
    ghost var done;
    r, done := s.MapMemoryRange(d, vaddr, paddr, size, flags);
    ghost var v, p, n := vaddr / 4096, paddr / 4096, PageCount(vaddr, size);
    if r != Ok {
      if r != EINVAL {
        MapResultNot(old(s.tables), s.tables, s.roots, d, v, p, n, flags, r, done);
      }
      return;
    }
    ghost var t1, pos1, mapped1, free1 := s.tables, s.pos, s.mapped, s.free;
    MapResultOk(old(s.tables), t1, s.roots, d, v, p, n, flags, done);
    MappedRangeEnds(old(s.tables), t1, s.roots, d, v, p, n, flags, n);
    ghost var done2;
    r, done2 := s.UnmapMemoryRange(d, vaddr, size, false);
    MapUndone(old(s.tables), t1, s.tables, old(s.data), s.data, old(s.mapped), mapped1, s.mapped, s.roots, d, v, p, n, flags, done2);
    if !flags.large && FourK(old(s.tables), s.roots[d]) && old(LeanDir(s.tables, s.pos, s.roots, d)) {
      LeanRoundTrip(old(s.tables), old(s.pos), old(s.free), t1, pos1, free1, s.tables, s.pos, s.free, s.data, s.roots, d, v, p, n, flags);
    }
  }

  lemma MapResultOk(h: Heap, h': Heap, roots: map<nat, nat>, d: nat, v: nat, p: nat, n: nat, flags: Flags, done: nat)
    requires d in roots && MapResult(h, h', roots, d, v, p, n, flags, Ok, done)
    ensures done == n && Installed(h, h', roots, d, v, p, n, flags)
    ensures !flags.large ==> RangeFree(h, roots[d], v, n)
  {
    hide Walk, Installed;
  }

  /** A request that fails for another reason than memory has found a page mapped. */
  lemma MapResultNot(h: Heap, h': Heap, roots: map<nat, nat>, d: nat, v: nat, p: nat, n: nat, flags: Flags, r: Errno, done: nat)
    requires d in roots && r != Ok && MapResult(h, h', roots, d, v, p, n, flags, r, done)
    ensures r == ENOMEM || !RangeFree(h, roots[d], v, n)
  {
    hide Walk, MapProgress;
  }

  lemma MapUndone(h: Heap, h1: Heap, h2: Heap, data: map<nat, Page>, data2: map<nat, Page>,
                  m: map<nat, nat>, m1: map<nat, nat>, m2: map<nat, nat>,
                  roots: map<nat, nat>, d: nat, v: nat, p: nat, n: nat, flags: Flags, done: nat)
    requires d in roots && 0 < n && v + n <= PAGES && Installed(h, h1, roots, d, v, p, n, flags)
    requires RangeFree(h, roots[d], v, n)
    requires UnmapResult(h1, data, h2, data2, roots, d, v, n, false, done)
    requires Tallied(m, m1, h1, roots[d], d, v, p, n, n, flags) && m[d] < U64
    requires m2 == m1[d := WrapSub(m1[d], |MappedIn(h1, roots[d], v, done)|)]
    ensures SameWalks(h, h2, roots) && data2 == data && (m2 == m <==> NoLargeLeaf(flags, v, p, n, n))
  {
    hide Walk, Installed, Cleared, SameWalks, MappedIn, Tallied, NoLargeLeaf, WrapSub, StopsAt;
    MappedRangeEnds(h, h1, roots, d, v, p, n, flags, done);
    UnmapUndoesMap(h, h1, h2, roots, d, v, p, n, flags);
    NothingFreed(data);
    MappedCount(h, h1, roots, d, v, p, n, flags);
    CounterBack(m, m1, m2, h1, roots[d], d, v, p, n, flags);
  }

  lemma TidyBoth(h: Heap, pos: map<nat, Pos>, free: set<nat>, h1: Heap, pos1: map<nat, Pos>, free1: set<nat>, data1: map<nat, Page>,
                 h2: Heap, pos2: map<nat, Pos>, free2: set<nat>, data2: map<nat, Page>, roots: map<nat, nat>, d: nat, flags: Flags)
    requires d in roots && !flags.large && FourK(h1, roots[d])
    requires RangeTables(h, pos, free, h1, pos1, free1, roots, d, flags, true)
    requires UnmapTables(h1, pos1, free1, data1, h2, pos2, free2, data2, roots, d)
    ensures TidyRange(h, pos, h1, pos1, roots, d, true) && TidyRange(h1, pos1, h2, pos2, roots, d, true)
    ensures OnlyIn(h, pos, h1, pos1, d) && OnlyIn(h1, pos1, h2, pos2, d)
    ensures Grown(h, free, h1, free1) && Kept(h1, free1, data1, h2, free2, data2)
  {
    hide FourK, TidyRange, OnlyIn, NoneOrphaned, Kept, Grown;
  }

  lemma NothingFreed(data: map<nat, Page>)
    ensures data - {} == data
  {
  }

  lemma CounterBack(m: map<nat, nat>, m1: map<nat, nat>, m2: map<nat, nat>, h: Heap, root: nat,
                    d: nat, v: nat, p: nat, n: nat, flags: Flags)
    requires n <= PAGES && Tallied(m, m1, h, root, d, v, p, n, n, flags) && m[d] < U64
    requires m2 == m1[d := WrapSub(m1[d], n)]
    ensures m2 == m <==> NoLargeLeaf(flags, v, p, n, n)
  {
    hide SmallIn, NoLargeLeaf;
    var count := |SmallIn(h, root, v, n)|;
    assert m2[d] == WrapSub(WrapAdd(m[d], count), n);
    assert m2[d] == m[d] <==> count == n;
    assert m2 == m[d := m2[d]];
  }
}
