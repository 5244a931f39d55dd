/** When `validate_page_tables` accepts a directory: what each operation does to that. */
module Validation {
  import opened Wrappers
  import opened PageForest
  import opened PagingSteps
  import opened AddressSpaces
  import opened CowModel
  import opened PagingBridge
  import opened PageCensus
  import opened SaneSpaces
  import opened Translation
  import opened Words

  /** Every directory of a system satisfying the invariant validates. */
  lemma InvValidates(h: Heap, roots: map<nat, nat>, mapped: map<nat, nat>, data: map<nat, Page>, free: set<nat>, d: nat)
    requires CowInv(View(h, roots, mapped, data, free)) && d in roots
    ensures d in mapped && Validates(h, roots[d], mapped[d])
  {
    InvSane(View(h, roots, mapped, data, free));
    SaneDirectory(h, roots, mapped, data, free, d);
  }

  lemma SpaceSize(h: Heap, root: nat)
    ensures |SpaceOf(h, root)| <= PAGES < U64
  {
    hide Walk;
    FramesCount(0, PAGES);
    SubsetCount(SpaceOf(h, root).Keys, Frames(0, PAGES));
  }

  ghost predicate AllMapped(h: Heap, root: nat, v: nat, k: nat) {
    forall w: nat | v <= w < v + k :: Walk(h, root, 4, w).Leaf?
  }

  /** Adding a run of pages: the size does not change exactly if all of them were there. */
  lemma RunCount(sp: Space, v: nat, p: nat, k: nat, flags: Flags)
    ensures |sp + PageRun(v, p, k, flags)| == |sp| <==> forall w: nat | Within(w, v, k) :: w in sp
  {
    var added := Frames(v, k) - sp.Keys;
    assert (sp + PageRun(v, p, k, flags)).Keys == sp.Keys + added;
    if added != {} {
      var w :| w in added;
    }
  }

  lemma MapSize(h: Heap, h': Heap, roots: map<nat, nat>, d: nat, v: nat, p: nat, k: nat, flags: Flags)
    requires d in roots && v + k <= PAGES && Installed(h, h', roots, d, v, p, k, flags)
    ensures |SpaceOf(h', roots[d])| == |SpaceOf(h, roots[d])| <==> AllMapped(h, roots[d], v, k)
    ensures (forall w: nat | v <= w < v + k :: Walk(h, roots[d], 4, w).NoLeaf?) ==> |SpaceOf(h', roots[d])| == |SpaceOf(h, roots[d])| + k
  {
    hide Walk, PageOf, PageRun, Installed;
    var sp := SpaceOf(h, roots[d]);
    forall w: nat | Within(w, v, k) ensures w in sp <==> Walk(h, roots[d], 4, w).Leaf? {
    }
    InstalledSpaces(h, h', roots, d, v, p, k, flags);
    SpaceIn(h', roots, d);
    RunCount(sp, v, p, k, flags);
    if forall w: nat | v <= w < v + k :: Walk(h, roots[d], 4, w).NoLeaf? {
      WithRunCount(sp, v, p, k, flags);
    }
  }

  /** The leaves of a map request are in order exactly if no 4K leaf carries the PAGE_SIZE flag. */
  lemma MapLeaves(h: Heap, h': Heap, roots: map<nat, nat>, d: nat, v: nat, p: nat, k: nat, flags: Flags)
    requires d in roots && v + k <= PAGES && Installed(h, h', roots, d, v, p, k, flags)
    requires LeavesOk(h, roots[d])
    ensures LeavesOk(h', roots[d]) <==> !flags.large || SmallIn(h', roots[d], v, k) == {}
  {
    hide Walk, SmallIn;
    forall w: nat | v <= w < v + k
      ensures Walk(h', roots[d], 4, w).Leaf? && 1 <= Walk(h', roots[d], 4, w).level <= 3
      ensures LeafOk(Walk(h', roots[d], 4, w)) <==> !flags.large || w !in SmallIn(h', roots[d], v, k)
    {
      assert LeafInside(Walk(h', roots[d], 4, w), w, v, p, k, flags);
      WalkLevel(h', roots[d], 4, w);
      SmallInAt(h', roots[d], v, k, w);
    }
    if flags.large && SmallIn(h', roots[d], v, k) != {} {
      var w :| w in SmallIn(h', roots[d], v, k);
      SmallInAt(h', roots[d], v, k, w);
      assert !LeafOk(Walk(h', roots[d], 4, w));
    }
  }

  lemma SmallInAt(h: Heap, root: nat, v: nat, k: nat, w: nat)
    ensures w in SmallIn(h, root, v, k) <==> v <= w < v + k && Walk(h, root, 4, w).Leaf? && Walk(h, root, 4, w).level == 1
  {
  }

  /** A map request keeps a directory valid exactly if it was made without PAGE_SIZE, or only laid
      large leaves over pages mapped before: it then changes no page's presence and counts nothing. */
  lemma MapValidates(h: Heap, h': Heap, roots: map<nat, nat>, mapped: map<nat, nat>, mapped': map<nat, nat>,
                     d: nat, v: nat, p: nat, n: nat, k: nat, flags: Flags)
    requires d in roots && v + n <= PAGES && MapProgress(h, h', roots, d, v, p, k, flags)
    requires Tallied(mapped, mapped', h', roots[d], d, v, p, n, k, flags) && Validates(h, roots[d], mapped[d])
    ensures Validates(h', roots[d], mapped'[d]) <==>
            !flags.large || (NoSmallLeaf(flags, v, p, k) && AllMapped(h, roots[d], v, k))
  {
    hide Walk, SpaceOf, WrapAdd, SmallIn, Installed, AllMapped, LeavesOk, SmallAreNew;
    MapLeaves(h, h', roots, d, v, p, k, flags);
    MapSize(h, h', roots, d, v, p, k, flags);
    SpaceSize(h, roots[d]);
    SpaceSize(h', roots[d]);
    if !flags.large {
      SmallInAll(h, h', roots, d, v, p, k, flags);
      WrapSmall(mapped[d], k);
    } else if NoSmallLeaf(flags, v, p, k) {
      WrapSmall(mapped[d], 0);
    }
  }

  /** Unmapping keeps a directory valid, whatever the page sizes. */
  lemma UnmapValidates(h: Heap, h': Heap, roots: map<nat, nat>, d: nat, v: nat, k: nat, counter: nat)
    requires d in roots && v + k <= PAGES && Cleared(h, h', roots, d, v, k) && Validates(h, roots[d], counter)
    ensures Validates(h', roots[d], WrapSub(counter, |MappedIn(h, roots[d], v, k)|))
  {
    hide Walk, SpaceOf, WrapSub, Without, MappedIn, PagesIn;
    ClearedSpaces(h, h', roots, d, v, k);
    SpaceIn(h', roots, d);
    MappedIsPages(h, roots[d], v, k);
    WithoutCount(SpaceOf(h, roots[d]), v, k);
    SpaceSize(h, roots[d]);
    WrapSmall(counter, |MappedIn(h, roots[d], v, k)|);
  }

  lemma UserPartCount(sp: Space)
    ensures |UserPart(sp)| == |sp| <==> forall v | v in sp :: v < USER_PAGES
  {
    var kernel := set v | v in sp && v >= USER_PAGES;
    assert sp.Keys == UserPart(sp).Keys + kernel;
    assert kernel == {} <==> forall v | v in sp :: v < USER_PAGES;
  }

  /** The counter is copied as it is although only the user half is copied: the copy, marked or not,
      validates exactly when the source maps no page above it. */
  lemma CopyValidates(h: Heap, h1: Heap, h2: Heap, h3: Heap, roots: map<nat, nat>, src: nat, dst: nat, cow: bool, counter: nat)
    requires src in roots && dst in roots && src != dst && Copied(h, h1, roots, src, dst, USER_PAGES)
    requires if cow then Marked(h1, h2, roots, src, USER_PAGES) && Marked(h2, h3, roots, dst, USER_PAGES) else h3 == h1
    requires Validates(h, roots[src], counter)
    ensures Validates(h3, roots[dst], counter) <==> forall v | v in SpaceOf(h, roots[src]) :: v < USER_PAGES
  {
    hide Walk, SpaceOf, UserPart, CowSpace;
    UserPartCount(SpaceOf(h, roots[src]));
    CopySize(h, h1, h2, h3, roots, src, dst, cow);
    forall v: nat | v < PAGES && Walk(h3, roots[dst], 4, v).Leaf? ensures LeafOk(Walk(h3, roots[dst], 4, v)) {
      if cow {
        assert Walk(h3, roots[dst], 4, v) == CowLeaf(Walk(h2, roots[dst], 4, v));
        assert Walk(h2, roots[dst], 4, v) == Walk(h1, roots[dst], 4, v);
      }
      assert LeafOk(Walk(h, roots[src], 4, v));
    }
  }

  /** Marking the user half copy-on-write keeps a directory valid: what becomes copy-on-write is not writable. */
  lemma MarkedValidates(h: Heap, h': Heap, roots: map<nat, nat>, d: nat, k: nat, counter: nat)
    requires d in roots && Marked(h, h', roots, d, k) && Validates(h, roots[d], counter)
    ensures Validates(h', roots[d], counter)
  {
    hide Walk;
    SameSize(h, h', roots[d]);
  }

  /** A resolved fault keeps a directory valid, whatever frame was behind the page. */
  lemma FaultValidates(h: Heap, data: map<nat, Page>, free: set<nat>, h': Heap, data': map<nat, Page>, free': set<nat>,
                       roots: map<nat, nat>, d: nat, v: nat, r: Errno, counter: nat)
    requires d in roots && v < PAGES && FaultResult(h, data, free, h', data', free', roots, d, v, r) && Validates(h, roots[d], counter)
    ensures Validates(h', roots[d], counter)
  {
    hide Walk;
    if r == Ok {
      var f :| CowBroken(h, data, free, h', data', free', roots, d, v, f);
      assert LeafOk(Walk(h, roots[d], 4, v));
      SameSize(h, h', roots[d]);
    }
  }

  lemma SameSize(h: Heap, h': Heap, root: nat)
    requires forall w: nat {:trigger Walk(h', root, 4, w)} | w < PAGES :: Walk(h', root, 4, w).Leaf? <==> Walk(h, root, 4, w).Leaf?
    ensures |SpaceOf(h', root)| == |SpaceOf(h, root)|
  {
    hide Walk;
    assert SpaceOf(h', root).Keys == SpaceOf(h, root).Keys;
  }

  lemma CopySize(h: Heap, h1: Heap, h2: Heap, h3: Heap, roots: map<nat, nat>, src: nat, dst: nat, cow: bool)
    requires src in roots && dst in roots && src != dst && Copied(h, h1, roots, src, dst, USER_PAGES)
    requires if cow then Marked(h1, h2, roots, src, USER_PAGES) && Marked(h2, h3, roots, dst, USER_PAGES) else h3 == h1
    ensures |SpaceOf(h3, roots[dst])| == |UserPart(SpaceOf(h, roots[src]))|
  {
    hide Walk, SpaceOf, Copied, Marked;
    SpaceIn(h, roots, src);
    SpaceIn(h3, roots, dst);
    if cow {
      CopyMarkSpaces(h, h1, h2, h3, roots, src, dst);
      assert CowSpace(UserPart(SpaceOf(h, roots[src]))).Keys == UserPart(SpaceOf(h, roots[src])).Keys;
    } else {
      CopySpaces(h, h1, roots, src, dst);
    }
  }

  // ----- directories with one page -----

  const LINK := LinkFlags(NO_FLAGS)

  /** A directory with one 4K entry: the first one below slot `i` of its PML4 table. */
  function OnePage(i: nat, e: Entry): Heap
    requires i < 512
  {
    map[0 := EmptyTable()[i := Entry(1, LINK)], 1 := EmptyTable()[0 := Entry(2, LINK)],
        2 := EmptyTable()[0 := Entry(3, LINK)], 3 := EmptyTable()[0 := e]]
  }

  lemma OnePageWalk(h: Heap, i: nat, e: Entry, v: nat)
    requires i < 512 && v < PAGES && (forall f | f in OnePage(i, e) :: f in h && h[f] == OnePage(i, e)[f])
    ensures Walk(h, 0, 4, v) == if v == i * 134217728 then LeafOf(e, 1) else NoLeaf
  {
    assert v == Up(v, 1) * 512 + Index(v, 1) && Up(v, 1) == Up(v, 2) * 512 + Index(v, 2);
    assert Up(v, 2) == Up(v, 3) * 512 + Index(v, 3) && Index(v, 4) == Up(v, 3);
    WalkSlot(h, 0, 4, v);
    WalkSlot(h, 1, 3, v);
    WalkSlot(h, 2, 2, v);
    WalkSlot(h, 3, 1, v);
  }

  lemma WalkSlot(h: Heap, f: nat, level: nat, v: nat)
    requires f in h && 1 <= level <= 4
    ensures var e := h[f][Index(v, level)];
            Walk(h, f, level, v) == if IsTablePtr(e, level) then Walk(h, e.frame, level - 1, v) else LeafOf(e, level)
  {
  }

  /** One page asked for with PAGE_SIZE of an empty directory: it validated before and does not any more. */
  lemma LargeMapFailsValidation(h: Heap, h': Heap, flags: Flags)
    requires flags == NO_FLAGS.(large := true)
    requires h == map[0 := EmptyTable()] && h' == OnePage(0, Entry(7, MapFlags(flags)))
    ensures MapResult(h, h', map[0 := 0], 0, 0, 7, 1, flags, Ok, 1) && Validates(h, 0, 0)
    ensures SmallIn(h', 0, 0, 1) == {0} && forall counter :: !Validates(h', 0, counter)
  {
    hide Walk;
    forall v: nat | v < PAGES
      ensures Walk(h, 0, 4, v).NoLeaf? && Walk(h', 0, 4, v) == if v == 0 then Leaf(1, Entry(7, MapFlags(flags))) else NoLeaf
    {
      WalkSlot(h, 0, 4, v);
      OnePageWalk(h', 0, Entry(7, MapFlags(flags)), v);
    }
    assert SpaceOf(h, 0) == map[];
    assert !LeafOk(Walk(h', 0, 4, 0));
  }

  /** A directory with one page, in the last PML4 slot of the user half: every copy of it has the page. */
  lemma UserPageIsCopied(h: Heap, h': Heap, roots: map<nat, nat>, vaddr: nat)
    requires h == OnePage(255, Entry(7, LINK))[4 := EmptyTable()] && roots == map[0 := 0, 1 := 4] && vaddr == 0x7F80_0000_0000
    requires Copied(h, h', roots, 0, 1, USER_PAGES)
    ensures GetPhysicalAddress(h', 4, vaddr) == Some(0x7000)
  {
    hide Walk, GetPhysicalAddress;
    OnePageWalk(h, 255, Entry(7, LINK), vaddr / 4096);
    assert Walk(h', roots[1], 4, vaddr / 4096) == Walk(h, roots[0], 4, vaddr / 4096);
    FromWalk(h', 4, vaddr);
  }

  /** A directory with one page, in the kernel half: it validates, and its copy does not. */
  lemma KernelPageFailsCopy(h: Heap, roots: map<nat, nat>)
    requires h == OnePage(256, Entry(7, LINK))[4 := EmptyTable()] && roots == map[0 := 0, 1 := 4]
    ensures Copied(h, h, roots, 0, 1, USER_PAGES) && Validates(h, 0, 1) && !Validates(h, 4, 1)
    ensures GetPhysicalAddress(h, 0, 0x8000_0000_0000) == Some(0x7000)
  {
    hide Walk, GetPhysicalAddress;
    FromWalk(h, 0, 0x8000_0000_0000);
    forall v: nat | v < PAGES
      ensures Walk(h, 0, 4, v) == (if v == USER_PAGES then Leaf(1, Entry(7, LINK)) else NoLeaf) && Walk(h, 4, 4, v).NoLeaf?
    {
      OnePageWalk(h, 256, Entry(7, LINK), v);
      WalkSlot(h, 4, 4, v);
    }
    assert SpaceOf(h, 0).Keys == {USER_PAGES};
    CopyValidates(h, h, h, h, roots, 0, 1, false, 1);
  }
}
