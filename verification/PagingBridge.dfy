/** The heap of page tables refines the copy-on-write model: what the page-directory code does to
    the tables is one operation on the page maps. */
module PagingBridge {
  import opened PageForest
  import opened PagingSteps
  import opened AddressSpaces
  import opened CowModel
  import opened Lean
  import opened TableChanges
  import opened Translation
  import opened Words

  /** The page maps, counters and frames of a paging system. */
  ghost function View(h: Heap, roots: map<nat, nat>, mapped: map<nat, nat>, data: map<nat, Page>, free: set<nat>): Sys {
    Sys(Spaces(h, roots), mapped, data, free)
  }

  lemma SpacesOfNone()
    ensures Spaces(map[], map[]) == map[]
  {
  }

  lemma HasIsWalk(h: Heap, roots: map<nat, nat>, mapped: map<nat, nat>, data: map<nat, Page>, free: set<nat>, d: nat, v: nat)
    requires d in roots
    ensures Has(View(h, roots, mapped, data, free), d, v) <==> v < PAGES && Walk(h, roots[d], 4, v).Leaf?
    ensures Has(View(h, roots, mapped, data, free), d, v) ==>
              At(View(h, roots, mapped, data, free), d, v) == PageOf(Walk(h, roots[d], 4, v), v)
  {
    hide Walk, PageOf;
  }

  /** In a system satisfying the invariant every directory has 4K pages over data frames. */
  lemma InvFourK(h: Heap, roots: map<nat, nat>, mapped: map<nat, nat>, data: map<nat, Page>, free: set<nat>, d: nat)
    requires CowInv(View(h, roots, mapped, data, free)) && d in roots
    ensures FourK(h, roots[d]) && FramesAreData(h, roots[d], data.Keys)
    ensures forall v: nat | v < PAGES :: AtLeafStart(h, roots[d], v)
  {
    hide Walk, Spaces, SharedAreCow, Counted;
    var s := View(h, roots, mapped, data, free);
    forall v: nat | v < PAGES && Walk(h, roots[d], 4, v).Leaf?
      ensures Walk(h, roots[d], 4, v).level == 1 && PageOf(Walk(h, roots[d], 4, v), v).frame in data
    {
      HasIsWalk(h, roots, mapped, data, free, d, v);
      assert GoodPage(s, d, v);
      WalkLeafLarge(h, roots[d], 4, v);
    }
  }

  lemma InvOwns(h: Heap, roots: map<nat, nat>, mapped: map<nat, nat>, data: map<nat, Page>, free: set<nat>, d: nat, from: nat, to: nat)
    requires CowInv(View(h, roots, mapped, data, free)) && d in roots
    ensures OwnsFrames(h, roots[d], data.Keys, from, to)
  {
    hide Walk, Spaces, Counted, PageOf;
    var s := View(h, roots, mapped, data, free);
    forall w: nat | from <= w < PAGES && Walk(h, roots[d], 4, w).Leaf? && !Walk(h, roots[d], 4, w).entry.flags.cow
      ensures PageOf(Walk(h, roots[d], 4, w), w).frame in data
      ensures forall w': nat | from <= w' < PAGES && w' != w && Walk(h, roots[d], 4, w').Leaf? ::
                PageOf(Walk(h, roots[d], 4, w'), w').frame != PageOf(Walk(h, roots[d], 4, w), w).frame
    {
      HasIsWalk(h, roots, mapped, data, free, d, w);
      PageFlags(Walk(h, roots[d], 4, w), w);
      assert GoodPage(s, d, w);
      forall w': nat | from <= w' < PAGES && w' != w && Walk(h, roots[d], 4, w').Leaf?
        ensures PageOf(Walk(h, roots[d], 4, w'), w').frame != PageOf(Walk(h, roots[d], 4, w), w).frame
      {
        HasIsWalk(h, roots, mapped, data, free, d, w');
        assert Share(s, d, w, d, w') <==> At(s, d, w').frame == At(s, d, w).frame;
      }
    }
  }

  lemma PageFlags(leaf: Leaf, v: nat)
    requires leaf.Leaf?
    ensures PageOf(leaf, v).flags == leaf.entry.flags
  {
  }

  lemma MapRefines(h: Heap, h': Heap, roots: map<nat, nat>, mapped: map<nat, nat>, mapped': map<nat, nat>,
                   data: map<nat, Page>, free: set<nat>, free': set<nat>, d: nat, v: nat, p: nat, n: nat, k: nat, flags: Flags)
    requires d in roots && v + n <= PAGES && !flags.large && MapProgress(h, h', roots, d, v, p, k, flags) && free' <= free
    requires Tallied(mapped, mapped', h', roots[d], d, v, p, n, k, flags)
    ensures LayStep(View(h, roots, mapped, data, free), d, v, p, k, flags, View(h', roots, mapped', data, free'))
  {
    hide Installed, Walk, Spaces, PageRun, SmallIn, SmallAreNew, WrapAdd, PageOf, NoLargeLeaf, NoSmallLeaf;
    InstalledSpaces(h, h', roots, d, v, p, k, flags);
    SmallInAll(h, h', roots, d, v, p, k, flags);
    SpaceIn(h, roots, d);
    forall w: nat | Within(w, v, k) ensures w !in Spaces(h, roots)[d] {
      HasIsWalk(h, roots, mapped, data, free, d, w);
    }
  }

  lemma MappedIsPages(h: Heap, root: nat, v: nat, n: nat)
    requires v + n <= PAGES
    ensures MappedIn(h, root, v, n) == PagesIn(SpaceOf(h, root), v, n)
    ensures OwnedIn(h, root, v, n) == OwnedFrames(SpaceOf(h, root), v, n)
  {
    hide Walk;
    var sp := SpaceOf(h, root);
    forall f | f in OwnedIn(h, root, v, n) ensures f in OwnedFrames(sp, v, n) {
      var w: nat :| w < v + n && v <= w && Walk(h, root, 4, w).Leaf? && !Walk(h, root, 4, w).entry.flags.cow
                    && PageOf(Walk(h, root, 4, w), w).frame == f;
      assert w in sp && Within(w, v, n) && sp[w].frame == f;
    }
    forall f | f in OwnedFrames(sp, v, n) ensures f in OwnedIn(h, root, v, n) {
      var w :| w in sp && Within(w, v, n) && !sp[w].flags.cow && sp[w].frame == f;
      assert Walk(h, root, 4, w).Leaf?;
    }
  }

  lemma UnmapRefines(h: Heap, h': Heap, roots: map<nat, nat>, mapped: map<nat, nat>, mapped': map<nat, nat>,
                     data: map<nat, Page>, data': map<nat, Page>, free: set<nat>, free': set<nat>,
                     d: nat, v: nat, n: nat, freePhys: bool, done: nat)
    requires d in roots && v + n <= PAGES && FourK(h, roots[d])
    requires UnmapResult(h, data, h', data', roots, d, v, n, freePhys, done)
    requires d in mapped && mapped' == mapped[d := WrapSub(mapped[d], |MappedIn(h, roots[d], v, done)|)]
    requires free' !! data'.Keys
    ensures UnmapStep(View(h, roots, mapped, data, free), d, v, n, freePhys, View(h', roots, mapped', data', free'))
  {
    hide Walk, Cleared, SpaceOf, OwnedIn, MappedIn, OwnedFrames, PagesIn, Without, WrapSub;
    FourKStops(h, roots[d], v, n, done);
    ClearedSpaces(h, h', roots, d, v, n);
    MappedIsPages(h, roots[d], v, n);
  }

  lemma FourKStops(h: Heap, root: nat, v: nat, n: nat, done: nat)
    requires FourK(h, root) && v + n <= PAGES && n <= done && StopsAt(h, root, v, n, done)
    ensures done == n
  {
    hide Walk;
  }

  lemma FaultRefines(h: Heap, h': Heap, roots: map<nat, nat>, mapped: map<nat, nat>,
                     data: map<nat, Page>, data': map<nat, Page>, free: set<nat>, free': set<nat>, d: nat, v: nat, f: nat)
    requires d in roots && v < PAGES && f in free && CowBroken(h, data, free, h', data', free', roots, d, v, f)
    requires Walk(h, roots[d], 4, v).level == 1 && Walk(h, roots[d], 4, v).entry.flags.cow
    ensures MoveStep(View(h, roots, mapped, data, free), d, v, f, View(h', roots, mapped, data', free'))
  {
    hide Walk;
    BrokenSpaces(h, data, free, h', data', free', roots, d, v, f);
    HasIsWalk(h, roots, mapped, data, free, d, v);
  }

  lemma SpaceIn(h: Heap, roots: map<nat, nat>, d: nat)
    requires d in roots
    ensures d in Spaces(h, roots) && Spaces(h, roots)[d] == SpaceOf(h, roots[d])
  {
    hide SpaceOf;
  }

  /** Between `sp` and `sp'`, directory `dst` has become a copy of the user half of `src`. */
  ghost predicate CopiedInto(sp: map<nat, Space>, sp': map<nat, Space>, src: nat, dst: nat, cow: bool) {
    && src in sp
    && sp' == if cow then sp[src := CowSpace(sp[src])][dst := CowSpace(UserPart(sp[src]))]
              else sp[dst := UserPart(sp[src])]
  }

  lemma CopySpaces(h: Heap, h': Heap, roots: map<nat, nat>, src: nat, dst: nat)
    requires src in roots && dst in roots && Copied(h, h', roots, src, dst, USER_PAGES)
    ensures CopiedInto(Spaces(h, roots), Spaces(h', roots), src, dst, false)
  {
    hide Walk, Copied, SpaceOf, UserPart, Spaces;
    SpaceIn(h, roots, src);
    CopiedSpaces(h, h', roots, src, dst);
  }

  lemma CopyMarkSpaces(h: Heap, h1: Heap, h2: Heap, h3: Heap, roots: map<nat, nat>, src: nat, dst: nat)
    requires src in roots && dst in roots && src != dst && Copied(h, h1, roots, src, dst, USER_PAGES)
    requires Marked(h1, h2, roots, src, USER_PAGES) && Marked(h2, h3, roots, dst, USER_PAGES)
    ensures CopiedInto(Spaces(h, roots), Spaces(h3, roots), src, dst, true)
  {
    hide Walk, Copied, Marked, SpaceOf, CowSpace, UserPart, Spaces;
    SpaceIn(h, roots, src);
    CopiedSpaces(h, h1, roots, src, dst);
    SpaceIn(h1, roots, src);
    MarkedSpaces(h1, h2, roots, src);
    SpaceIn(h2, roots, dst);
    MarkedSpaces(h2, h3, roots, dst);
  }

  /** A copy into a directory that did not exist before. */
  lemma CopiedFrom(sp: map<nat, Space>, sp1: map<nat, Space>, sp2: map<nat, Space>, src: nat, dst: nat, cow: bool)
    requires src in sp && dst !in sp && sp1 == sp[dst := map[]]
    requires CopiedInto(sp1, sp2, src, dst, cow)
    ensures CopiedInto(sp, sp2, src, dst, cow)
  {
    hide CowSpace, UserPart;
  }

  lemma FourKKept(h: Heap, h': Heap, roots: map<nat, nat>, roots': map<nat, nat>, d: nat)
    requires d in roots && d in roots' && roots'[d] == roots[d] && FourK(h, roots[d]) && SameWalks(h, h', roots)
    ensures FourK(h', roots'[d])
  {
    hide Walk;
  }

  lemma GrownFree(h: Heap, free: set<nat>, h': Heap, free': set<nat>)
    requires Grown(h, free, h', free') && free' !! h'.Keys
    ensures free' <= free
  {
  }

  /** A copy that stopped early has changed no directory but the new one. */
  lemma CopiedOthers(h: Heap, h': Heap, roots: map<nat, nat>, src: nat, dst: nat, k: nat, others: map<nat, nat>)
    requires src in roots && dst in roots && Copied(h, h', roots, src, dst, k)
    requires dst !in others && forall d | d in others :: d in roots && roots[d] == others[d]
    ensures SameWalks(h, h', others)
  {
    hide Walk;
    forall d, v: nat | d in others && v < PAGES ensures Walk(h', others[d], 4, v) == Walk(h, others[d], 4, v) {
      assert Walk(h', roots[d], 4, v) == Walk(h, roots[d], 4, v);
    }
  }

  lemma MarkedFourK(h: Heap, h': Heap, roots: map<nat, nat>, src: nat, dst: nat)
    requires src in roots && dst in roots && src != dst && Marked(h, h', roots, src, USER_PAGES) && FourK(h, roots[dst])
    ensures FourK(h', roots[dst])
  {
    hide Walk;
  }

  lemma MapMissing(m: map<nat, nat>, d: nat)
    ensures d !in m ==> m - {d} == m
  {
  }

  lemma MapBack<T>(m: map<nat, T>, d: nat, x: T)
    requires d !in m
    ensures m[d := x] - {d} == m
  {
  }

  lemma MapTwice(m: map<nat, nat>, src: nat, dst: nat, x: nat)
    requires src in m && src != dst
    ensures m[dst := x][dst := m[dst := x][src]] == m[dst := m[src]]
  {
  }

  lemma CopyIsSeen(h: Heap, roots: map<nat, nat>, h': Heap, roots': map<nat, nat>, src: nat, dst: nat, cow: bool)
    requires src in roots && src in roots' && dst in roots' && src != dst
    requires CopiedInto(Spaces(h, roots), Spaces(h', roots'), src, dst, cow)
    ensures CopySeen(h, roots[src], h', roots'[src], roots'[dst], cow)
  {
    hide SpaceOf, CopySeen, CowSpace, UserPart;
    CopiedSeen(h, roots[src], h', roots'[src], roots'[dst], cow);
  }

  lemma CopyIsStep(s: Sys, s': Sys, src: nat, dst: nat, cow: bool)
    requires src in s.spaces && dst !in s.spaces && src in s.counts
    requires CopiedInto(s.spaces, s'.spaces, src, dst, cow)
    requires s'.counts == s.counts[dst := s.counts[src]] && s'.data == s.data && s'.free <= s.free
    ensures if cow then CopyStep(s, src, dst, s') else PlainCopyStep(s, src, dst, s')
  {
    hide CowSpace, UserPart;
  }

  lemma NewSpace(h: Heap, h': Heap, roots: map<nat, nat>, d: nat, f: nat)
    requires d !in roots && SameWalks(h, h', roots) && WalksNowhere(h', f)
    ensures Spaces(h', roots[d := f]) == Spaces(h, roots)[d := map[]]
  {
    hide Walk;
    assert SpaceOf(h', f) == map[];
    forall d' | d' in roots ensures SpaceOf(h', roots[d']) == SpaceOf(h, roots[d']) {
    }
  }

  lemma DropSpace(h: Heap, h': Heap, roots: map<nat, nat>, d: nat)
    requires SameWalks(h, h', roots - {d})
    ensures Spaces(h', roots - {d}) == Spaces(h, roots) - {d}
  {
    hide Walk;
    forall d' | d' in roots - {d} ensures SpaceOf(h', roots[d']) == SpaceOf(h, roots[d']) {
    }
  }

  /** Directory `d` has come into being, empty, with PML4 table `root`. */
  ghost predicate Created(h: Heap, pos: map<nat, Pos>, roots: map<nat, nat>,
                          h': Heap, pos': map<nat, Pos>, roots': map<nat, nat>, d: nat, root: nat) {
    && d !in roots && root !in h
    && h' == h[root := EmptyTable()] && pos' == pos[root := Pos(d, 4, 0, root)] && roots' == roots[d := root]
    && WalksNowhere(h', root) && LeanDir(h', pos', roots', d)
  }

  /** What creating a directory with PML4 table `f` comes to. */
  lemma NewDirectory(h: Heap, pos: map<nat, Pos>, roots: map<nat, nat>, mapped: map<nat, nat>, data: map<nat, Page>, free: set<nat>, d: nat, f: nat)
    requires Shape(h, pos, roots) && d !in roots && f !in h && roots.Keys == mapped.Keys && forall g | g in pos :: pos[g].dir != d
    ensures var h', pos', roots' := h[f := EmptyTable()], pos[f := Pos(d, 4, 0, f)], roots[d := f];
            && Shape(h', pos', roots') && SameWalks(h, h', roots) && Created(h, pos, roots, h', pos', roots', d, f)
            && CreateStep(View(h, roots, mapped, data, free), d, View(h', roots', mapped[d := 0], data, free - {f}))
            && KeepsLean(h, pos, roots, h', pos', roots')
  {
    hide Shape, Walk, WalksNowhere, Spaces, LeanDir, SameWalks, OnlyIn, KeepsLean;
    var h', pos', roots' := h[f := EmptyTable()], pos[f := Pos(d, 4, 0, f)], roots[d := f];
    NewRootKeeps(h, pos, roots, d, f);
    NewSpace(h, h', roots, d, f);
    SpacesKeys(h, roots);
    NewLean(h', pos, roots, d, f);
    ShapeKeys(h, pos, roots);
    NewRootOnly(h, pos, d, f);
    LeanKept(h, pos, roots, h', pos', roots', d);
  }

  lemma SpacesKeys(h: Heap, roots: map<nat, nat>)
    ensures Spaces(h, roots).Keys == roots.Keys
  {
  }

  /** Directories have a counter each and are numbered below `next`. */
  ghost predicate Numbered(roots: map<nat, nat>, mapped: map<nat, nat>, pos: map<nat, Pos>, next: nat) {
    && roots.Keys == mapped.Keys && (forall d | d in mapped :: mapped[d] < U64)
    && (forall d | d in roots :: d < next) && (forall g | g in pos :: pos[g].dir < next)
  }

  lemma NumbersNew(roots: map<nat, nat>, mapped: map<nat, nat>, pos: map<nat, Pos>, next: nat, f: nat)
    requires Numbered(roots, mapped, pos, next)
    ensures Numbered(roots[next := f], mapped[next := 0], pos[f := Pos(next, 4, 0, f)], next + 1)
    ensures next !in roots && roots.Keys == mapped.Keys && forall g | g in pos :: pos[g].dir != next
  {
  }
}
