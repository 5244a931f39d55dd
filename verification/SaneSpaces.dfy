/** What validation asks of address spaces, whatever frames are behind their pages: the steps that keep it. */
module SaneSpaces {
  import opened PageForest
  import opened PagingSteps
  import opened AddressSpaces
  import opened CowModel
  import opened PagingBridge
  import opened PageCensus
  import opened Words

  /** User pages, none large, none both copy-on-write and writable. */
  ghost predicate SaneSpace(sp: Space) {
    forall v | v in sp :: v < USER_PAGES && !sp[v].flags.large && !(sp[v].flags.cow && sp[v].flags.writable)
  }

  /** Every space is sane and every counter is its number of pages. */
  ghost predicate Sane(s: Sys) {
    Counted(s) && forall d | d in s.spaces :: SaneSpace(s.spaces[d])
  }

  lemma InvSane(s: Sys)
    requires CowInv(s)
    ensures Sane(s)
  {
    forall d | d in s.spaces ensures SaneSpace(s.spaces[d]) {
      forall v | v in s.spaces[d] ensures GoodPage(s, d, v) {
        assert Has(s, d, v);
      }
    }
  }

  /** One space replaced or added. */
  lemma SpaceSet(s: Sys, s': Sys, d: nat, sp: Space)
    requires Sane(s) && SaneSpace(sp) && s'.spaces == s.spaces[d := sp] && s'.counts == s.counts[d := |sp|]
    ensures Sane(s')
  {
    hide SaneSpace;
  }

  /** Spaces that are unchanged or empty. */
  lemma SameKeepsSane(s: Sys, s': Sys)
    requires Sane(s) && s'.spaces.Keys == s'.counts.Keys
    requires forall d | d in s'.spaces ::
               || (s'.spaces[d] == map[] && s'.counts[d] == 0)
               || (d in s.spaces && s'.spaces[d] == s.spaces[d] && s'.counts[d] == s.counts[d])
    ensures Sane(s')
  {
  }

  lemma RunSane(sp: Space, v: nat, p: nat, n: nat, flags: Flags)
    requires SaneSpace(sp) && v + n <= USER_PAGES && !flags.large
    ensures SaneSpace(sp + PageRun(v, p, n, flags)) && |sp + PageRun(v, p, n, flags)| < U64
  {
    SpaceBound(sp + PageRun(v, p, n, flags));
  }

  lemma LayKeepsSane(s: Sys, d: nat, v: nat, p: nat, n: nat, flags: Flags, s': Sys)
    requires Sane(s) && LayStep(s, d, v, p, n, flags, s') && v + n <= USER_PAGES && !flags.large
    ensures Sane(s')
  {
    hide WrapAdd, SaneSpace, PageRun;
    var sp := s.spaces[d] + PageRun(v, p, n, flags);
    RunSane(s.spaces[d], v, p, n, flags);
    WithRunCount(s.spaces[d], v, p, n, flags);
    WrapSmall(s.counts[d], n);
    SpaceSet(s, s', d, sp);
  }

  lemma UnmapKeepsSane(s: Sys, d: nat, v: nat, n: nat, freePhys: bool, s': Sys)
    requires Sane(s) && UnmapStep(s, d, v, n, freePhys, s')
    ensures Sane(s')
  {
    hide WrapSub;
    SpaceBound(s.spaces[d]);
    WithoutCount(s.spaces[d], v, n);
    WrapSmall(s.counts[d], |PagesIn(s.spaces[d], v, n)|);
    SpaceSet(s, s', d, Without(s.spaces[d], v, n));
  }

  /** The source of a copy-on-write copy and the copy itself: marking takes the write permission away. */
  lemma CopyKeepsSane(s: Sys, src: nat, dst: nat, s': Sys)
    requires Sane(s) && CopyStep(s, src, dst, s')
    ensures Sane(s')
  {
    var sp := s.spaces[src];
    assert UserPart(sp) == sp && CowSpace(sp).Keys == sp.Keys;
    var s1 := s.(spaces := s.spaces[src := CowSpace(sp)]);
    assert s1.counts == s1.counts[src := |CowSpace(sp)|];
    SpaceSet(s, s1, src, CowSpace(sp));
    SpaceSet(s1, s', dst, CowSpace(sp));
  }

  lemma PlainCopyKeepsSane(s: Sys, src: nat, dst: nat, s': Sys)
    requires Sane(s) && PlainCopyStep(s, src, dst, s')
    ensures Sane(s')
  {
    var sp := s.spaces[src];
    assert UserPart(sp) == sp;
    SpaceSet(s, s', dst, sp);
  }

  lemma MoveKeepsSane(s: Sys, d: nat, v: nat, f: nat, s': Sys)
    requires Sane(s) && MoveStep(s, d, v, f, s')
    ensures Sane(s')
  {
    var sp := s'.spaces[d];
    assert sp.Keys == s.spaces[d].Keys;
    assert s'.counts == s.counts[d := |sp|];
    SpaceSet(s, s', d, sp);
  }

  /** Read off the tables: 4K leaves only, and validation accepts the directory. */
  lemma SaneDirectory(h: Heap, roots: map<nat, nat>, mapped: map<nat, nat>, data: map<nat, Page>, free: set<nat>, d: nat)
    requires Sane(View(h, roots, mapped, data, free)) && d in roots
    ensures FourK(h, roots[d]) && d in mapped && Validates(h, roots[d], mapped[d])
    ensures forall v: nat | v < PAGES :: AtLeafStart(h, roots[d], v)
  {
    hide Walk;
    var sp := SpaceOf(h, roots[d]);
    assert View(h, roots, mapped, data, free).spaces[d] == sp;
    forall v: nat | v < PAGES && Walk(h, roots[d], 4, v).Leaf?
      ensures Walk(h, roots[d], 4, v).level == 1 && LeafOk(Walk(h, roots[d], 4, v))
    {
      assert sp[v].flags == Walk(h, roots[d], 4, v).entry.flags;
      WalkLeafLarge(h, roots[d], 4, v);
    }
  }

  /** The pages `[v, v + n)` that are not copy-on-write have data frames to themselves. */
  ghost predicate OwnsPages(s: Sys, d: nat, v: nat, n: nat) {
    forall w | Has(s, d, w) && Within(w, v, n) && !At(s, d, w).flags.cow ::
      && At(s, d, w).frame in s.data
      && forall w' | Has(s, d, w') && Within(w', v, n) && w' != w :: At(s, d, w').frame != At(s, d, w).frame
  }

  lemma OwnsIsOwns(h: Heap, roots: map<nat, nat>, mapped: map<nat, nat>, data: map<nat, Page>, free: set<nat>, d: nat, v: nat, n: nat)
    requires d in roots && v + n <= PAGES
    ensures OwnsFrames(h, roots[d], data.Keys, v, v + n) <==> OwnsPages(View(h, roots, mapped, data, free), d, v, n)
  {
    hide Walk, Spaces, PageOf;
    var s := View(h, roots, mapped, data, free);
    forall w: nat
      ensures Has(s, d, w) && Within(w, v, n) <==> v <= w < v + n && Walk(h, roots[d], 4, w).Leaf?
      ensures Has(s, d, w) && Within(w, v, n) ==>
                At(s, d, w) == PageOf(Walk(h, roots[d], 4, w), w) && At(s, d, w).flags == Walk(h, roots[d], 4, w).entry.flags
    {
      HasIsWalk(h, roots, mapped, data, free, d, w);
      if Has(s, d, w) {
        PageFlags(Walk(h, roots[d], 4, w), w);
      }
    }
  }
}
