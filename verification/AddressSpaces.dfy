/** Page tables seen as flat page maps: what each step does to the address spaces of all
    live directories. */
module AddressSpaces {
  import opened PageForest
  import opened PagingSteps

  /** The page map of every live directory. */
  function Spaces(h: Heap, roots: map<nat, nat>): (s: map<nat, Space>)
    ensures s.Keys == roots.Keys
  {
    map d | d in roots :: SpaceOf(h, roots[d])
  }

  /** The pages `[v, v + k)` mapped to the frames `[p, p + k)`. */
  function PageRun(v: nat, p: nat, k: nat, flags: Flags): Space {
    map w: nat | w < v + k && Within(w, v, k) :: Entry(p + (w - v), MapFlags(flags))
  }

  /** A space without its pages `[v, v + k)`. */
  function Without(s: Space, v: nat, k: nat): Space {
    map w | w in s && !(v <= w < v + k) :: s[w]
  }

  function CowEntry(e: Entry): Entry {
    Entry(e.frame, CowFlags(e.flags))
  }

  /** A space with its user pages made copy-on-write. */
  function CowSpace(s: Space): Space {
    map w | w in s :: if w < USER_PAGES then CowEntry(s[w]) else s[w]
  }

  function UserPart(s: Space): Space {
    map w | w in s && w < USER_PAGES :: s[w]
  }

  /** Mapping pages adds exactly those pages to the directory's space, whatever leaf sizes carry them. */
  lemma InstalledSpaces(h: Heap, h': Heap, roots: map<nat, nat>, d: nat, v: nat, p: nat, k: nat, flags: Flags)
    requires d in roots && v + k <= PAGES && Installed(h, h', roots, d, v, p, k, flags)
    ensures Spaces(h', roots) == Spaces(h, roots)[d := SpaceOf(h, roots[d]) + PageRun(v, p, k, flags)]
  {
    hide Walk, SpaceOf, PageRun, Installed;
    InstalledSpace(h, h', roots, d, v, p, k, flags);
    forall d' | d' in roots && d' != d ensures SpaceOf(h', roots[d']) == SpaceOf(h, roots[d']) {
      InstalledPages(h, h', roots, d, v, p, k, flags);
      SameSpace(h, h', roots[d']);
    }
  }

  lemma InstalledSpace(h: Heap, h': Heap, roots: map<nat, nat>, d: nat, v: nat, p: nat, k: nat, flags: Flags)
    requires d in roots && v + k <= PAGES && Installed(h, h', roots, d, v, p, k, flags)
    ensures SpaceOf(h', roots[d]) == SpaceOf(h, roots[d]) + PageRun(v, p, k, flags)
  {
    hide Walk, PageOf, Installed;
    InstalledPages(h, h', roots, d, v, p, k, flags);
  }

  lemma SameSpace(h: Heap, h': Heap, root: nat)
    requires forall w: nat {:trigger Walk(h', root, 4, w)} | w < PAGES :: Walk(h', root, 4, w) == Walk(h, root, 4, w)
    ensures SpaceOf(h', root) == SpaceOf(h, root)
  {
    hide Walk, PageOf;
  }

  /** The same without what the leaves are like. */
  lemma InstalledPages(h: Heap, h': Heap, roots: map<nat, nat>, d: nat, v: nat, p: nat, k: nat, flags: Flags)
    requires Installed(h, h', roots, d, v, p, k, flags)
    ensures forall d', w: nat {:trigger Walk(h', roots[d'], 4, w)} | d' in roots && w < PAGES ::
              var leaf := Walk(h', roots[d'], 4, w);
              if d' == d && v <= w < v + k then leaf.Leaf? && PageOf(leaf, w) == Entry(p + (w - v), MapFlags(flags))
              else leaf == Walk(h, roots[d'], 4, w)
  {
    hide Walk, PageOf, Low;
  }

  lemma ClearedSpaces(h: Heap, h': Heap, roots: map<nat, nat>, d: nat, v: nat, k: nat)
    requires d in roots && Cleared(h, h', roots, d, v, k)
    ensures Spaces(h', roots) == Spaces(h, roots)[d := Without(SpaceOf(h, roots[d]), v, k)]
  {
    hide Walk, PageOf;
    assert SpaceOf(h', roots[d]) == Without(SpaceOf(h, roots[d]), v, k);
    forall d' | d' in roots && d' != d ensures SpaceOf(h', roots[d']) == SpaceOf(h, roots[d']) {
    }
  }

  lemma MarkedSpaces(h: Heap, h': Heap, roots: map<nat, nat>, d: nat)
    requires d in roots && Marked(h, h', roots, d, USER_PAGES)
    ensures Spaces(h', roots) == Spaces(h, roots)[d := CowSpace(SpaceOf(h, roots[d]))]
  {
    hide Walk;
    assert SpaceOf(h', roots[d]) == CowSpace(SpaceOf(h, roots[d]));
    forall d' | d' in roots && d' != d ensures SpaceOf(h', roots[d']) == SpaceOf(h, roots[d']) {
    }
  }

  lemma CopiedSpaces(h: Heap, h': Heap, roots: map<nat, nat>, src: nat, dst: nat)
    requires src in roots && dst in roots && Copied(h, h', roots, src, dst, USER_PAGES)
    ensures Spaces(h', roots) == Spaces(h, roots)[dst := UserPart(SpaceOf(h, roots[src]))]
  {
    hide Walk, PageOf;
    assert SpaceOf(h', roots[dst]) == UserPart(SpaceOf(h, roots[src]));
    forall d' | d' in roots && d' != dst ensures SpaceOf(h', roots[d']) == SpaceOf(h, roots[d']) {
    }
  }

  lemma BrokenSpaces(h: Heap, data: map<nat, Page>, free: set<nat>, h': Heap, data': map<nat, Page>, free': set<nat>,
                     roots: map<nat, nat>, d: nat, v: nat, f: nat)
    requires d in roots && v < PAGES && CowBroken(h, data, free, h', data', free', roots, d, v, f)
    ensures v in SpaceOf(h, roots[d])
    ensures Spaces(h', roots) ==
            Spaces(h, roots)[d := SpaceOf(h, roots[d])[v := Entry(f, SpaceOf(h, roots[d])[v].flags.(writable := true, cow := false))]]
  {
    hide Walk;
    var e := Entry(f, SpaceOf(h, roots[d])[v].flags.(writable := true, cow := false));
    assert SpaceOf(h', roots[d]) == SpaceOf(h, roots[d])[v := e];
    forall d' | d' in roots && d' != d ensures SpaceOf(h', roots[d']) == SpaceOf(h, roots[d']) {
    }
  }
}
