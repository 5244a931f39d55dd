/** Copy-on-write over page maps, and why nobody can tell it from copying eagerly. */
module CowModel {
  import opened PageForest
  import opened PagingSteps
  import opened AddressSpaces
  import opened Words

  /** Page maps and `total_mapped_pages` of the live directories, data frames, free frames. */
  datatype Sys = Sys(spaces: map<nat, Space>, counts: map<nat, nat>, data: map<nat, Page>, free: set<nat>)

  predicate Has(s: Sys, d: nat, v: nat) {
    d in s.spaces && v in s.spaces[d]
  }

  function At(s: Sys, d: nat, v: nat): Entry
    requires Has(s, d, v)
  {
    s.spaces[d][v]
  }

  function Put<T>(m: map<nat, T>, v: nat, x: T): map<nat, T> {
    m[v := x]
  }

  // ----- what every reachable state satisfies -----

  ghost predicate GoodPage(s: Sys, d: nat, v: nat)
    requires Has(s, d, v)
  {
    var e := At(s, d, v);
    && v < USER_PAGES && e.frame in s.data
    && e.flags.present && !e.flags.large && !(e.flags.cow && e.flags.writable)
  }

  /** Two pages, in one directory or two, backed by the same frame. */
  ghost predicate Share(s: Sys, d: nat, v: nat, d': nat, v': nat) {
    Has(s, d, v) && Has(s, d', v') && (d != d' || v != v') && At(s, d, v).frame == At(s, d', v').frame
  }

  ghost predicate GoodPages(s: Sys) {
    forall d, v | Has(s, d, v) :: GoodPage(s, d, v)
  }

  /** A frame behind more than one page is copy-on-write, hence not writable, in all of them. */
  ghost predicate SharedAreCow(s: Sys) {
    forall d, v, d', v' | Share(s, d, v, d', v') :: At(s, d, v).flags.cow
  }

  /** `total_mapped_pages` is the number of mapped pages. */
  ghost predicate Counted(s: Sys) {
    && s.spaces.Keys == s.counts.Keys
    && forall d | d in s.spaces :: s.counts[d] == |s.spaces[d]|
  }

  ghost predicate CowInv(s: Sys) {
    && s.free !! s.data.Keys
    && GoodPages(s) && SharedAreCow(s) && Counted(s)
  }

  // ----- operations -----

  datatype Op =
    | Create(d: nat)
    | Destroy(d: nat)
    | NewData(f: nat)
    | Map(d: nat, v: nat, p: nat, n: nat, flags: Flags, contents: map<nat, Page>)
    | Unmap(d: nat, v: nat, n: nat, freePhys: bool)
    | Copy(src: nat, dst: nat)
    | Fault(d: nat, v: nat, f: nat)
    | Read(d: nat, v: nat, offset: nat, value: bv8)
    | Write(d: nat, v: nat, offset: nat, value: bv8)
    | Fail

  function ZeroPage(): Page {
    seq(4096, _ => 0)
  }

  /** `n` pages from `v` on are free in directory `d`, and the data frames from `p` on are unmapped. */
  ghost predicate CanMap(s: Sys, d: nat, v: nat, p: nat, n: nat, flags: Flags) {
    && d in s.spaces && v + n <= USER_PAGES && !flags.large
    && (forall w: nat | Within(w, v, n) :: w !in s.spaces[d])
    && (forall f: nat | Within(f, p, n) :: f in s.data)
    && (forall d', v' | Has(s, d', v') :: !Within(At(s, d', v').frame, p, n))
  }

  function RunContents(data: map<nat, Page>, v: nat, p: nat, n: nat): map<nat, Page> {
    map w: nat | w < v + n && Within(w, v, n) && p + (w - v) in data :: data[p + (w - v)]
  }

  function PagesIn(sp: Space, v: nat, n: nat): set<nat> {
    set w | w in sp && Within(w, v, n)
  }

  /** Frames behind the pages `[v, v + n)` of a space that are not copy-on-write. */
  function OwnedFrames(sp: Space, v: nat, n: nat): set<nat> {
    set w | w in sp && Within(w, v, n) && !sp[w].flags.cow :: sp[w].frame
  }

  ghost predicate CreateStep(s: Sys, d: nat, s': Sys) {
    && d !in s.spaces && s'.spaces == s.spaces[d := map[]] && s'.counts == s.counts[d := 0]
    && s'.data == s.data && s'.free <= s.free
  }

  ghost predicate DestroyStep(s: Sys, d: nat, s': Sys) {
    && s'.spaces == s.spaces - {d} && s'.counts == s.counts - {d}
    && s'.data == s.data && s'.free !! s'.data.Keys
  }

  ghost predicate NewDataStep(s: Sys, f: nat, s': Sys) {
    && f in s.free && s'.spaces == s.spaces && s'.counts == s.counts
    && s'.data == s.data[f := ZeroPage()] && s'.free == s.free - {f}
  }

  /** `n` pages that were free are mapped to any frames. */
  ghost predicate LayStep(s: Sys, d: nat, v: nat, p: nat, n: nat, flags: Flags, s': Sys) {
    && d in s.spaces && d in s.counts && (forall w: nat | Within(w, v, n) :: w !in s.spaces[d])
    && s'.spaces == s.spaces[d := s.spaces[d] + PageRun(v, p, n, flags)]
    && s'.counts == s.counts[d := WrapAdd(s.counts[d], n)]
    && s'.data == s.data && s'.free <= s.free
  }

  ghost predicate MapStep(s: Sys, d: nat, v: nat, p: nat, n: nat, flags: Flags, s': Sys) {
    CanMap(s, d, v, p, n, flags) && LayStep(s, d, v, p, n, flags, s')
  }

  ghost predicate UnmapStep(s: Sys, d: nat, v: nat, n: nat, freePhys: bool, s': Sys) {
    && d in s.spaces && d in s.counts
    && s'.spaces == s.spaces[d := Without(s.spaces[d], v, n)]
    && s'.counts == s.counts[d := WrapSub(s.counts[d], |PagesIn(s.spaces[d], v, n)|)]
    && s'.data == s.data - (if freePhys then OwnedFrames(s.spaces[d], v, n) else {})
    && s'.free !! s'.data.Keys
  }

  ghost predicate CopyStep(s: Sys, src: nat, dst: nat, s': Sys) {
    && src in s.spaces && dst !in s.spaces && src in s.counts
    && s'.spaces == s.spaces[src := CowSpace(s.spaces[src])][dst := CowSpace(UserPart(s.spaces[src]))]
    && s'.counts == s.counts[dst := s.counts[src]]
    && s'.data == s.data && s'.free <= s.free
  }

  ghost predicate FaultStep(s: Sys, d: nat, v: nat, f: nat, s': Sys) {
    && Has(s, d, v) && At(s, d, v).flags.cow && f in s.free && At(s, d, v).frame in s.data
    && s'.spaces == s.spaces[d := Put(s.spaces[d], v, Entry(f, At(s, d, v).flags.(writable := true, cow := false)))]
    && s'.counts == s.counts && s'.free == s.free - {f}
    && s'.data == s.data[f := s.data[At(s, d, v).frame]]
  }

  /** A resolved fault, whatever kind of frame the page had. */
  ghost predicate MoveStep(s: Sys, d: nat, v: nat, f: nat, s': Sys) {
    && Has(s, d, v) && At(s, d, v).flags.cow && f in s.free
    && s'.spaces == s.spaces[d := Put(s.spaces[d], v, Entry(f, At(s, d, v).flags.(writable := true, cow := false)))]
    && s'.counts == s.counts && s'.free == s.free - {f}
    && f in s'.data && s'.data == s.data[f := s'.data[f]]
    && (At(s, d, v).frame in s.data ==> s'.data[f] == s.data[At(s, d, v).frame])
  }

  lemma MoveOfData(s: Sys, d: nat, v: nat, f: nat, s': Sys)
    requires MoveStep(s, d, v, f, s')
    ensures At(s, d, v).frame in s.data ==> FaultStep(s, d, v, f, s')
  {
  }

  ghost predicate ReadStep(s: Sys, d: nat, v: nat, offset: nat, value: bv8, s': Sys) {
    && Has(s, d, v) && At(s, d, v).frame in s.data && offset < 4096
    && value == s.data[At(s, d, v).frame][offset] && s' == s
  }

  ghost predicate WriteStep(s: Sys, d: nat, v: nat, offset: nat, value: bv8, s': Sys) {
    && Has(s, d, v) && At(s, d, v).flags.writable && At(s, d, v).frame in s.data && offset < 4096
    && s'.spaces == s.spaces && s'.counts == s.counts && s'.free == s.free
    && s'.data == s.data[At(s, d, v).frame := s.data[At(s, d, v).frame][offset := value]]
  }

  /** A request refused; it may have moved frames between the free frames and the tables. */
  ghost predicate FailStep(s: Sys, s': Sys) {
    s'.spaces == s.spaces && s'.counts == s.counts && s'.data == s.data && s'.free !! s'.data.Keys
  }

  /** One operation, as the page-directory code carries it out. */
  ghost predicate Step(s: Sys, op: Op, s': Sys) {
    match op
    case Create(d) => CreateStep(s, d, s')
    case Destroy(d) => DestroyStep(s, d, s')
    case NewData(f) => NewDataStep(s, f, s')
    case Map(d, v, p, n, flags, contents) =>
      MapStep(s, d, v, p, n, flags, s') && contents == RunContents(s.data, v, p, n)
    case Unmap(d, v, n, freePhys) => UnmapStep(s, d, v, n, freePhys, s')
    case Copy(src, dst) => CopyStep(s, src, dst, s')
    case Fault(d, v, f) => FaultStep(s, d, v, f, s')
    case Read(d, v, offset, value) => ReadStep(s, d, v, offset, value, s')
    case Write(d, v, offset, value) => WriteStep(s, d, v, offset, value, s')
    case Fail => FailStep(s, s')
  }

  // ----- private memories: every address space has pages of its own -----

  type Memory = map<nat, map<nat, Page>>

  /** The address spaces have exactly the pages of `m`, with its contents. */
  ghost predicate Shows(s: Sys, m: Memory) {
    && m.Keys == s.spaces.Keys
    && (forall d | d in m :: m[d].Keys == s.spaces[d].Keys)
    && (forall d, v | Has(s, d, v) :: ShowsAt(s, m, d, v))
  }

  ghost predicate ShowsAt(s: Sys, m: Memory, d: nat, v: nat)
    requires Has(s, d, v)
  {
    && d in m && v in m[d] && At(s, d, v).frame in s.data
    && m[d][v] == s.data[At(s, d, v).frame]
  }

  /** The same operation on private memories; copying duplicates every page. */
  ghost function Apply(m: Memory, op: Op): Memory {
    match op
    case Create(d) => m[d := map[]]
    case Destroy(d) => m - {d}
    case NewData(_) => m
    case Map(d, v, p, n, flags, contents) => if d in m then m[d := m[d] + contents] else m
    case Unmap(d, v, n, _) => if d in m then m[d := map w | w in m[d] && !Within(w, v, n) :: m[d][w]] else m
    case Copy(src, dst) => if src in m then m[dst := m[src]] else m
    case Fault(_, _, _) => m
    case Read(_, _, _, _) => m
    case Write(d, v, offset, value) =>
      if d in m && v in m[d] && offset < 4096 then m[d := Put(m[d], v, m[d][v][offset := value])] else m
    case Fail => m
  }

  /** A read returns what the private memory holds. */
  ghost predicate ReadsOf(m: Memory, op: Op) {
    op.Read? ==> op.d in m && op.v in m[op.d] && op.offset < 4096 && op.value == m[op.d][op.v][op.offset]
  }

  // ----- every operation keeps the invariant -----

  lemma InvFrame(s: Sys, d: nat, v: nat)
    requires CowInv(s)
    ensures Has(s, d, v) ==> At(s, d, v).frame in s.data
  {
    if Has(s, d, v) {
      assert GoodPage(s, d, v);
    }
  }

  /** Pages may go away as long as the frames of the others stay. */
  lemma FewerPages(s: Sys, s': Sys)
    requires GoodPages(s) && SharedAreCow(s)
    requires forall d, v | Has(s', d, v) :: Has(s, d, v) && At(s', d, v) == At(s, d, v) && At(s, d, v).frame in s'.data
    ensures GoodPages(s') && SharedAreCow(s')
  {
    forall d, v | Has(s', d, v) ensures GoodPage(s', d, v) {
      assert GoodPage(s, d, v);
    }
    forall d, v, d', v' | Share(s', d, v, d', v') ensures At(s', d, v).flags.cow {
      assert Share(s, d, v, d', v');
    }
  }

  /** Directories that are unchanged or empty, over no fewer data frames. */
  lemma SameSpacesKeep(s: Sys, s': Sys)
    requires GoodPages(s) && SharedAreCow(s) && s.data.Keys <= s'.data.Keys
    requires forall d | d in s'.spaces :: s'.spaces[d] == map[] || (d in s.spaces && s'.spaces[d] == s.spaces[d])
    ensures GoodPages(s') && SharedAreCow(s')
  {
    forall d, v | Has(s', d, v)
      ensures Has(s, d, v) && At(s', d, v) == At(s, d, v) && At(s, d, v).frame in s'.data
    {
      assert GoodPage(s, d, v);
    }
    FewerPages(s, s');
  }

  /** The frames a request frees are mapped by no page that remains, in any directory. */
  lemma FreedAreUnmapped(s: Sys, d: nat, v: nat, n: nat, freePhys: bool, s': Sys, d': nat, v': nat)
    requires CowInv(s) && UnmapStep(s, d, v, n, freePhys, s') && Has(s', d', v')
    ensures Has(s, d', v') && At(s', d', v') == At(s, d', v')
    ensures At(s', d', v').frame !in OwnedFrames(s.spaces[d], v, n)
    ensures At(s', d', v').frame in s'.data
  {
    assert GoodPage(s, d', v');
    if At(s', d', v').frame in OwnedFrames(s.spaces[d], v, n) {
      var w :| w in s.spaces[d] && Within(w, v, n) && !s.spaces[d][w].flags.cow && s.spaces[d][w].frame == At(s, d', v').frame;
      assert Share(s, d, w, d', v');
    }
  }

  lemma SubsetCount(a: set<nat>, b: set<nat>)
    requires a <= b
    ensures |a| <= |b|
  {
    assert b == a + (b - a);
  }

  lemma SpaceBound(sp: Space)
    requires forall v | v in sp :: v < USER_PAGES
    ensures |sp| <= USER_PAGES < U64
  {
    FramesCount(0, USER_PAGES);
    SubsetCount(sp.Keys, Frames(0, USER_PAGES));
  }

  lemma WithoutCount(sp: Space, v: nat, n: nat)
    ensures |Without(sp, v, n)| == |sp| - |PagesIn(sp, v, n)|
  {
    assert sp.Keys == Without(sp, v, n).Keys + PagesIn(sp, v, n);
  }

  lemma WithRunCount(sp: Space, v: nat, p: nat, n: nat, flags: Flags)
    requires forall w: nat | Within(w, v, n) :: w !in sp
    ensures |sp + PageRun(v, p, n, flags)| == |sp| + n
  {
    FramesCount(v, n);
    assert PageRun(v, p, n, flags).Keys == Frames(v, n);
    assert (sp + PageRun(v, p, n, flags)).Keys == sp.Keys + Frames(v, n);
  }

  lemma UserSpace(s: Sys, d: nat)
    requires GoodPages(s) && d in s.spaces
    ensures forall v | v in s.spaces[d] :: v < USER_PAGES
    ensures UserPart(s.spaces[d]) == s.spaces[d]
  {
    forall v | v in s.spaces[d] ensures v < USER_PAGES {
      assert GoodPage(s, d, v);
    }
  }

  lemma UnmapKeeps(s: Sys, d: nat, v: nat, n: nat, freePhys: bool, s': Sys)
    requires CowInv(s) && UnmapStep(s, d, v, n, freePhys, s')
    ensures CowInv(s')
  {
    forall d', v' | Has(s', d', v')
      ensures Has(s, d', v') && At(s', d', v') == At(s, d', v') && At(s, d', v').frame in s'.data
    {
      FreedAreUnmapped(s, d, v, n, freePhys, s', d', v');
    }
    FewerPages(s, s');
    UserSpace(s, d);
    SpaceBound(s.spaces[d]);
    WithoutCount(s.spaces[d], v, n);
    WrapSmall(s.counts[d], |PagesIn(s.spaces[d], v, n)|);
  }

  lemma MapAt(s: Sys, d: nat, v: nat, p: nat, n: nat, flags: Flags, s': Sys, a: nat, w: nat)
    requires MapStep(s, d, v, p, n, flags, s') && Has(s', a, w)
    ensures if a == d && Within(w, v, n)
            then At(s', a, w) == Entry(p + (w - v), MapFlags(flags)) && At(s', a, w).frame in s'.data
                 && Within(At(s', a, w).frame, p, n)
            else Has(s, a, w) && At(s', a, w) == At(s, a, w) && !Within(At(s', a, w).frame, p, n)
  {
    if a == d && Within(w, v, n) {
      assert Within(p + (w - v), p, n);
    } else {
      assert Has(s, a, w);
    }
  }

  lemma MapShare(s: Sys, d: nat, v: nat, p: nat, n: nat, flags: Flags, s': Sys, a: nat, w: nat, b: nat, x: nat)
    requires SharedAreCow(s) && MapStep(s, d, v, p, n, flags, s') && Share(s', a, w, b, x)
    ensures At(s', a, w).flags.cow
  {
    hide MapStep;
    MapAt(s, d, v, p, n, flags, s', a, w);
    MapAt(s, d, v, p, n, flags, s', b, x);
    assert Share(s, a, w, b, x);
  }

  lemma MapGood(s: Sys, d: nat, v: nat, p: nat, n: nat, flags: Flags, s': Sys)
    requires GoodPages(s) && MapStep(s, d, v, p, n, flags, s')
    ensures GoodPages(s')
  {
    forall a, w | Has(s', a, w) ensures GoodPage(s', a, w) {
      MapAt(s, d, v, p, n, flags, s', a, w);
      if !(a == d && Within(w, v, n)) {
        assert GoodPage(s, a, w);
      }
    }
  }

  lemma MapSharing(s: Sys, d: nat, v: nat, p: nat, n: nat, flags: Flags, s': Sys)
    requires SharedAreCow(s) && MapStep(s, d, v, p, n, flags, s')
    ensures SharedAreCow(s')
  {
    hide MapStep;
    forall a, w, b, x | Share(s', a, w, b, x) ensures At(s', a, w).flags.cow {
      MapShare(s, d, v, p, n, flags, s', a, w, b, x);
    }
  }

  lemma MapCounted(s: Sys, d: nat, v: nat, p: nat, n: nat, flags: Flags, s': Sys)
    requires Counted(s) && MapStep(s, d, v, p, n, flags, s')
    requires forall w | w in s'.spaces[d] :: w < USER_PAGES
    ensures Counted(s')
  {
    hide PageRun, WrapAdd, CanMap, Within;
    SpaceBound(s'.spaces[d]);
    assert forall w: nat | Within(w, v, n) :: w !in s.spaces[d] by { CanMapFree(s, d, v, p, n, flags); }
    WithRunCount(s.spaces[d], v, p, n, flags);
    WrapSmall(s.counts[d], n);
    forall e | e in s'.spaces ensures s'.counts[e] == |s'.spaces[e]| {
      if e != d {
        assert s'.spaces[e] == s.spaces[e];
      }
    }
  }

  lemma CanMapFree(s: Sys, d: nat, v: nat, p: nat, n: nat, flags: Flags)
    requires CanMap(s, d, v, p, n, flags)
    ensures forall w: nat | Within(w, v, n) :: w !in s.spaces[d]
  {
  }

  lemma WrapSmall(a: nat, n: nat)
    ensures a + n < U64 ==> WrapAdd(a, n) == a + n
    ensures n <= a < U64 ==> WrapSub(a, n) == a - n
  {
  }

  lemma MapKeeps(s: Sys, d: nat, v: nat, p: nat, n: nat, flags: Flags, s': Sys)
    requires CowInv(s) && MapStep(s, d, v, p, n, flags, s')
    ensures CowInv(s')
  {
    hide GoodPages, SharedAreCow, Counted, PageRun, WrapAdd, CanMap;
    MapGood(s, d, v, p, n, flags, s');
    MapSharing(s, d, v, p, n, flags, s');
    UserSpace(s', d);
    MapCounted(s, d, v, p, n, flags, s');
  }

  lemma CopyAt(s: Sys, src: nat, dst: nat, s': Sys, d: nat, v: nat)
    requires GoodPages(s) && CopyStep(s, src, dst, s') && Has(s', d, v)
    ensures var d0 := if d == dst then src else d;
            && Has(s, d0, v) && GoodPage(s, d0, v)
            && At(s', d, v) == if d == src || d == dst then CowEntry(At(s, d0, v)) else At(s, d0, v)
  {
    var d0 := if d == dst then src else d;
    assert Has(s, d0, v);
    assert GoodPage(s, d0, v);
  }

  lemma CopyKeeps(s: Sys, src: nat, dst: nat, s': Sys)
    requires CowInv(s) && CopyStep(s, src, dst, s')
    ensures CowInv(s')
  {
    forall d, v | Has(s', d, v) ensures GoodPage(s', d, v) {
      CopyAt(s, src, dst, s', d, v);
    }
    forall a, v, b, w | Share(s', a, v, b, w) ensures At(s', a, v).flags.cow {
      CopyAt(s, src, dst, s', a, v);
      CopyAt(s, src, dst, s', b, w);
      if a != src && a != dst {
        assert Share(s, a, v, if b == dst then src else b, w);
      }
    }
    UserSpace(s, src);
    assert CowSpace(s.spaces[src]).Keys == s.spaces[src].Keys;
  }

  lemma FaultAt(s: Sys, d: nat, v: nat, f: nat, s': Sys, d': nat, w: nat)
    requires FaultStep(s, d, v, f, s')
    ensures Has(s', d', w) <==> Has(s, d', w)
    ensures Has(s', d', w) ==>
              At(s', d', w) == if d' == d && w == v then Entry(f, At(s, d, v).flags.(writable := true, cow := false))
                               else At(s, d', w)
  {
  }

  lemma FaultKeeps(s: Sys, d: nat, v: nat, f: nat, s': Sys)
    requires CowInv(s) && FaultStep(s, d, v, f, s')
    ensures CowInv(s')
  {
    forall a, w | Has(s', a, w) ensures GoodPage(s', a, w) && ((a == d && w == v) || At(s', a, w).frame != f) {
      FaultAt(s, d, v, f, s', a, w);
      assert GoodPage(s, a, w);
    }
    forall a, w, b, x | Share(s', a, w, b, x) ensures At(s', a, w).flags.cow {
      FaultAt(s, d, v, f, s', a, w);
      FaultAt(s, d, v, f, s', b, x);
      assert Share(s, a, w, b, x);
    }
    assert s'.spaces[d].Keys == s.spaces[d].Keys;
  }

  /** Every operation keeps the invariant. */
  lemma StepKeeps(s: Sys, op: Op, s': Sys)
    requires CowInv(s) && Step(s, op, s')
    ensures CowInv(s')
  {
    match op
    case Map(d, v, p, n, flags, _) => MapKeeps(s, d, v, p, n, flags, s');
    case Unmap(d, v, n, freePhys) => UnmapKeeps(s, d, v, n, freePhys, s');
    case Copy(src, dst) => CopyKeeps(s, src, dst, s');
    case Fault(d, v, f) => FaultKeeps(s, d, v, f, s');
    case _ => SameSpacesKeep(s, s');
  }

  // ----- and shows every address space a memory of its own -----

  /** A writable frame backs one page only. */
  lemma WritableIsPrivate(s: Sys, d: nat, v: nat, a: nat, w: nat)
    requires GoodPages(s) && SharedAreCow(s) && Has(s, d, v) && At(s, d, v).flags.writable
    requires Has(s, a, w) && (a != d || w != v)
    ensures At(s, a, w).frame != At(s, d, v).frame
  {
    assert GoodPage(s, d, v);
    assert Share(s, d, v, a, w) <==> At(s, a, w).frame == At(s, d, v).frame;
  }

  /** Nobody else sees a write. */
  lemma WriteSimulates(s: Sys, m: Memory, d: nat, v: nat, offset: nat, value: bv8, s': Sys)
    requires CowInv(s) && Shows(s, m) && WriteStep(s, d, v, offset, value, s')
    ensures Shows(s', Apply(m, Write(d, v, offset, value)))
  {
    hide GoodPages, SharedAreCow, Counted;
    assert ShowsAt(s, m, d, v);
    var m' := Apply(m, Write(d, v, offset, value));
    forall a, w | Has(s', a, w) ensures ShowsAt(s', m', a, w) {
      assert Has(s, a, w) && ShowsAt(s, m, a, w);
      if a != d || w != v {
        WritableIsPrivate(s, d, v, a, w);
      }
    }
  }

  lemma FaultSimulates(s: Sys, m: Memory, d: nat, v: nat, f: nat, s': Sys)
    requires CowInv(s) && Shows(s, m) && FaultStep(s, d, v, f, s')
    ensures Shows(s', m)
  {
    hide GoodPages, SharedAreCow, Counted;
    assert ShowsAt(s, m, d, v);
    assert s'.spaces[d].Keys == s.spaces[d].Keys;
    forall a, w | Has(s', a, w) ensures ShowsAt(s', m, a, w) {
      FaultAt(s, d, v, f, s', a, w);
      assert ShowsAt(s, m, a, w);
    }
  }

  lemma CopySimulates(s: Sys, m: Memory, src: nat, dst: nat, s': Sys)
    requires CowInv(s) && Shows(s, m) && CopyStep(s, src, dst, s')
    ensures Shows(s', Apply(m, Copy(src, dst)))
  {
    hide GoodPages, SharedAreCow, Counted, GoodPage;
    var m' := Apply(m, Copy(src, dst));
    UserSpace(s, src);
    assert CowSpace(s.spaces[src]).Keys == s.spaces[src].Keys;
    forall a, w | Has(s', a, w) ensures ShowsAt(s', m', a, w) {
      CopyAt(s, src, dst, s', a, w);
      assert ShowsAt(s, m, if a == dst then src else a, w);
    }
  }

  lemma MapShowsAt(s: Sys, m: Memory, d: nat, v: nat, p: nat, n: nat, flags: Flags, s': Sys, a: nat, w: nat)
    requires Shows(s, m) && MapStep(s, d, v, p, n, flags, s') && Has(s', a, w)
    ensures ShowsAt(s', m[d := m[d] + RunContents(s.data, v, p, n)], a, w)
  {
    hide CanMap, PageRun;
    RunKeys(s, d, v, p, n, flags);
    MapAt(s, d, v, p, n, flags, s', a, w);
    if !(a == d && Within(w, v, n)) {
      assert ShowsAt(s, m, a, w);
    }
  }

  lemma MapSimulates(s: Sys, m: Memory, d: nat, v: nat, p: nat, n: nat, flags: Flags, s': Sys)
    requires CowInv(s) && Shows(s, m) && MapStep(s, d, v, p, n, flags, s')
    ensures Shows(s', Apply(m, Map(d, v, p, n, flags, RunContents(s.data, v, p, n))))
  {
    hide CowInv, CanMap, PageRun, RunContents, ShowsAt;
    var contents := RunContents(s.data, v, p, n);
    RunKeys(s, d, v, p, n, flags);
    assert (m[d] + contents).Keys == s'.spaces[d].Keys;
    forall a, w | Has(s', a, w) ensures ShowsAt(s', m[d := m[d] + contents], a, w) {
      MapShowsAt(s, m, d, v, p, n, flags, s', a, w);
    }
  }

  lemma RunKeys(s: Sys, d: nat, v: nat, p: nat, n: nat, flags: Flags)
    requires CanMap(s, d, v, p, n, flags)
    ensures d in s.spaces && RunContents(s.data, v, p, n).Keys == PageRun(v, p, n, flags).Keys
    ensures forall w | w in RunContents(s.data, v, p, n) :: Within(w, v, n)
  {
    forall w: nat | Within(w, v, n) ensures p + (w - v) in s.data {
      assert Within(p + (w - v), p, n);
    }
  }

  lemma UnmapSimulates(s: Sys, m: Memory, d: nat, v: nat, n: nat, freePhys: bool, s': Sys)
    requires CowInv(s) && Shows(s, m) && UnmapStep(s, d, v, n, freePhys, s')
    ensures Shows(s', Apply(m, Unmap(d, v, n, freePhys)))
  {
    hide GoodPages, SharedAreCow, Counted;
    var m' := Apply(m, Unmap(d, v, n, freePhys));
    assert m'[d].Keys == s'.spaces[d].Keys;
    forall a, w | Has(s', a, w) ensures ShowsAt(s', m', a, w) {
      FreedAreUnmapped(s, d, v, n, freePhys, s', a, w);
      assert ShowsAt(s, m, a, w);
    }
  }

  /** Operations that leave the pages of the directories they keep alone. */
  lemma OtherSimulates(s: Sys, m: Memory, op: Op, s': Sys)
    requires CowInv(s) && Shows(s, m) && Step(s, op, s')
    requires op.Create? || op.Destroy? || op.NewData? || op.Read? || op.Fail?
    ensures Shows(s', Apply(m, op))
  {
    hide GoodPages, SharedAreCow, Counted;
    var m' := Apply(m, op);
    forall a, w | Has(s', a, w) ensures ShowsAt(s', m', a, w) {
      assert Has(s, a, w) && ShowsAt(s, m, a, w);
    }
  }

  /** Each operation shows what it would show on private memories, and reads return their contents. */
  lemma StepSimulates(s: Sys, m: Memory, op: Op, s': Sys)
    requires CowInv(s) && Shows(s, m) && Step(s, op, s')
    ensures Shows(s', Apply(m, op)) && ReadsOf(m, op)
  {
    hide CowInv, Apply, RunContents, CanMap;
    match op
    case Map(d, v, p, n, flags, _) => MapSimulates(s, m, d, v, p, n, flags, s');
    case Unmap(d, v, n, freePhys) => UnmapSimulates(s, m, d, v, n, freePhys, s');
    case Copy(src, dst) => CopySimulates(s, m, src, dst, s');
    case Fault(d, v, f) => FaultSimulates(s, m, d, v, f, s'); FaultStutters(m, op);
    case Write(d, v, offset, value) => WriteSimulates(s, m, d, v, offset, value, s');
    case Read(d, v, offset, value) => OtherSimulates(s, m, op, s'); assert ShowsAt(s, m, d, v);
    case _ => OtherSimulates(s, m, op, s');
  }

  lemma FaultStutters(m: Memory, op: Op)
    requires op.Fault?
    ensures Apply(m, op) == m
  {
  }

  // ----- runs -----

  /** A run: `ss[i + 1]` comes from `ss[i]` by operation `ops[i]`. */
  ghost predicate Run(ss: seq<Sys>, ops: seq<Op>) {
    && |ss| == |ops| + 1
    && forall i | 0 <= i < |ops| :: Step(ss[i], ops[i], ss[i + 1])
  }

  /** The private memories after the operations `ops`. */
  ghost function ApplyAll(m: Memory, ops: seq<Op>): Memory {
    if ops == [] then m else Apply(ApplyAll(m, ops[..|ops| - 1]), ops[|ops| - 1])
  }

  /** A system without directories, from which runs may start. */
  lemma StartInv(free: set<nat>)
    ensures CowInv(Sys(map[], map[], map[], free)) && Shows(Sys(map[], map[], map[], free), map[])
  {
  }

  /** Every state of every run satisfies the invariant. */
  lemma {:induction false} RunKeeps(ss: seq<Sys>, ops: seq<Op>, i: nat)
    requires Run(ss, ops) && CowInv(ss[0]) && i < |ss|
    ensures CowInv(ss[i])
  {
    hide CowInv, Step;
    if i > 0 {
      RunKeeps(ss, ops, i - 1);
      StepKeeps(ss[i - 1], ops[i - 1], ss[i]);
    }
  }

  /** Copy-on-write refines eager copying: along every run, every address space shows exactly the
      contents it would have if each copy had duplicated every page, and every read returns them. */
  lemma {:induction false} CowRefinesEagerCopy(ss: seq<Sys>, ops: seq<Op>, m: Memory, i: nat)
    requires Run(ss, ops) && CowInv(ss[0]) && Shows(ss[0], m) && i < |ss|
    ensures Shows(ss[i], ApplyAll(m, ops[..i]))
    ensures i < |ops| ==> ReadsOf(ApplyAll(m, ops[..i]), ops[i])
  {
    hide CowInv, Step, Shows, ReadsOf, Apply;
    if i > 0 {
      CowRefinesEagerCopy(ss, ops, m, i - 1);
      RunKeeps(ss, ops, i - 1);
      StepSimulates(ss[i - 1], ApplyAll(m, ops[..i - 1]), ops[i - 1], ss[i]);
      assert ops[..i][..i - 1] == ops[..i - 1];
    }
    if i < |ops| {
      CowRefinesRead(ss, ops, m, i);
    }
  }

  lemma CowRefinesRead(ss: seq<Sys>, ops: seq<Op>, m: Memory, i: nat)
    requires Run(ss, ops) && CowInv(ss[0]) && i < |ops|
    requires Shows(ss[i], ApplyAll(m, ops[..i]))
    ensures ReadsOf(ApplyAll(m, ops[..i]), ops[i])
  {
    hide CowInv, Step, Shows, ReadsOf, Apply;
    RunKeeps(ss, ops, i);
    StepSimulates(ss[i], ApplyAll(m, ops[..i]), ops[i], ss[i + 1]);
  }

  /** Along every run, a frame behind two pages is copy-on-write and not writable in both, and a
      request that frees frames frees none that a live directory still maps. */
  lemma SharedFramesStayCow(ss: seq<Sys>, ops: seq<Op>, i: nat, d: nat, v: nat, d': nat, v': nat)
    requires Run(ss, ops) && CowInv(ss[0]) && i < |ss|
    ensures Share(ss[i], d, v, d', v') ==>
              && At(ss[i], d, v).flags.cow && !At(ss[i], d, v).flags.writable
              && At(ss[i], d', v').flags.cow && !At(ss[i], d', v').flags.writable
    ensures i < |ops| && ops[i].Unmap? && Has(ss[i + 1], d, v) ==>
              At(ss[i + 1], d, v).frame !in OwnedFrames(ss[i].spaces[ops[i].d], ops[i].v, ops[i].n)
  {
    RunKeeps(ss, ops, i);
    if Share(ss[i], d, v, d', v') {
      assert Share(ss[i], d', v', d, v);
      assert GoodPage(ss[i], d, v) && GoodPage(ss[i], d', v');
    }
    if i < |ops| && ops[i].Unmap? && Has(ss[i + 1], d, v) {
      assert Step(ss[i], ops[i], ss[i + 1]);
      FreedAreUnmapped(ss[i], ops[i].d, ops[i].v, ops[i].n, ops[i].freePhys, ss[i + 1], d, v);
    }
  }

  // ----- what copying does to write permission -----

  /** A store to the page takes effect, once a fault on it has been resolved. */
  predicate Storable(s: Sys, d: nat, v: nat) {
    Has(s, d, v) && (At(s, d, v).flags.writable || At(s, d, v).flags.cow)
  }

  /** A page just mapped may be stored to exactly if the request asked for it, and then without a fault. */
  lemma LaidPage(s: Sys, d: nat, v: nat, p: nat, n: nat, flags: Flags, s': Sys, w: nat)
    requires LayStep(s, d, v, p, n, flags, s') && v <= w < v + n
    ensures Has(s', d, w) && At(s', d, w).frame == p + (w - v) && !At(s', d, w).flags.cow
    ensures At(s', d, w).flags.writable == flags.writable && At(s', d, w).flags.user == flags.user
    ensures Storable(s', d, w) <==> flags.writable
  {
    assert Within(w, v, n);
    assert w in PageRun(v, p, n, flags);
  }

  /** `mark_pages_cow` marks read-only pages too, so copying makes every page storable, in both
      directories.  Permissions are those of an eager copy exactly when all pages were storable. */
  lemma CopyPermissions(s: Sys, src: nat, dst: nat, s': Sys)
    requires CowInv(s) && CopyStep(s, src, dst, s')
    ensures forall v | Has(s, src, v) :: Storable(s', src, v) && Storable(s', dst, v)
    ensures (forall v | Has(s, src, v) :: Storable(s', src, v) == Storable(s, src, v) && Storable(s', dst, v) == Storable(s, src, v))
            <==> (forall v | Has(s, src, v) :: Storable(s, src, v))
  {
    UserSpace(s, src);
    forall v | Has(s, src, v) ensures Storable(s', src, v) && Storable(s', dst, v) {
      CopyAt(s, src, dst, s', src, v);
      CopyAt(s, src, dst, s', dst, v);
    }
  }

  /** A copy that changes permissions: the one page of the source is read-only before, and
      storable in both directories after. */
  lemma ReadOnlyPageBecomesStorable(src: nat, dst: nat, s: Sys, s': Sys)
    requires src != dst
    requires s == Sys(map[src := map[7 := Entry(3, NO_FLAGS.(present := true))]], map[src := 1], map[3 := ZeroPage()], {4, 5, 6, 7})
    requires CopyStep(s, src, dst, s')
    ensures CowInv(s) && !Storable(s, src, 7) && Storable(s', src, 7) && Storable(s', dst, 7)
  {
    assert Has(s, src, 7);
    CopyPermissions(s, src, dst, s');
  }

  // ----- copies without copy-on-write -----

  /** `copy_page_directory` without the copy-on-write flag: the pages are shared as they are. */
  ghost predicate PlainCopyStep(s: Sys, src: nat, dst: nat, s': Sys) {
    && src in s.spaces && dst !in s.spaces && src in s.counts
    && s'.spaces == s.spaces[dst := UserPart(s.spaces[src])]
    && s'.counts == s.counts[dst := s.counts[src]]
    && s'.data == s.data && s'.free <= s.free
  }

  lemma PlainCopyAt(s: Sys, src: nat, dst: nat, s': Sys, d: nat, v: nat)
    requires GoodPages(s) && PlainCopyStep(s, src, dst, s')
    ensures var d0 := if d == dst then src else d;
            && (Has(s', d, v) <==> Has(s, d0, v))
            && (Has(s', d, v) ==> GoodPage(s, d0, v) && At(s', d, v) == At(s, d0, v))
  {
    var d0 := if d == dst then src else d;
    if Has(s, d0, v) {
      assert GoodPage(s, d0, v);
    }
  }

  /** Such a copy keeps the invariant exactly when every page of the source is copy-on-write already. */
  lemma PlainCopyKeeps(s: Sys, src: nat, dst: nat, s': Sys)
    requires CowInv(s) && PlainCopyStep(s, src, dst, s')
    ensures CowInv(s') <==> forall v | Has(s, src, v) :: At(s, src, v).flags.cow
  {
    hide UserPart;
    if forall v | Has(s, src, v) :: At(s, src, v).flags.cow {
      forall d, v | Has(s', d, v) ensures GoodPage(s', d, v) {
        PlainCopyAt(s, src, dst, s', d, v);
      }
      forall a, v, b, w | Share(s', a, v, b, w) ensures At(s', a, v).flags.cow {
        PlainCopyAt(s, src, dst, s', a, v);
        PlainCopyAt(s, src, dst, s', b, w);
        if a != src && a != dst {
          assert Share(s, a, v, if b == dst then src else b, w);
        }
      }
      PlainCopyCounts(s, src, dst, s');
    } else {
      var v :| Has(s, src, v) && !At(s, src, v).flags.cow;
      PlainCopyAt(s, src, dst, s', src, v);
      PlainCopyAt(s, src, dst, s', dst, v);
      assert Share(s', src, v, dst, v);
    }
  }

  lemma PlainCopyCounts(s: Sys, src: nat, dst: nat, s': Sys)
    requires CowInv(s) && PlainCopyStep(s, src, dst, s')
    ensures Counted(s')
  {
    UserSpace(s, src);
  }

  /** A writable page copied without the flag: what one directory stores there, the other reads. */
  lemma PlainCopyLeaks(src: nat, dst: nat, s: Sys, s': Sys, value: bv8, s'': Sys)
    requires src != dst
    requires s == Sys(map[src := map[7 := Entry(3, NO_FLAGS.(present := true, writable := true))]], map[src := 1], map[3 := ZeroPage()], {4, 5, 6, 7})
    requires PlainCopyStep(s, src, dst, s') && WriteStep(s', dst, 7, 0, value, s'')
    ensures CowInv(s) && !CowInv(s') && ReadStep(s'', src, 7, 0, value, s'')
  {
    assert Has(s, src, 7);
    PlainCopyKeeps(s, src, dst, s');
    PlainCopyAt(s, src, dst, s', src, 7);
    PlainCopyAt(s, src, dst, s', dst, 7);
  }

  // ----- frames nobody maps any more -----

  /** A data frame behind no page, and not free. */
  ghost predicate Stranded(s: Sys, f: nat) {
    f in s.data && forall d, v | Has(s, d, v) :: At(s, d, v).frame != f
  }

  /** The frame of an unmapped page is stranded exactly when it was to be kept, or is copy-on-write, and
      nobody else maps it: the last sharer does not free it. */
  lemma UnmapStrands(s: Sys, d: nat, v: nat, n: nat, freePhys: bool, s': Sys, w: nat)
    requires CowInv(s) && UnmapStep(s, d, v, n, freePhys, s') && Has(s, d, w) && Within(w, v, n)
    ensures Stranded(s', At(s, d, w).frame) <==>
              && (!freePhys || At(s, d, w).flags.cow)
              && (forall d', w' | Has(s, d', w') && At(s, d', w').frame == At(s, d, w).frame :: d' == d && Within(w', v, n))
  {
    var f := At(s, d, w).frame;
    assert GoodPage(s, d, w);
    forall d', w' ensures Has(s', d', w') <==> Has(s, d', w') && !(d' == d && Within(w', v, n))
      ensures Has(s', d', w') ==> At(s', d', w') == At(s, d', w')
    {
    }
    if freePhys && At(s, d, w).flags.cow && f in OwnedFrames(s.spaces[d], v, n) {
      var x :| x in s.spaces[d] && Within(x, v, n) && !s.spaces[d][x].flags.cow && s.spaces[d][x].frame == f;
      assert Share(s, d, x, d, w);
    }
  }

  /** A resolved fault strands the old frame exactly when nobody else maps it. */
  lemma FaultStrands(s: Sys, d: nat, v: nat, f: nat, s': Sys)
    requires CowInv(s) && FaultStep(s, d, v, f, s')
    ensures Stranded(s', At(s, d, v).frame) <==>
              forall d', w | Has(s, d', w) && At(s, d', w).frame == At(s, d, v).frame :: d' == d && w == v
  {
    forall d', w
      ensures Has(s', d', w) <==> Has(s, d', w)
      ensures Has(s', d', w) && !(d' == d && w == v) ==> At(s', d', w) == At(s, d', w)
    {
      FaultAt(s, d, v, f, s', d', w);
    }
    FaultAt(s, d, v, f, s', d, v);
  }

  /** What a store comes to: a write, or a resolved fault and then the write. */
  ghost predicate StoredAt(s: Sys, d: nat, v: nat, offset: nat, value: bv8, s': Sys) {
    || WriteStep(s, d, v, offset, value, s')
    || exists s1, f :: FaultStep(s, d, v, f, s1) && WriteStep(s1, d, v, offset, value, s')
  }

  lemma WriteKeeps(s: Sys, d: nat, v: nat, offset: nat, value: bv8, s': Sys)
    requires CowInv(s) && WriteStep(s, d, v, offset, value, s')
    ensures CowInv(s') && Storable(s, d, v)
  {
    StepKeeps(s, Write(d, v, offset, value), s');
  }

  lemma FaultStores(s: Sys, d: nat, v: nat, f: nat, s': Sys)
    requires FaultStep(s, d, v, f, s')
    ensures Storable(s, d, v) && Has(s', d, v) && At(s', d, v).flags.writable
  {
  }
}
