/** What the steps of the page-directory operations do to the walks of all live directories. */
module PagingSteps {
  import opened Wrappers
  import opened PageForest
  import opened Words

  datatype Errno = Ok | EINVAL | EEXIST | ENOMEM | EFAULT | ENOTSUP

  const PAGES_2M: nat := 512
  const PAGES_1G: nat := 262144

  /** Subtraction on `uint64_t`. */
  function WrapSub(a: nat, b: nat): (r: nat)
    ensures r < U64
  {
    (a - b) % U64
  }

  lemma WrapSubThen(a: nat, b: nat, c: nat)
    ensures WrapSub(WrapSub(a, b), c) == WrapSub(a, b + c)
    ensures a < U64 ==> WrapSub(a, 0) == a
  {
  }

  /** Addition on `uint64_t`. */
  function WrapAdd(a: nat, b: nat): (r: nat)
    ensures r < U64
  {
    (a + b) % U64
  }

  lemma WrapAddThen(a: nat, b: nat, c: nat)
    ensures WrapAdd(WrapAdd(a, b), c) == WrapAdd(a, b + c)
    ensures a < U64 ==> WrapAdd(a, 0) == a
  {
  }

  type Page = p: seq<bv8> | |p| == 4096 witness seq(4096, _ => 0)

  /** The leaf entry a map request writes: present, never copy-on-write. */
  function MapFlags(flags: Flags): Flags {
    flags.(present := true, cow := false)
  }

  /** The flags of a table pointer created by a map request. */
  function LinkFlags(flags: Flags): Flags {
    Flags(true, true, flags.user, false, false, {})
  }

  /** Number of pages a byte range touches. */
  function PageCount(vaddr: nat, size: nat): nat
    ensures size > 0 ==> PageCount(vaddr, size) > 0
    ensures vaddr + size <= PAGES * 4096 ==> vaddr / 4096 + PageCount(vaddr, size) <= PAGES
  {
    (vaddr + size + 4095) / 4096 - vaddr / 4096
  }

  /** Between `h` and `h'`, directory `d` has had its pages `[v, v + k)` mapped to frames
      `[p, p + k)` by aligned leaves lying inside that range; nothing else has changed. */
  ghost predicate Installed(h: Heap, h': Heap, roots: map<nat, nat>, d: nat, v: nat, p: nat, k: nat, flags: Flags) {
    forall d', w: nat {:trigger Walk(h', roots[d'], 4, w)} | d' in roots && w < PAGES ::
      if d' == d && v <= w < v + k then LeafInside(Walk(h', roots[d'], 4, w), w, v, p, k, flags)
      else Walk(h', roots[d'], 4, w) == Walk(h, roots[d'], 4, w)
  }

  ghost predicate LeafInside(leaf: Leaf, w: nat, v: nat, p: nat, k: nat, flags: Flags) {
    && leaf.Leaf? && v <= w
    && PageOf(leaf, w) == Entry(p + (w - v), MapFlags(flags))
    && v + Low(w, leaf.level) <= w
    && w - Low(w, leaf.level) + Span(leaf.level) <= v + k
    && leaf.entry.frame % Span(leaf.level) == 0
  }

  lemma InstalledThen(h: Heap, h1: Heap, h2: Heap, roots: map<nat, nat>, d: nat, v: nat, p: nat, k: nat, n: nat, flags: Flags)
    requires Installed(h, h1, roots, d, v, p, k, flags)
    requires Installed(h1, h2, roots, d, v + k, p + k, n, flags)
    ensures Installed(h, h2, roots, d, v, p, k + n, flags)
  {
  }

  /** The mapped pages of `[v, v + k)` are translated by leaves of the given level. */
  ghost predicate AtLevel(h: Heap, root: nat, v: nat, k: nat, level: nat) {
    forall w: nat | v <= w < v + k && w < PAGES && Walk(h, root, 4, w).Leaf? :: Walk(h, root, 4, w).level == level
  }

  /** The pages of `[v, v + k)` that have a 4K leaf. */
  ghost function SmallIn(h: Heap, root: nat, v: nat, k: nat): set<nat> {
    set w: nat | w < v + k && v <= w && Walk(h, root, 4, w).Leaf? && Walk(h, root, 4, w).level == 1
  }

  /** A large leaf of `size` pages is asked for and fits: addresses aligned, enough pages left. */
  predicate Suits(flags: Flags, v: nat, p: nat, left: nat, size: nat)
    requires size > 0
  {
    flags.large && v % size == 0 && p % size == 0 && size <= left
  }

  /** The largest leaf that suits. */
  function LeafLevel(flags: Flags, v: nat, p: nat, left: nat): nat {
    if Suits(flags, v, p, left, PAGES_1G) then 3 else if Suits(flags, v, p, left, PAGES_2M) then 2 else 1
  }

  /** A step at page `j` of a request for `n` pages would make a 4K leaf. */
  predicate SmallStep(flags: Flags, v: nat, p: nat, n: nat, j: nat)
    requires j <= n
  {
    LeafLevel(flags, v + j, p + j, n - j) == 1
  }

  /** No large leaf suits anywhere in the first `k` of `n` pages. */
  predicate NoLargeLeaf(flags: Flags, v: nat, p: nat, n: nat, k: nat)
    requires k <= n
  {
    forall j: nat | j < k :: SmallStep(flags, v, p, n, j)
  }

  /** Below a slot that holds no leaf, leaves are smaller. */
  lemma SmallerBelow(h: Heap, root: nat, level: nat, v: nat, f: nat)
    requires TableAt(h, root, level, v) == Some(f) && f in h && 2 <= level <= 4 && !IsLeaf(h[f][Index(v, level)], level)
    ensures Walk(h, root, 4, v).Leaf? ==> Walk(h, root, 4, v).level < level
  {
    WalkFromTable(h, root, level, v);
    var e := h[f][Index(v, level)];
    if IsTablePtr(e, level) {
      WalkLevel(h, e.frame, level - 1, v);
    }
  }

  /** What one step of a map request may come to. */
  ghost predicate MapOutcome(h: Heap, h': Heap, roots: map<nat, nat>, d: nat, v: nat, p: nat, flags: Flags, r: Errno, level: nat)
    requires d in roots
  {
    match r
    case Ok =>
      && 1 <= level <= 3 && (!flags.large ==> level == 1)
      && (level == 1 ==> Walk(h, roots[d], 4, v).NoLeaf?)
      && Installed(h, h', roots, d, v, p, Span(level), flags)
      && AtLevel(h', roots[d], v, Span(level), level)
    case EEXIST => SameWalks(h, h', roots) && Walk(h, roots[d], 4, v).Leaf?
    case ENOMEM => SameWalks(h, h', roots) && Walk(h, roots[d], 4, v).NoLeaf?
    case _ => false
  }

  lemma SameWalkAt(h: Heap, h': Heap, roots: map<nat, nat>, d: nat, v: nat)
    requires SameWalks(h, h', roots) && d in roots && v < PAGES
    ensures Walk(h', roots[d], 4, v) == Walk(h, roots[d], 4, v)
  {
  }

  lemma StepLevel(h: Heap, h': Heap, roots: map<nat, nat>, d: nat, v: nat, p: nat, flags: Flags, r: Errno, level: nat)
    requires d in roots && MapOutcome(h, h', roots, d, v, p, flags, r, level)
    ensures r == Ok ==> 1 <= level <= 3 && (!flags.large ==> level == 1)
    ensures r == Ok || r == EEXIST || r == ENOMEM
  {
    hide Walk, Installed, AtLevel;
  }

  lemma OutcomeAfter(h: Heap, h1: Heap, h2: Heap, roots: map<nat, nat>, d: nat, v: nat, p: nat, flags: Flags, r: Errno, level: nat)
    requires d in roots && v < PAGES
    requires SameWalks(h, h1, roots) && MapOutcome(h1, h2, roots, d, v, p, flags, r, level)
    ensures MapOutcome(h, h2, roots, d, v, p, flags, r, level)
  {
  }

  /** Tables have only been taken from the free frames. */
  ghost predicate Grown(h: Heap, free: set<nat>, h': Heap, free': set<nat>) {
    h.Keys <= h'.Keys && h'.Keys + free' == h.Keys + free
  }

  lemma Unchanged(h: Heap, free: set<nat>, roots: map<nat, nat>)
    ensures Grown(h, free, h, free) && SameWalks(h, h, roots)
  {
  }

  lemma GrownThen(h: Heap, free: set<nat>, h1: Heap, free1: set<nat>, h2: Heap, free2: set<nat>)
    requires Grown(h, free, h1, free1) && Grown(h1, free1, h2, free2)
    ensures Grown(h, free, h2, free2)
  {
  }

  /** How far a map request has come after `i` pages. */
  ghost predicate MapProgress(h: Heap, h': Heap, roots: map<nat, nat>, d: nat, v: nat, p: nat, i: nat, flags: Flags)
    requires d in roots
  {
    && Installed(h, h', roots, d, v, p, i, flags)
    && (!flags.large ==> forall w: nat | v <= w < v + i :: Walk(h, roots[d], 4, w).NoLeaf?)
    && SmallAreNew(h, h', roots[d], v, i)
  }

  /** Only large leaves have been laid over pages mapped before. */
  ghost predicate SmallAreNew(h: Heap, h': Heap, root: nat, v: nat, i: nat) {
    forall w: nat | v <= w < v + i && w < PAGES && Walk(h', root, 4, w).Leaf? && Walk(h', root, 4, w).level == 1 ::
      Walk(h, root, 4, w).NoLeaf?
  }

  /** The result of a whole map request: `done` pages mapped, and why it stopped. */
  ghost predicate MapResult(h: Heap, h': Heap, roots: map<nat, nat>, d: nat, v: nat, p: nat, n: nat, flags: Flags, r: Errno, done: nat)
    requires d in roots
  {
    && MapProgress(h, h', roots, d, v, p, done, flags)
    && match r
       case Ok => done == n
       case EEXIST => done < n && Walk(h, roots[d], 4, v + done).Leaf?
       case ENOMEM => done < n && Walk(h, roots[d], 4, v + done).NoLeaf?
       case _ => false
  }

  lemma MapProgressThen(h: Heap, h1: Heap, h2: Heap, roots: map<nat, nat>, d: nat, v: nat, p: nat, i: nat, flags: Flags, level: nat)
    requires d in roots && v + i < PAGES
    requires MapProgress(h, h1, roots, d, v, p, i, flags)
    requires MapOutcome(h1, h2, roots, d, v + i, p + i, flags, Ok, level)
    ensures MapProgress(h, h2, roots, d, v, p, i + Span(level), flags)
  {
    hide PageOf, Low;
    InstalledThen(h, h1, h2, roots, d, v, p, i, Span(level), flags);
  }

  lemma SmallInThen(h1: Heap, h2: Heap, roots: map<nat, nat>, d: nat, v: nat, p: nat, i: nat, flags: Flags, level: nat)
    requires d in roots && v + i + Span(level) <= PAGES && 1 <= level <= 3
    requires Installed(h1, h2, roots, d, v + i, p + i, Span(level), flags)
    requires AtLevel(h2, roots[d], v + i, Span(level), level)
    ensures |SmallIn(h2, roots[d], v, i + Span(level))| == |SmallIn(h1, roots[d], v, i)| + if level == 1 then 1 else 0
  {
    hide Walk, PageOf, Low;
    if level == 1 {
      assert SmallIn(h2, roots[d], v, i + 1) == SmallIn(h1, roots[d], v, i) + {v + i};
    } else {
      assert SmallIn(h2, roots[d], v, i + Span(level)) == SmallIn(h1, roots[d], v, i);
    }
  }

  /** Large leaves are asked for at addresses where they fit. */
  predicate LargeAligned(flags: Flags, v: nat, p: nat) {
    flags.large && v % PAGES_2M == 0 && p % PAGES_2M == 0
  }

  /** The first `i` pages of a request are all served by large leaves. */
  predicate NoSmallLeaf(flags: Flags, v: nat, p: nat, i: nat) {
    i == 0 || (LargeAligned(flags, v, p) && i % PAGES_2M == 0)
  }

  /** How many 4K leaves the first `i` of `n` pages take: all of them exactly if no large leaf suits, none
      exactly if only large leaves do; behind large leaves, 4K leaves only serve the rest. */
  ghost predicate SmallLeaves(flags: Flags, v: nat, p: nat, n: nat, i: nat, count: nat) {
    && i <= n && count <= i && (count == i <==> NoLargeLeaf(flags, v, p, n, i))
    && (count == 0 <==> NoSmallLeaf(flags, v, p, i))
    && (LargeAligned(flags, v, p) && i % PAGES_2M != 0 ==> n < i - i % PAGES_2M + PAGES_2M)
  }

  lemma SmallSteps(flags: Flags, v: nat, p: nat, n: nat, i: nat, level: nat, count: nat, count': nat)
    requires i < n && 1 <= level <= 3 && level == LeafLevel(flags, v + i, p + i, n - i) && i + Span(level) <= n
    requires count' == (count + if level == 1 then 1 else 0) && SmallLeaves(flags, v, p, n, i, count)
    ensures SmallLeaves(flags, v, p, n, i + Span(level), count')
  {
    hide LeafLevel;
    assert SmallStep(flags, v, p, n, i) <==> level == 1;
    SmallLevel(flags, v + i, p + i, n - i);
    if LargeAligned(flags, v, p) {
      Sum512(v, i);
      Sum512(p, i);
      if level > 1 {
        Multiple(i, Span(level) / PAGES_2M);
        assert (i + Span(level)) % PAGES_2M == 0;
      }
    }
  }

  lemma Multiple(i: nat, q: nat)
    ensures (i + q * PAGES_2M) % PAGES_2M == i % PAGES_2M
  {
    if q > 0 {
      Multiple(i, q - 1);
      var j := i + (q - 1) * PAGES_2M;
      assert (j + PAGES_2M) % PAGES_2M == j % PAGES_2M;
    }
  }

  lemma SmallLevel(flags: Flags, v: nat, p: nat, left: nat)
    ensures LeafLevel(flags, v, p, left) == 1 <==> !(LargeAligned(flags, v, p) && PAGES_2M <= left)
  {
    LargeMultiple(v);
    LargeMultiple(p);
  }

  lemma LargeMultiple(x: nat)
    ensures x % PAGES_1G == 0 ==> x % PAGES_2M == 0
  {
    if x % PAGES_1G == 0 {
      var q := x / PAGES_1G;
      assert x == PAGES_2M * (PAGES_2M * q);
    }
  }

  lemma Sum512(v: nat, i: nat)
    requires v % PAGES_2M == 0
    ensures (v + i) % PAGES_2M == i % PAGES_2M
  {
    Multiple(i, v / PAGES_2M);
  }

  /** The counter has grown by the 4K leaves made. */
  ghost predicate Tallied(mapped: map<nat, nat>, mapped': map<nat, nat>, h: Heap, root: nat,
                          d: nat, v: nat, p: nat, n: nat, i: nat, flags: Flags) {
    var count := |SmallIn(h, root, v, i)|;
    && d in mapped && mapped' == mapped[d := WrapAdd(mapped[d], count)]
    && SmallLeaves(flags, v, p, n, i, count)
  }

  lemma TalliedStart(mapped: map<nat, nat>, h: Heap, root: nat, d: nat, v: nat, p: nat, n: nat, flags: Flags)
    requires d in mapped && mapped[d] < U64
    ensures Tallied(mapped, mapped, h, root, d, v, p, n, 0, flags)
  {
    assert SmallIn(h, root, v, 0) == {};
  }

  lemma TalliedStop(mapped: map<nat, nat>, mapped': map<nat, nat>, h: Heap, h': Heap, roots: map<nat, nat>,
                    d: nat, v: nat, p: nat, n: nat, i: nat, flags: Flags, r: Errno, level: nat)
    requires d in roots && v + i < PAGES && Tallied(mapped, mapped', h, roots[d], d, v, p, n, i, flags)
    requires MapOutcome(h, h', roots, d, v + i, p + i, flags, r, level) && r != Ok
    ensures Tallied(mapped, mapped', h', roots[d], d, v, p, n, i, flags)
  {
    hide SmallIn, SmallLeaves, WrapAdd, Walk;
    SmallInStays(h, h', roots, d, v, i);
  }

  lemma TalliedThen(mapped: map<nat, nat>, mapped': map<nat, nat>, h: Heap, h': Heap, roots: map<nat, nat>,
                    d: nat, v: nat, p: nat, n: nat, i: nat, flags: Flags, level: nat)
    requires d in roots && v + n <= PAGES && i < n && Tallied(mapped, mapped', h, roots[d], d, v, p, n, i, flags)
    requires MapOutcome(h, h', roots, d, v + i, p + i, flags, Ok, level)
    requires level == LeafLevel(flags, v + i, p + i, n - i) && i + Span(level) <= n
    ensures d in mapped'
    ensures Tallied(mapped, if level == 1 then mapped'[d := WrapAdd(mapped'[d], 1)] else mapped', h', roots[d],
                    d, v, p, n, i + Span(level), flags)
  {
    hide SmallIn, SmallLeaves, WrapAdd, Walk, Installed, AtLevel, LeafLevel;
    SmallInThen(h, h', roots, d, v, p, i, flags, level);
    var count := |SmallIn(h, roots[d], v, i)|;
    SmallSteps(flags, v, p, n, i, level, count, |SmallIn(h', roots[d], v, i + Span(level))|);
    WrapAddThen(mapped[d], count, 1);
  }

  lemma SmallInStays(h: Heap, h': Heap, roots: map<nat, nat>, d: nat, v: nat, i: nat)
    requires d in roots && v + i <= PAGES && SameWalks(h, h', roots)
    ensures SmallIn(h', roots[d], v, i) == SmallIn(h, roots[d], v, i)
  {
    hide Walk;
  }

  /** A request without the PAGE_SIZE flag counts every page it maps. */
  lemma SmallInAll(h: Heap, h': Heap, roots: map<nat, nat>, d: nat, v: nat, p: nat, k: nat, flags: Flags)
    requires d in roots && v + k <= PAGES && !flags.large && Installed(h, h', roots, d, v, p, k, flags)
    ensures |SmallIn(h', roots[d], v, k)| == k
  {
    forall w: nat | v <= w < v + k ensures Walk(h', roots[d], 4, w).Leaf? && Walk(h', roots[d], 4, w).level == 1 {
      assert LeafInside(Walk(h', roots[d], 4, w), w, v, p, k, flags);
      WalkLeafLarge(h', roots[d], 4, w);
    }
    assert SmallIn(h', roots[d], v, k) == Frames(v, k);
    FramesCount(v, k);
  }

  lemma MapProgressStart(h: Heap, roots: map<nat, nat>, d: nat, v: nat, p: nat, flags: Flags)
    requires d in roots
    ensures MapProgress(h, h, roots, d, v, p, 0, flags)
    ensures SmallIn(h, roots[d], v, 0) == {}
  {
    hide Walk;
  }

  lemma MapProgressStop(h: Heap, h1: Heap, h2: Heap, roots: map<nat, nat>, d: nat, v: nat, p: nat, i: nat, n: nat, flags: Flags, r: Errno, level: nat)
    requires d in roots && v + i < PAGES && i < n && r != Ok
    requires MapProgress(h, h1, roots, d, v, p, i, flags)
    requires MapOutcome(h1, h2, roots, d, v + i, p + i, flags, r, level)
    ensures MapResult(h, h2, roots, d, v, p, n, flags, r, i)
  {
  }

  lemma GroupRange(v: nat, w: nat)
    requires v % 512 == 0
    ensures w / 512 == v / 512 <==> v <= w < v + 512
    ensures v <= w < v + 512 ==> w % 512 == w - v
  {
  }

  lemma UpTwice(v: nat)
    ensures Up(v, 2) == v / 512 / 512
  {
    assert Up(v, 1) == v / 512;
  }

  lemma GroupRange2(v: nat, w: nat)
    requires v % 262144 == 0
    ensures w / 512 / 512 == v / 512 / 512 <==> v <= w < v + 262144
    ensures v <= w < v + 262144 ==> w % 262144 == w - v
  {
    var q := v / 262144;
    assert v == 512 * (512 * q);
    assert v / 512 == 512 * q;
    GroupRange(v / 512, w / 512);
    var a := w / 512;
    assert 512 * a <= w < 512 * a + 512;
  }

  /** A leaf stored at an aligned page serves exactly the pages of its span. */
  lemma LeafRange(level: nat, v: nat, w: nat)
    requires 1 <= level <= 3 && Low(v, level) == 0
    ensures Up(w, level - 1) == Up(v, level - 1) <==> v <= w < v + Span(level)
    ensures v <= w < v + Span(level) ==> Low(w, level) == w - v
  {
    if level == 2 {
      GroupRange(v, w);
    } else if level == 3 {
      GroupRange2(v, w);
      UpTwice(v);
      UpTwice(w);
    }
  }

  /** The page before one inside a large leaf is in the same leaf. */
  lemma LeafBack(level: nat, v: nat)
    requires 1 <= level <= 3 && Low(v, level) > 0
    ensures v > 0 && Up(v - 1, level - 1) == Up(v, level - 1)
  {
    var s := v - Low(v, level);
    assert Low(s, level) == 0;
    LeafRange(level, s, v);
    LeafRange(level, s, v - 1);
  }

  lemma InstalledByLeaf(h: Heap, h': Heap, roots: map<nat, nat>, d: nat, level: nat, v: nat, p: nat, flags: Flags)
    requires 1 <= level <= 3 && Low(v, level) == 0 && p % Span(level) == 0 && (level > 1 ==> flags.large)
    requires forall d', w: nat {:trigger Walk(h', roots[d'], 4, w)} | d' in roots && w < PAGES ::
               Walk(h', roots[d'], 4, w) ==
               if d' == d && Up(w, level - 1) == Up(v, level - 1) then LeafOf(Entry(p, MapFlags(flags)), level)
               else Walk(h, roots[d'], 4, w)
    ensures Installed(h, h', roots, d, v, p, Span(level), flags)
  {
    hide Walk;
    var leaf := Leaf(level, Entry(p, MapFlags(flags)));
    forall d', w: nat | d' in roots && w < PAGES
      ensures if d' == d && v <= w < v + Span(level) then LeafInside(Walk(h', roots[d'], 4, w), w, v, p, Span(level), flags)
              else Walk(h', roots[d'], 4, w) == Walk(h, roots[d'], 4, w)
    {
      LeafRange(level, v, w);
      if d' == d && v <= w < v + Span(level) {
        assert Walk(h', roots[d'], 4, w) == leaf;
        assert PageOf(leaf, w).frame == p + Low(w, level);
      }
    }
  }

  lemma LeafAtLevel(h: Heap, h': Heap, roots: map<nat, nat>, d: nat, level: nat, v: nat, e: Entry)
    requires 1 <= level <= 3 && Low(v, level) == 0 && d in roots
    requires forall d', w: nat {:trigger Walk(h', roots[d'], 4, w)} | d' in roots && w < PAGES ::
               Walk(h', roots[d'], 4, w) ==
               if d' == d && Up(w, level - 1) == Up(v, level - 1) then LeafOf(e, level)
               else Walk(h, roots[d'], 4, w)
    ensures AtLevel(h', roots[d], v, Span(level), level)
  {
    hide Walk;
    forall w: nat | v <= w < v + Span(level) && w < PAGES && Walk(h', roots[d], 4, w).Leaf?
      ensures Walk(h', roots[d], 4, w).level == level
    {
      LeafRange(level, v, w);
    }
  }

  predicate Within(x: nat, lo: nat, n: nat) {
    lo <= x < lo + n
  }

  /** The numbers from `lo` on, `n` of them. */
  function Frames(lo: nat, n: nat): set<nat> {
    set f: nat | f < lo + n && Within(f, lo, n)
  }

  /** Between `h` and `h'`, directory `d` has lost its pages `[v, v + k)` and nothing else has changed. */
  ghost predicate Cleared(h: Heap, h': Heap, roots: map<nat, nat>, d: nat, v: nat, k: nat) {
    forall d', w: nat {:trigger Walk(h', roots[d'], 4, w)} | d' in roots && w < PAGES ::
      Walk(h', roots[d'], 4, w) == if d' == d && v <= w < v + k then NoLeaf else Walk(h, roots[d'], 4, w)
  }

  lemma ClearedByStore(h: Heap, h': Heap, roots: map<nat, nat>, d: nat, level: nat, v: nat)
    requires 1 <= level <= 3 && Low(v, level) == 0
    requires forall d', w: nat {:trigger Walk(h', roots[d'], 4, w)} | d' in roots && w < PAGES ::
               Walk(h', roots[d'], 4, w) ==
               if d' == d && Up(w, level - 1) == Up(v, level - 1) then LeafOf(NO_ENTRY, level)
               else Walk(h, roots[d'], 4, w)
    ensures Cleared(h, h', roots, d, v, Span(level))
  {
    forall d', w: nat | d' in roots && w < PAGES
      ensures Walk(h', roots[d'], 4, w) ==
              if d' == d && v <= w < v + Span(level) then NoLeaf else Walk(h, roots[d'], 4, w)
    {
      LeafRange(level, v, w);
    }
  }

  /** `path` lists the tables on the way to `v` from the given level up to the root. */
  ghost predicate OnPath(h: Heap, root: nat, path: seq<nat>, level: nat, v: nat) {
    && level <= 4 && |path| == 5 - level
    && forall k: nat | k < |path| :: path[k] in h && TableAt(h, root, level + k, v) == Some(path[k])
  }

  lemma PathStays(h: Heap, h': Heap, pos': map<nat, Pos>, roots: map<nat, nat>, d: nat, path: seq<nat>, level: nat, v: nat)
    requires Shape(h', pos', roots) && d in roots && v < PAGES && 1 <= level < 4
    requires OnPath(h, roots[d], path, level, v)
    requires forall l: nat | level + 1 <= l <= 4 :: TableAt(h', roots[d], l, v) == TableAt(h, roots[d], l, v)
    ensures OnPath(h', roots[d], path[1..], level + 1, v)
  {
    forall k: nat | k < |path| - 1
      ensures path[1..][k] in h' && TableAt(h', roots[d], level + 1 + k, v) == Some(path[1..][k])
    {
      assert TableAt(h, roots[d], level + (k + 1), v) == Some(path[k + 1]);
      TableAtPos(h', pos', d, roots[d], level + 1 + k, v);
    }
  }

  // ----- unmapping -----

  /** Page `v` is not inside a large leaf that begins before it. */
  ghost predicate AtLeafStart(h: Heap, root: nat, v: nat) {
    Walk(h, root, 4, v).Leaf? ==> Low(v, Walk(h, root, 4, v).level) == 0
  }

  /** The leaf at page `v` covers exactly its span, page by page. */
  lemma LeafPages(h: Heap, root: nat, v: nat, w: nat)
    requires Walk(h, root, 4, v).Leaf? && AtLeafStart(h, root, v)
    requires v <= w < v + Span(Walk(h, root, 4, v).level)
    ensures Walk(h, root, 4, w) == Walk(h, root, 4, v)
    ensures PageOf(Walk(h, root, 4, w), w) == Entry(Walk(h, root, 4, v).entry.frame + (w - v), Walk(h, root, 4, v).entry.flags)
  {
    WalkLevel(h, root, 4, v);
    LeafRange(Walk(h, root, 4, v).level, v, w);
    WalkSameLeaf(h, root, 4, v, w);
  }

  /** A page inside a large leaf has a mapped predecessor. */
  lemma LeafStartAfterHole(h: Heap, root: nat, v: nat)
    requires v > 0 && Walk(h, root, 4, v - 1).NoLeaf?
    ensures AtLeafStart(h, root, v)
  {
    var leaf := Walk(h, root, 4, v);
    if leaf.Leaf? && Low(v, leaf.level) != 0 {
      WalkLevel(h, root, 4, v);
      LeafBack(leaf.level, v);
      WalkSameLeaf(h, root, 4, v, v - 1);
    }
  }

  lemma ClearedThen(h: Heap, h1: Heap, h2: Heap, roots: map<nat, nat>, d: nat, v: nat, k: nat, n: nat)
    requires Cleared(h, h1, roots, d, v, k) && Cleared(h1, h2, roots, d, v + k, n)
    ensures Cleared(h, h2, roots, d, v, k + n)
  {
  }

  /** The mapped pages among `[v, v + k)`. */
  ghost function MappedIn(h: Heap, root: nat, v: nat, k: nat): set<nat> {
    set w: nat | w < v + k && v <= w && Walk(h, root, 4, w).Leaf?
  }

  /** The frames behind the pages of `[v, v + k)` that are not copy-on-write. */
  ghost function OwnedIn(h: Heap, root: nat, v: nat, k: nat): set<nat> {
    set w: nat | w < v + k && v <= w && Walk(h, root, 4, w).Leaf? && !Walk(h, root, 4, w).entry.flags.cow ::
      PageOf(Walk(h, root, 4, w), w).frame
  }

  /** Between pages `from` and `to`, frames that are not copy-on-write are data frames mapped once. */
  predicate OwnsFrames(h: Heap, root: nat, data: set<nat>, from: nat, to: nat) {
    forall w: nat | from <= w < to && w < PAGES && Walk(h, root, 4, w).Leaf? && !Walk(h, root, 4, w).entry.flags.cow ::
      && PageOf(Walk(h, root, 4, w), w).frame in data
      && forall w': nat | from <= w' < to && w' < PAGES && w' != w && Walk(h, root, 4, w').Leaf? ::
           PageOf(Walk(h, root, 4, w'), w').frame != PageOf(Walk(h, root, 4, w), w).frame
  }

  lemma FramesCount(lo: nat, n: nat)
    ensures |Frames(lo, n)| == n
  {
    if n == 0 {
      assert Frames(lo, n) == {};
    } else {
      FramesCount(lo, n - 1);
      assert Frames(lo, n) == Frames(lo, n - 1) + {lo + n - 1};
    }
  }

  lemma MappedInMore(h: Heap, root: nat, v: nat, k: nat, n: nat)
    requires forall w: nat | v + k <= w < v + k + n :: Walk(h, root, 4, w).Leaf?
    ensures |MappedIn(h, root, v, k + n)| == |MappedIn(h, root, v, k)| + n
  {
    hide Walk;
    assert MappedIn(h, root, v, k + n) == MappedIn(h, root, v, k) + Frames(v + k, n);
    FramesCount(v + k, n);
  }

  lemma MappedInThen(h: Heap, root: nat, v: nat, k: nat)
    requires AtLeafStart(h, root, v + k)
    ensures var leaf := Walk(h, root, 4, v + k);
            var n := if leaf.Leaf? then Span(leaf.level) else 1;
            |MappedIn(h, root, v, k + n)| == |MappedIn(h, root, v, k)| + if leaf.Leaf? then n else 0
  {
    hide Walk, AtLeafStart, PageOf, Low;
    var leaf := Walk(h, root, 4, v + k);
    if leaf.Leaf? {
      var n := Span(leaf.level);
      forall w: nat | v + k <= w < v + k + n ensures Walk(h, root, 4, w).Leaf? {
        LeafPages(h, root, v + k, w);
      }
      MappedInMore(h, root, v, k, n);
    } else {
      assert MappedIn(h, root, v, k + 1) == MappedIn(h, root, v, k);
    }
  }

  lemma OwnedInThen(h: Heap, root: nat, v: nat, k: nat)
    requires AtLeafStart(h, root, v + k)
    ensures var leaf := Walk(h, root, 4, v + k);
            var n := if leaf.Leaf? then Span(leaf.level) else 1;
            OwnedIn(h, root, v, k + n) == OwnedIn(h, root, v, k) +
              if leaf.Leaf? && !leaf.entry.flags.cow then Frames(leaf.entry.frame, n) else {}
  {
    var leaf := Walk(h, root, 4, v + k);
    if leaf.Leaf? {
      var n := Span(leaf.level);
      forall w: nat | v + k <= w < v + k + n
        ensures Walk(h, root, 4, w) == leaf && PageOf(leaf, w).frame == leaf.entry.frame + (w - (v + k))
      {
        LeafPages(h, root, v + k, w);
      }
      if !leaf.entry.flags.cow {
        forall f | f in Frames(leaf.entry.frame, n) ensures f in OwnedIn(h, root, v, k + n) {
          var w := v + k + (f - leaf.entry.frame);
          assert PageOf(Walk(h, root, 4, w), w).frame == f;
        }
      }
    }
  }

  /** The frames of the leaf at `v` are data frames, and clearing it leaves the rest owned. */
  lemma OwnsLeaf(h: Heap, root: nat, data: set<nat>, v: nat, to: nat)
    requires v < PAGES && AtLeafStart(h, root, v) && OwnsFrames(h, root, data, v, to)
    requires Walk(h, root, 4, v).Leaf? && !Walk(h, root, 4, v).entry.flags.cow
    requires v + Span(Walk(h, root, 4, v).level) <= PAGES && v + Span(Walk(h, root, 4, v).level) <= to
    ensures Frames(Walk(h, root, 4, v).entry.frame, Span(Walk(h, root, 4, v).level)) <= data
    ensures var leaf := Walk(h, root, 4, v);
            OwnsFrames(h, root, data - Frames(leaf.entry.frame, Span(leaf.level)), v + Span(leaf.level), to)
  {
    var leaf := Walk(h, root, 4, v);
    forall f | f in Frames(leaf.entry.frame, Span(leaf.level))
      ensures f in data
      ensures Walk(h, root, 4, v + (f - leaf.entry.frame)) == leaf
      ensures PageOf(leaf, v + (f - leaf.entry.frame)).frame == f
    {
      LeafPages(h, root, v, v + (f - leaf.entry.frame));
    }
  }

  /** Leaves never reach past the address space. */
  lemma LeafFits(h: Heap, root: nat, v: nat)
    requires v < PAGES && AtLeafStart(h, root, v)
    ensures Walk(h, root, 4, v).Leaf? ==> v + Span(Walk(h, root, 4, v).level) <= PAGES
  {
    WalkLevel(h, root, 4, v);
  }

  /** Frames only move between tables, free frames and data frames; none is lost. */
  ghost predicate Kept(h: Heap, free: set<nat>, data: map<nat, Page>, h': Heap, free': set<nat>, data': map<nat, Page>) {
    && h'.Keys + free' + data'.Keys == h.Keys + free + data.Keys
    && h'.Keys <= h.Keys && free <= free' && data'.Keys <= data.Keys
  }

  lemma KeptThen(h: Heap, free: set<nat>, data: map<nat, Page>, h1: Heap, free1: set<nat>, data1: map<nat, Page>,
                 h2: Heap, free2: set<nat>, data2: map<nat, Page>)
    requires Kept(h, free, data, h1, free1, data1) && Kept(h1, free1, data1, h2, free2, data2)
    ensures Kept(h, free, data, h2, free2, data2)
  {
  }

  lemma KeptUnmap(h: Heap, free: set<nat>, data: map<nat, Page>, h1: Heap, free1: set<nat>, data1: map<nat, Page>,
                  h2: Heap, free2: set<nat>, freed: set<nat>, idle: set<nat>)
    requires h1.Keys == h.Keys && free1 == free + freed && data1 == data - freed && freed <= data.Keys
    requires h2.Keys == h1.Keys - idle && free2 == free1 + idle && idle <= h1.Keys
    ensures Kept(h, free, data, h2, free2, data1)
  {
  }

  lemma ClearNothing(h: Heap, roots: map<nat, nat>, d: nat, v: nat)
    requires d in roots && Walk(h, roots[d], 4, v).NoLeaf?
    ensures Cleared(h, h, roots, d, v, 1)
  {
  }

  lemma AlignedLeaf(h: Heap, root: nat, v: nat)
    requires v < PAGES && AtLeafStart(h, root, v) && Walk(h, root, 4, v).Leaf?
    ensures var l := Walk(h, root, 4, v).level; 1 <= l <= 3 && Low(v, l) == 0 && v + Span(l) <= PAGES
  {
    WalkLevel(h, root, 4, v);
    LeafFits(h, root, v);
  }

  lemma PathHolds(h: Heap, h': Heap, root: nat, path: seq<nat>, level: nat, v: nat)
    requires OnPath(h, root, path, level, v) && h'.Keys == h.Keys
    requires forall l: nat | level <= l <= 4 :: TableAt(h', root, l, v) == TableAt(h, root, l, v)
    ensures OnPath(h', root, path, level, v)
  {
  }

  lemma ClearedStays(h: Heap, h1: Heap, h2: Heap, roots: map<nat, nat>, d: nat, v: nat, k: nat)
    requires Cleared(h, h1, roots, d, v, k) && SameWalks(h1, h2, roots)
    ensures Cleared(h, h2, roots, d, v, k)
  {
  }

  lemma KeptSame(h: Heap, free: set<nat>, data: map<nat, Page>)
    ensures Kept(h, free, data, h, free, data)
  {
  }

  ghost function FreedIn(h: Heap, root: nat, v: nat, k: nat, freePhys: bool): set<nat> {
    if freePhys then OwnedIn(h, root, v, k) else {}
  }

  /** How far an unmap request has come after `i` pages, and that it may go on. */
  ghost predicate UnmapProgress(h: Heap, data: map<nat, Page>, h': Heap, data': map<nat, Page>,
                                roots: map<nat, nat>, d: nat, v: nat, freePhys: bool, i: nat, to: nat)
    requires d in roots
  {
    && Cleared(h, h', roots, d, v, i)
    && data' == data - FreedIn(h, roots[d], v, i, freePhys)
    && AtLeafStart(h', roots[d], v + i)
    && (freePhys ==> OwnsFrames(h', roots[d], data'.Keys, v + i, to))
  }

  ghost predicate EndsWithLeaf(leaf: Leaf, w: nat, end: nat) {
    leaf.Leaf? && end == w - Low(w, leaf.level) + Span(leaf.level)
  }

  /** The loop ends with the request, or at the end of the leaf holding its last page. */
  ghost predicate StopsAt(h: Heap, root: nat, v: nat, n: nat, i: nat) {
    || i <= n
    || (n > 0 && EndsWithLeaf(Walk(h, root, 4, v + n - 1), v + n - 1, v + i))
  }

  /** The result of a whole unmap request. */
  ghost predicate UnmapResult(h: Heap, data: map<nat, Page>, h': Heap, data': map<nat, Page>,
                              roots: map<nat, nat>, d: nat, v: nat, n: nat, freePhys: bool, done: nat)
    requires d in roots
  {
    && n <= done && StopsAt(h, roots[d], v, n, done)
    && Cleared(h, h', roots, d, v, done)
    && data' == data - FreedIn(h, roots[d], v, done, freePhys)
  }

  lemma UnmapProgressStart(h: Heap, data: map<nat, Page>, roots: map<nat, nat>, d: nat, v: nat, freePhys: bool, to: nat)
    requires d in roots && AtLeafStart(h, roots[d], v)
    requires freePhys ==> OwnsFrames(h, roots[d], data.Keys, v, to)
    ensures UnmapProgress(h, data, h, data, roots, d, v, freePhys, 0, to)
    ensures forall n: nat :: StopsAt(h, roots[d], v, n, 0)
    ensures MappedIn(h, roots[d], v, 0) == {}
  {
    hide Walk;
    assert FreedIn(h, roots[d], v, 0, freePhys) == {};
    assert data - {} == data;
  }

  /** Where a request for `n` pages from `v` on ends: with the leaf holding its last page. */
  ghost function LastEnd(h: Heap, root: nat, v: nat, n: nat): (end: nat)
    requires n > 0
  {
    var w := v + n - 1;
    var leaf := Walk(h, root, 4, w);
    if leaf.Leaf? && Low(w, leaf.level) <= w then w - Low(w, leaf.level) + Span(leaf.level) else v + n
  }

  /** The leaf met next lies before the end of the request. */
  lemma LeafBeforeEnd(h: Heap, root: nat, v: nat, n: nat, i: nat)
    requires i < n && AtLeafStart(h, root, v + i) && Walk(h, root, 4, v + i).Leaf?
    ensures v + i + Span(Walk(h, root, 4, v + i).level) <= LastEnd(h, root, v, n)
  {
    var leaf, w := Walk(h, root, 4, v + i), v + n - 1;
    WalkLevel(h, root, 4, v + i);
    WalkLevel(h, root, 4, w);
    if i + Span(leaf.level) > n {
      LeafPages(h, root, v + i, w);
      LeafRange(leaf.level, v + i, w);
    }
  }

  lemma UnmapProgressReady(h: Heap, data: map<nat, Page>, h': Heap, data': map<nat, Page>,
                           roots: map<nat, nat>, d: nat, v: nat, freePhys: bool, n: nat, i: nat)
    requires d in roots && i < n && v + n <= PAGES
    requires UnmapProgress(h, data, h', data', roots, d, v, freePhys, i, LastEnd(h, roots[d], v, n))
    ensures AtLeafStart(h', roots[d], v + i)
    ensures var leaf := Walk(h', roots[d], 4, v + i);
            freePhys && leaf.Leaf? ==> OwnsFrames(h', roots[d], data'.Keys, v + i, v + i + Span(leaf.level))
  {
    hide Walk, Low, AtLeafStart, LastEnd, FreedIn;
    assert Walk(h', roots[d], 4, v + i) == Walk(h, roots[d], 4, v + i);
    if Walk(h', roots[d], 4, v + i).Leaf? {
      StartSame(h, h', roots[d], v + i);
      LeafBeforeEnd(h, roots[d], v, n, i);
    }
  }

  lemma StartSame(h: Heap, h': Heap, root: nat, v: nat)
    requires Walk(h', root, 4, v) == Walk(h, root, 4, v) && AtLeafStart(h', root, v)
    ensures AtLeafStart(h, root, v)
  {
  }

  /** Ownership of the remaining frames survives clearing one leaf. */
  lemma OwnsAfterClear(h: Heap, h': Heap, roots: map<nat, nat>, d: nat, data: map<nat, Page>, v: nat, n: nat, to: nat)
    requires d in roots && v < PAGES && AtLeafStart(h, roots[d], v) && OwnsFrames(h, roots[d], data.Keys, v, to)
    requires Walk(h, roots[d], 4, v).Leaf? ==> v + n <= to
    requires n == if Walk(h, roots[d], 4, v).Leaf? then Span(Walk(h, roots[d], 4, v).level) else 1
    requires Cleared(h, h', roots, d, v, n)
    ensures var leaf := Walk(h, roots[d], 4, v);
            var freed := if leaf.Leaf? && !leaf.entry.flags.cow then Frames(leaf.entry.frame, n) else {};
            OwnsFrames(h', roots[d], (data - freed).Keys, v + n, to)
  {
    hide Walk, Low, AtLeafStart;
    var leaf := Walk(h, roots[d], 4, v);
    if leaf.Leaf? && !leaf.entry.flags.cow {
      LeafFits(h, roots[d], v);
      OwnsLeaf(h, roots[d], data.Keys, v, to);
      assert (data - Frames(leaf.entry.frame, n)).Keys == data.Keys - Frames(leaf.entry.frame, n);
    } else {
      assert data - {} == data;
    }
  }

  lemma StopsAtThen(h: Heap, root: nat, v: nat, n: nat, i: nat)
    requires i < n && AtLeafStart(h, root, v + i)
    ensures StopsAt(h, root, v, n, i + if Walk(h, root, 4, v + i).Leaf? then Span(Walk(h, root, 4, v + i).level) else 1)
  {
    var leaf := Walk(h, root, 4, v + i);
    if leaf.Leaf? && i + Span(leaf.level) > n {
      WalkLevel(h, root, 4, v + i);
      LeafPages(h, root, v + i, v + n - 1);
      LeafRange(leaf.level, v + i, v + n - 1);
    }
  }

  lemma UnmapProgressThen(h: Heap, data: map<nat, Page>, h1: Heap, data1: map<nat, Page>, h2: Heap, data2: map<nat, Page>,
                          roots: map<nat, nat>, d: nat, v: nat, freePhys: bool, n: nat, i: nat, level: nat)
    requires d in roots && v + i < PAGES && i < n
    requires UnmapProgress(h, data, h1, data1, roots, d, v, freePhys, i, LastEnd(h, roots[d], v, n))
    requires var leaf := Walk(h1, roots[d], 4, v + i);
             var freed := if freePhys && leaf.Leaf? && !leaf.entry.flags.cow then Frames(leaf.entry.frame, Span(leaf.level)) else {};
             level == (if leaf.Leaf? then leaf.level else 0) && data2 == data1 - freed
    requires Cleared(h1, h2, roots, d, v + i, Span(level))
    ensures v + i + Span(level) <= PAGES
    ensures UnmapProgress(h, data, h2, data2, roots, d, v, freePhys, i + Span(level), LastEnd(h, roots[d], v, n))
    ensures StopsAt(h, roots[d], v, n, i + Span(level))
    ensures |MappedIn(h, roots[d], v, i + Span(level))| == |MappedIn(h, roots[d], v, i)| + if level > 0 then Span(level) else 0
  {
    hide Walk, Low, OwnsFrames, MappedIn, OwnedIn, StopsAt, Frames, LastEnd;
    var root := roots[d];
    assert Walk(h, root, 4, v + i) == Walk(h1, root, 4, v + i);
    LeafFits(h1, root, v + i);
    WalkLevel(h1, root, 4, v + i);
    MappedInThen(h, root, v, i);
    OwnedInThen(h, root, v, i);
    StopsAtThen(h, root, v, n, i);
    ClearedThen(h, h1, h2, roots, d, v, i, Span(level));
    assert Walk(h2, root, 4, v + i + Span(level) - 1).NoLeaf?;
    LeafStartAfterHole(h2, root, v + i + Span(level));
    if freePhys {
      if level > 0 {
        LeafBeforeEnd(h, root, v, n, i);
      }
      OwnsAfterClear(h1, h2, roots, d, data1, v + i, Span(level), LastEnd(h, root, v, n));
    }
  }

  lemma UnmapProgressDone(h: Heap, data: map<nat, Page>, h': Heap, data': map<nat, Page>,
                          roots: map<nat, nat>, d: nat, v: nat, n: nat, freePhys: bool, i: nat, to: nat)
    requires d in roots && n <= i && StopsAt(h, roots[d], v, n, i)
    requires UnmapProgress(h, data, h', data', roots, d, v, freePhys, i, to)
    ensures UnmapResult(h, data, h', data', roots, d, v, n, freePhys, i)
  {
  }

  // ----- flags and copy-on-write -----

  /** Pages of the user half: `copy_page_directory` works on addresses below 2^47. */
  const USER_PAGES: nat := 34359738368

  const COW_ONLY := NO_FLAGS.(cow := true)
  const WRITABLE_ONLY := NO_FLAGS.(writable := true)

  /** `(flags & ~mask) | on` */
  function Reflag(f: Flags, on: Flags, mask: Flags): (r: Flags)
    ensures on.writable ==> r.writable
    ensures on.cow ==> r.cow
    ensures !on.writable && mask.writable ==> !r.writable
    ensures !on.cow && mask.cow ==> !r.cow
    ensures !on.writable && !mask.writable ==> r.writable == f.writable
    ensures !on.cow && !mask.cow ==> r.cow == f.cow
    ensures !on.user && !mask.user ==> r.user == f.user
  {
    Flags((f.present && !mask.present) || on.present, (f.writable && !mask.writable) || on.writable,
          (f.user && !mask.user) || on.user, (f.large && !mask.large) || on.large,
          (f.cow && !mask.cow) || on.cow, f.rest - mask.rest + on.rest)
  }

  /** Between `h` and `h'`, the leaf translating page `v` of directory `d` has had its flags changed. */
  ghost predicate Reflagged(h: Heap, h': Heap, roots: map<nat, nat>, d: nat, v: nat, on: Flags, mask: Flags)
    requires d in roots
  {
    var leaf := Walk(h, roots[d], 4, v);
    && leaf.Leaf? && leaf.level >= 1
    && forall d', w: nat {:trigger Walk(h', roots[d'], 4, w)} | d' in roots && w < PAGES ::
         Walk(h', roots[d'], 4, w) ==
         if d' == d && Up(w, leaf.level - 1) == Up(v, leaf.level - 1)
         then leaf.(entry := Entry(leaf.entry.frame, Reflag(leaf.entry.flags, on, mask)))
         else Walk(h, roots[d'], 4, w)
  }

  /** Every mapped page of the directory is a 4K page. */
  ghost predicate FourK(h: Heap, root: nat) {
    forall v: nat | v < PAGES && Walk(h, root, 4, v).Leaf? :: Walk(h, root, 4, v).level == 1
  }

  function CowLeaf(leaf: Leaf): Leaf {
    match leaf
    case NoLeaf => NoLeaf
    case Leaf(l, e) => Leaf(l, Entry(e.frame, CowFlags(e.flags)))
  }

  /** The flags of a page after copying: copy-on-write, no longer writable. */
  function CowFlags(f: Flags): Flags {
    f.(cow := true, writable := false)
  }

  /** The first `k` pages of directory `d` have been marked copy-on-write. */
  ghost predicate Marked(h: Heap, h': Heap, roots: map<nat, nat>, d: nat, k: nat)
    requires d in roots
  {
    && FourK(h, roots[d])
    && forall d', w: nat {:trigger Walk(h', roots[d'], 4, w)} | d' in roots && w < PAGES ::
         Walk(h', roots[d'], 4, w) ==
         if d' == d && w < k then CowLeaf(Walk(h, roots[d'], 4, w)) else Walk(h, roots[d'], 4, w)
  }

  lemma MarkedStart(h: Heap, roots: map<nat, nat>, d: nat)
    requires d in roots && FourK(h, roots[d])
    ensures Marked(h, h, roots, d, 0)
  {
  }

  lemma MarkedSmall(h: Heap, h': Heap, roots: map<nat, nat>, d: nat, k: nat)
    requires d in roots && k < PAGES && Marked(h, h', roots, d, k)
    ensures Walk(h', roots[d], 4, k).Leaf? ==> Walk(h', roots[d], 4, k).level == 1
  {
    hide Walk;
  }

  lemma MarkedThen(h: Heap, h1: Heap, h2: Heap, roots: map<nat, nat>, d: nat, k: nat, r: Errno)
    requires d in roots && k < PAGES && Marked(h, h1, roots, d, k)
    requires r == if Walk(h1, roots[d], 4, k).Leaf? then Ok else EFAULT
    requires r == EFAULT ==> h2 == h1
    requires r == Ok ==> Reflagged(h1, h2, roots, d, k, COW_ONLY, WRITABLE_ONLY)
    ensures Marked(h, h2, roots, d, k + 1)
  {
    hide Walk;
    if r == Ok {
      var leaf := Walk(h, roots[d], 4, k);
      assert leaf.level == 1;
      assert leaf.entry.flags.rest - {} + {} == leaf.entry.flags.rest;
      assert Reflag(leaf.entry.flags, COW_ONLY, WRITABLE_ONLY) == CowFlags(leaf.entry.flags);
      forall w: nat ensures Up(w, 0) == w { }
    }
  }

  /** Every page of the directory is backed by a data frame. */
  ghost predicate FramesAreData(h: Heap, root: nat, data: set<nat>) {
    forall v: nat | v < PAGES && Walk(h, root, 4, v).Leaf? :: PageOf(Walk(h, root, 4, v), v).frame in data
  }

  lemma FrameIsData(h: Heap, root: nat, data: set<nat>, v: nat)
    requires FramesAreData(h, root, data) && v < PAGES
    ensures Walk(h, root, 4, v).Leaf? && Walk(h, root, 4, v).level == 1 ==> Walk(h, root, 4, v).entry.frame in data
  {
  }

  predicate CowSmall(leaf: Leaf) {
    leaf.Leaf? && leaf.level == 1 && leaf.entry.flags.cow
  }

  /** What resolving a copy-on-write fault at page `v` of directory `d` comes to. */
  ghost predicate FaultResult(h: Heap, data: map<nat, Page>, free: set<nat>, h': Heap, data': map<nat, Page>, free': set<nat>,
                              roots: map<nat, nat>, d: nat, v: nat, r: Errno)
    requires d in roots
  {
    var leaf := Walk(h, roots[d], 4, v);
    && (r == Ok || r == ENOMEM || r == EFAULT || r == ENOTSUP)
    && (r == ENOTSUP <==> leaf.Leaf? && leaf.level != 1)
    && (r == EFAULT <==> leaf.NoLeaf? || (leaf.level == 1 && !leaf.entry.flags.cow))
    && (r != Ok ==> h' == h && data' == data && free' == free)
    && (r == Ok ==> exists f :: f in free && CowBroken(h, data, free, h', data', free', roots, d, v, f))
  }

  /** Page `v` of directory `d` has moved to frame `f`, which holds a copy of the old contents; what memory
      other than data frames holds is not known. */
  ghost predicate CowBroken(h: Heap, data: map<nat, Page>, free: set<nat>, h': Heap, data': map<nat, Page>, free': set<nat>,
                            roots: map<nat, nat>, d: nat, v: nat, f: nat)
    requires d in roots
  {
    var leaf := Walk(h, roots[d], 4, v);
    && free' == free - {f}
    && leaf.Leaf? && f in data' && data' == data[f := data'[f]]
    && (leaf.entry.frame in data ==> data'[f] == data[leaf.entry.frame])
    && forall d', w: nat {:trigger Walk(h', roots[d'], 4, w)} | d' in roots && w < PAGES ::
         Walk(h', roots[d'], 4, w) ==
         if d' == d && w == v then Leaf(1, Entry(f, leaf.entry.flags.(writable := true, cow := false)))
         else Walk(h, roots[d'], 4, w)
  }

  // ----- copying -----

  lemma SameWalksThen(h: Heap, h1: Heap, h2: Heap, roots: map<nat, nat>)
    requires SameWalks(h, h1, roots) && SameWalks(h1, h2, roots)
    ensures SameWalks(h, h2, roots)
  {
  }

  lemma FourKStays(h: Heap, h': Heap, roots: map<nat, nat>, d: nat)
    requires d in roots && FourK(h, roots[d]) && SameWalks(h, h', roots)
    ensures FourK(h', roots[d])
  {
  }

  lemma FourKLevel(h: Heap, root: nat, v: nat)
    requires FourK(h, root) && v < PAGES
    ensures Walk(h, root, 4, v).Leaf? ==> Walk(h, root, 4, v).level == 1
  {
  }

  /** In a directory of 4K pages a present upper-level entry is a table pointer. */
  lemma FourKSlot(h: Heap, root: nat, level: nat, v: nat)
    requires FourK(h, root) && v < PAGES && 2 <= level <= 3
    requires TableAt(h, root, level, v).Some? && TableAt(h, root, level, v).value in h
    ensures var e := h[TableAt(h, root, level, v).value][Index(v, level)]; e.flags.present ==> IsTablePtr(e, level)
  {
    hide Walk;
    WalkEnds(h, root, level, v);
  }

  lemma PathFlags(h: Heap, pos: map<nat, Pos>, roots: map<nat, nat>, d: nat, path: seq<nat>, v: nat)
    requires Shape(h, pos, roots) && d in roots && v < PAGES
    requires OnPath(h, roots[d], path, 1, v)
    ensures forall level: nat | 2 <= level <= 4 ::
              var f := h[path[level - 1]][Index(v, level)].flags; f.present && !f.large
  {
    hide TableAt;
    forall level: nat | 2 <= level <= 4
      ensures var f := h[path[level - 1]][Index(v, level)].flags; f.present && !f.large
    {
      assert TableAt(h, roots[d], 1 + (level - 1), v) == Some(path[level - 1]);
      assert TableAt(h, roots[d], 1 + (level - 2), v) == Some(path[level - 2]);
      PointerFlags(h, pos, roots, d, level, v);
    }
  }

  /** Page `v` of directory `dst` now is what page `v` of directory `src` is, if that is mapped. */
  ghost predicate CopiedPage(h: Heap, h': Heap, roots: map<nat, nat>, src: nat, dst: nat, v: nat)
    requires src in roots && dst in roots
  {
    forall d, w: nat {:trigger Walk(h', roots[d], 4, w)} | d in roots && w < PAGES ::
      Walk(h', roots[d], 4, w) ==
      if d == dst && w == v && Walk(h, roots[src], 4, v).Leaf? then Walk(h, roots[src], 4, v)
      else Walk(h, roots[d], 4, w)
  }

  lemma CopiedNothing(h: Heap, roots: map<nat, nat>, src: nat, dst: nat, v: nat)
    requires src in roots && dst in roots && Walk(h, roots[src], 4, v).NoLeaf?
    ensures CopiedPage(h, h, roots, src, dst, v)
  {
  }

  lemma CopiedByStore(h: Heap, h1: Heap, h2: Heap, roots: map<nat, nat>, src: nat, dst: nat, v: nat, e: Entry)
    requires src in roots && dst in roots && v < PAGES
    requires SameWalks(h, h1, roots) && Walk(h, roots[src], 4, v) == Leaf(1, e) && e.flags.present
    requires forall d, w: nat {:trigger Walk(h2, roots[d], 4, w)} | d in roots && w < PAGES ::
               Walk(h2, roots[d], 4, w) == if d == dst && Up(w, 0) == Up(v, 0) then LeafOf(e, 1) else Walk(h1, roots[d], 4, w)
    ensures CopiedPage(h, h2, roots, src, dst, v)
  {
  }

  /** The first `k` pages of directory `src` have been copied into `dst`, empty at first. */
  ghost predicate Copied(h: Heap, h': Heap, roots: map<nat, nat>, src: nat, dst: nat, k: nat)
    requires src in roots && dst in roots
  {
    && src != dst && FourK(h, roots[src])
    && forall d, w: nat {:trigger Walk(h', roots[d], 4, w)} | d in roots && w < PAGES ::
         Walk(h', roots[d], 4, w) ==
         if d != dst then Walk(h, roots[d], 4, w)
         else if w < k then Walk(h, roots[src], 4, w) else NoLeaf
  }

  lemma CopiedStart(h: Heap, roots: map<nat, nat>, src: nat, dst: nat)
    requires src in roots && dst in roots && src != dst && FourK(h, roots[src]) && WalksNowhere(h, roots[dst])
    ensures Copied(h, h, roots, src, dst, 0)
  {
    hide Walk;
  }

  lemma CopiedReady(h: Heap, h': Heap, roots: map<nat, nat>, src: nat, dst: nat, k: nat)
    requires src in roots && dst in roots && Copied(h, h', roots, src, dst, k)
    ensures src != dst && FourK(h', roots[src]) && FourK(h', roots[dst])
  {
  }

  lemma CopiedThen(h: Heap, h1: Heap, h2: Heap, roots: map<nat, nat>, src: nat, dst: nat, k: nat)
    requires src in roots && dst in roots && k < PAGES
    requires Copied(h, h1, roots, src, dst, k) && CopiedPage(h1, h2, roots, src, dst, k)
    ensures Copied(h, h2, roots, src, dst, k + 1)
  {
  }

  lemma CopiedStop(h: Heap, h1: Heap, h2: Heap, roots: map<nat, nat>, src: nat, dst: nat, k: nat)
    requires src in roots && dst in roots
    requires Copied(h, h1, roots, src, dst, k) && SameWalks(h1, h2, roots)
    ensures Copied(h, h2, roots, src, dst, k)
  {
    hide Walk;
  }

  // ----- frames -----

  /** Table frames, free frames and data frames are different frames. */
  ghost predicate Pools(tables: set<nat>, free: set<nat>, data: set<nat>) {
    free !! tables && free !! data && tables !! data
  }

  lemma PoolsApart(tables: set<nat>, free: set<nat>, data: set<nat>)
    requires Pools(tables, free, data)
    ensures free !! data
  {
  }

  lemma PoolsToTable(h: Heap, free: set<nat>, data: set<nat>, f: nat, t: Table)
    requires Pools(h.Keys, free, data) && f in free
    ensures Pools(h[f := t].Keys, free - {f}, data) && f !in h
  {
  }

  lemma PoolsFromTable(h: Heap, free: set<nat>, data: set<nat>, f: nat)
    requires Pools(h.Keys, free, data) && f in h
    ensures Pools((h - {f}).Keys, free + {f}, data) && free + {f} !! data
  {
  }
}
