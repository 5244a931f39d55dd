/** Runs of page-directory requests over any frames: what each does to the address spaces, and what
    validation finds afterwards. */
module TableSession {
  import opened Wrappers
  import opened PageForest
  import opened PagingSteps
  import opened AddressSpaces
  import opened CowModel
  import opened PagingBridge
  import opened PageCensus
  import opened SaneSpaces
  import opened Lean
  import opened PagingSystem
  import opened PagingLaws
  import opened Words

  /** Requests to the page-directory code; `Alloc` is a request for a data frame. */
  datatype Request =
    | Create
    | Destroy(d: nat)
    | Alloc
    | Map(d: nat, vaddr: nat, paddr: nat, size: nat, flags: Flags)
    | Unmap(d: nat, vaddr: nat, size: nat, freePhys: bool)
    | Copy(src: nat, cow: bool)
    | Fault(d: nat, vaddr: nat, code: nat)

  /** What a caller has to see to: maps are of 4K pages in the user half, frames to be freed are data
      frames mapped once, and addresses are canonical. */
  ghost predicate Callable(c: Request, a: Sys) {
    match c
    case Map(_, vaddr, _, size, flags) => !flags.large && vaddr + size <= 0x8000_0000_0000
    case Unmap(d, vaddr, size, freePhys) =>
      vaddr + size <= 0x1_0000_0000_0000 && (freePhys ==> OwnsPages(a, d, vaddr / 4096, PageCount(vaddr, size)))
    case Fault(_, vaddr, _) => vaddr < 0x1_0000_0000_0000
    case _ => true
  }

  /** A map request: pages are mapped up to the first that is mapped already, or for which no table frame is left. */
  ghost predicate Mapped(a: Sys, d: nat, v: nat, p: nat, n: nat, flags: Flags, r: Errno, b: Sys) {
    exists k | 0 <= k <= n ::
      && LayStep(a, d, v, p, k, flags, b)
      && match r
         case Ok => k == n
         case EEXIST => k < n && Has(a, d, v + k)
         case ENOMEM => k < n && !Has(a, d, v + k)
         case _ => false
  }

  ghost predicate CopiedTo(a: Sys, src: nat, cow: bool, b: Sys) {
    exists dst :: if cow then CopyStep(a, src, dst, b) else PlainCopyStep(a, src, dst, b)
  }

  /** A present page written to, and copy-on-write. */
  ghost predicate Resolvable(a: Sys, d: nat, v: nat, code: nat) {
    code % 2 == 1 && code / 8 % 2 == 0 && Has(a, d, v) && At(a, d, v).flags.cow
  }

  /** What a request does and answers; `refused` if the allocator had no frame for it. */
  ghost predicate Served(c: Request, a: Sys, r: Errno, refused: bool, b: Sys) {
    match c
    case Create => if refused then r == ENOMEM && b == a else r == Ok && exists d :: CreateStep(a, d, b)
    case Destroy(d) => r == Ok && !refused && DestroyStep(a, d, b)
    case Alloc => if refused then r == ENOMEM && b == a else r == Ok && exists f :: NewDataStep(a, f, b)
    case Map(d, vaddr, paddr, size, flags) =>
      && (refused <==> r == ENOMEM)
      && if d !in a.spaces || size == 0 then r == EINVAL && b == a
         else Mapped(a, d, vaddr / 4096, paddr / 4096, PageCount(vaddr, size), flags, r, b)
    case Unmap(d, vaddr, size, freePhys) =>
      && !refused
      && if d !in a.spaces || size == 0 then r == EINVAL && b == a
         else r == Ok && UnmapStep(a, d, vaddr / 4096, PageCount(vaddr, size), freePhys, b)
    case Copy(src, cow) =>
      if src !in a.spaces then r == EINVAL && !refused && b == a
      else if refused then r == ENOMEM && FailStep(a, b)
      else r == Ok && CopiedTo(a, src, cow, b)
    case Fault(d, vaddr, code) =>
      && (refused ==> Resolvable(a, d, vaddr / 4096, code))
      && if Resolvable(a, d, vaddr / 4096, code) && !refused then r == Ok && exists f :: MoveStep(a, d, vaddr / 4096, f, b)
         else r == (if d in a.spaces then EFAULT else EINVAL) && b == a
  }

  /** A request is carried out, or not made. */
  ghost predicate Carried(c: Request, a: Sys, r: Option<Errno>, refused: bool, b: Sys) {
    if Callable(c, a) then r.Some? && Served(c, a, r.value, refused, b) else r.None? && !refused && b == a
  }

  /** A whole run, state by state. */
  ghost predicate History(requests: seq<Request>, states: seq<Sys>, results: seq<Option<Errno>>, refusals: seq<bool>) {
    && |states| == |requests| + 1 && |results| == |refusals| == |requests|
    && forall i | 0 <= i < |requests| :: Carried(requests[i], states[i], results[i], refusals[i], states[i + 1])
  }

  lemma CarriedKeepsSane(c: Request, a: Sys, r: Option<Errno>, refused: bool, b: Sys)
    requires Sane(a) && Carried(c, a, r, refused, b)
    ensures Sane(b)
  {
    hide SaneSpace, LayStep, UnmapStep, CopyStep, PlainCopyStep, MoveStep;
    if Callable(c, a) && b != a {
      match c {
        case Map(d, vaddr, paddr, size, flags) =>
          var v, p, n := vaddr / 4096, paddr / 4096, PageCount(vaddr, size);
          var k :| 0 <= k <= n && LayStep(a, d, v, p, k, flags, b);
          LayKeepsSane(a, d, v, p, k, flags, b);
        case Unmap(d, vaddr, size, freePhys) =>
          UnmapKeepsSane(a, d, vaddr / 4096, PageCount(vaddr, size), freePhys, b);
        case Copy(src, cow) =>
          if CopiedTo(a, src, cow, b) {
            var dst :| if cow then CopyStep(a, src, dst, b) else PlainCopyStep(a, src, dst, b);
            if cow {
              CopyKeepsSane(a, src, dst, b);
            } else {
              PlainCopyKeepsSane(a, src, dst, b);
            }
          } else {
            SameKeepsSane(a, b);
          }
        case Fault(d, vaddr, _) =>
          var f :| MoveStep(a, d, vaddr / 4096, f, b);
          MoveKeepsSane(a, d, vaddr / 4096, f, b);
        case _ =>
          SameKeepsSane(a, b);
      }
    }
  }

  /** Every state of a run that starts sane is sane. */
  lemma HistoryKeepsSane(requests: seq<Request>, states: seq<Sys>, results: seq<Option<Errno>>, refusals: seq<bool>, i: nat)
    requires History(requests, states, results, refusals) && Sane(states[0]) && i <= |requests|
    ensures Sane(states[i])
  {
    hide Sane, Carried;
    if i > 0 {
      HistoryKeepsSane(requests, states, results, refusals, i - 1);
      CarriedKeepsSane(requests[i - 1], states[i - 1], results[i - 1], refusals[i - 1], states[i]);
    }
  }

  method MapInUser(s: PagingSystem, d: nat, vaddr: nat, paddr: nat, size: nat, flags: Flags) returns (r: Errno)
    requires s.Valid() && !flags.large && vaddr + size <= 0x8000_0000_0000
    modifies s
    ensures s.Valid() && Served(Request.Map(d, vaddr, paddr, size, flags), old(s.Abs()), r, r == ENOMEM, s.Abs())
    ensures s.refused == old(s.refused) + if r == ENOMEM then 1 else 0
    ensures r != ENOMEM ==> StaysLean(old(s.tables), old(s.pos), old(s.roots), s.tables, s.pos, s.roots)
  {
    hide LayStep, Spaces, Shape, MapProgress, RangeTables, Tallied, KeepsLean, StaysLean, LeanDir, PageCount, Walk, PageRun;
    SpacesKeys(s.tables, s.roots);
    ghost var k;
    r, k := s.MapMemoryRange(d, vaddr, paddr, size, flags);
    if r != ENOMEM {
      LeanStays(old(s.tables), old(s.pos), s.roots, s.tables, s.pos, s.roots);
    }
    ghost var v := vaddr / 4096;
    if r == EEXIST || r == ENOMEM {
      UserRange(vaddr, size);
      HasIsWalk(old(s.tables), s.roots, old(s.mapped), s.data, old(s.free), d, v + k);
    }
    if r != EINVAL {
      assert LayStep(old(s.Abs()), d, v, paddr / 4096, k, flags, s.Abs());
    }
  }

  lemma UserRange(vaddr: nat, size: nat)
    requires vaddr + size <= 0x8000_0000_0000
    ensures vaddr / 4096 + PageCount(vaddr, size) <= USER_PAGES < PAGES
  {
  }

  method UnmapRange(s: PagingSystem, d: nat, vaddr: nat, size: nat, freePhys: bool) returns (r: Errno)
    requires s.Valid() && Sane(s.Abs()) && Callable(Request.Unmap(d, vaddr, size, freePhys), s.Abs())
    modifies s
    ensures s.Valid() && Served(Request.Unmap(d, vaddr, size, freePhys), old(s.Abs()), r, false, s.Abs()) && s.refused == old(s.refused)
    ensures StaysLean(old(s.tables), old(s.pos), old(s.roots), s.tables, s.pos, s.roots)
  {
    hide Sane, UnmapStep, Spaces, Shape, FourK, Validates, AtLeafStart, OwnsFrames, OwnsPages, UnmapResult, UnmapTables,
         KeepsLean, StaysLean, LeanDir, LastEnd, PageCount;
    SpacesKeys(s.tables, s.roots);
    KeepsLeanSame(s.tables, s.pos, s.roots);
    if d in s.roots && size > 0 {
      SaneDirectory(s.tables, s.roots, s.mapped, s.data, s.free, d);
      OwnsIsOwns(s.tables, s.roots, s.mapped, s.data, s.free, d, vaddr / 4096, PageCount(vaddr, size));
      SmallLastEnd(s.tables, s.roots[d], vaddr / 4096, PageCount(vaddr, size));
    }
    ghost var done;
    r, done := s.UnmapMemoryRange(d, vaddr, size, freePhys);
    LeanStays(old(s.tables), old(s.pos), s.roots, s.tables, s.pos, s.roots);
  }

  lemma SmallLastEnd(h: Heap, root: nat, v: nat, n: nat)
    requires FourK(h, root) && 0 < n && v + n <= PAGES
    ensures LastEnd(h, root, v, n) == v + n
  {
    hide Walk;
  }

  method CopySpace(s: PagingSystem, src: nat, cow: bool) returns (r: Errno)
    requires s.Valid() && Sane(s.Abs())
    modifies s
    ensures s.Valid() && Served(Request.Copy(src, cow), old(s.Abs()), r, r == ENOMEM, s.Abs())
    ensures s.refused == old(s.refused) + if r == ENOMEM then 1 else 0
    ensures r != ENOMEM ==> StaysLean(old(s.tables), old(s.pos), old(s.roots), s.tables, s.pos, s.roots)
  {
    hide Sane, CopyStep, PlainCopyStep, Spaces, Shape, FourK, Validates, AtLeafStart, CopiedInto, KeepsLean, StaysLean, LeanDir;
    SpacesKeys(s.tables, s.roots);
    if src in s.roots {
      SaneDirectory(s.tables, s.roots, s.mapped, s.data, s.free, src);
    }
    var dst := s.CopyPageDirectory(src, cow);
    LeanStays(old(s.tables), old(s.pos), old(s.roots), s.tables, s.pos, s.roots);
    r := if dst.Some? then Ok else if src in s.roots then ENOMEM else EINVAL;
  }

  method ResolveFault(s: PagingSystem, d: nat, vaddr: nat, code: nat) returns (r: Errno, ghost refused: bool)
    requires s.Valid() && Sane(s.Abs()) && vaddr < 0x1_0000_0000_0000
    modifies s
    ensures s.Valid() && Served(Request.Fault(d, vaddr, code), old(s.Abs()), r, refused, s.Abs())
    ensures s.refused >= old(s.refused) && (refused <==> s.refused > old(s.refused))
    ensures StaysLean(old(s.tables), old(s.pos), old(s.roots), s.tables, s.pos, s.roots)
  {
    hide Sane, MoveStep, Spaces, Shape, FourK, Validates, KeepsLean, StaysLean, LeanDir, Walk;
    SpacesKeys(s.tables, s.roots);
    if d in s.roots {
      SaneDirectory(s.tables, s.roots, s.mapped, s.data, s.free, d);
      CowPage(s.tables, s.roots, s.mapped, s.data, s.free, d, vaddr / 4096);
    }
    r := s.HandlePageFault(d, vaddr, code);
    refused := s.refused > old(s.refused);
    LeanStays(old(s.tables), s.pos, s.roots, s.tables, s.pos, s.roots);
  }

  lemma CowPage(h: Heap, roots: map<nat, nat>, mapped: map<nat, nat>, data: map<nat, Page>, free: set<nat>, d: nat, v: nat)
    requires d in roots && v < PAGES && FourK(h, roots[d])
    ensures var s := View(h, roots, mapped, data, free);
            Has(s, d, v) && At(s, d, v).flags.cow <==> CowSmall(Walk(h, roots[d], 4, v))
  {
    hide Walk, Spaces;
    HasIsWalk(h, roots, mapped, data, free, d, v);
  }

  method CreateSpace(s: PagingSystem) returns (r: Errno)
    requires s.Valid()
    modifies s
    ensures s.Valid() && Served(Request.Create, old(s.Abs()), r, r == ENOMEM, s.Abs())
    ensures s.refused == old(s.refused) + if r == ENOMEM then 1 else 0
    ensures StaysLean(old(s.tables), old(s.pos), old(s.roots), s.tables, s.pos, s.roots)
  {
    hide Spaces, Shape, CreateStep, SameWalks, KeepsLean, StaysLean, LeanDir, WalksNowhere;
    var d;
    ghost var root;
    d, root := s.CreatePageDirectory();
    LeanStays(old(s.tables), old(s.pos), old(s.roots), s.tables, s.pos, s.roots);
    r := if d.Some? then Ok else ENOMEM;
  }

  method AllocFor(s: PagingSystem) returns (r: Errno)
    requires s.Valid()
    modifies s
    ensures s.Valid() && Served(Request.Alloc, old(s.Abs()), r, r == ENOMEM, s.Abs())
    ensures s.refused == old(s.refused) + if r == ENOMEM then 1 else 0
    ensures StaysLean(old(s.tables), old(s.pos), old(s.roots), s.tables, s.pos, s.roots)
  {
    hide Spaces, Shape, NewDataStep, KeepsLean, StaysLean, LeanDir;
    KeepsLeanSame(s.tables, s.pos, s.roots);
    LeanStays(s.tables, s.pos, s.roots, s.tables, s.pos, s.roots);
    var f := s.AllocData();
    r := if f.Some? then Ok else ENOMEM;
  }

  method DestroySpace(s: PagingSystem, d: nat)
    requires s.Valid()
    modifies s
    ensures s.Valid() && Served(Request.Destroy(d), old(s.Abs()), Ok, false, s.Abs()) && s.refused == old(s.refused)
    ensures StaysLean(old(s.tables), old(s.pos), old(s.roots), s.tables, s.pos, s.roots)
  {
    hide Spaces, Shape, DestroyStep, SameWalks, KeepsLean, StaysLean, LeanDir;
    s.DestroyPageDirectory(d);
    LeanStays(old(s.tables), old(s.pos), old(s.roots), s.tables, s.pos, s.roots);
  }

  /** One request; `None` if it may not be made. */
  method Perform(s: PagingSystem, c: Request) returns (r: Option<Errno>, ghost refused: bool)
    requires s.Valid() && Sane(s.Abs())
    modifies s
    ensures s.Valid() && Carried(c, old(s.Abs()), r, refused, s.Abs())
    ensures s.refused >= old(s.refused) && (refused <==> s.refused > old(s.refused))
    ensures !refused ==> StaysLean(old(s.tables), old(s.pos), old(s.roots), s.tables, s.pos, s.roots)
  {
    hide Sane, Served, OwnsPages, OwnsFrames, Spaces, Shape, KeepsLean, StaysLean, LeanDir;
    KeepsLeanSame(s.tables, s.pos, s.roots);
    LeanStays(s.tables, s.pos, s.roots, s.tables, s.pos, s.roots);
    SpacesKeys(s.tables, s.roots);
    var e := Ok;
    refused := false;
    match c {
      case Create =>
        e := CreateSpace(s);
        refused := e == ENOMEM;
      case Destroy(d) =>
        DestroySpace(s, d);
      case Alloc =>
        e := AllocFor(s);
        refused := e == ENOMEM;
      case Map(d, vaddr, paddr, size, flags) =>
        if flags.large || vaddr + size > 0x8000_0000_0000 {
          return None, false;
        }
        e := MapInUser(s, d, vaddr, paddr, size, flags);
        refused := e == ENOMEM;
      case Unmap(d, vaddr, size, freePhys) =>
        var owned := MayFree(s, d, vaddr, size, freePhys);
        if !owned {
          return None, false;
        }
        e := UnmapRange(s, d, vaddr, size, freePhys);
      case Copy(src, cow) =>
        e := CopySpace(s, src, cow);
        refused := e == ENOMEM;
      case Fault(d, vaddr, code) =>
        if vaddr >= 0x1_0000_0000_0000 {
          return None, false;
        }
        e, refused := ResolveFault(s, d, vaddr, code);
    }
    return Some(e), refused;
  }

  /** The caller's obligations for an unmap request, read off the tables. */
  method MayFree(s: PagingSystem, d: nat, vaddr: nat, size: nat, freePhys: bool) returns (ok: bool)
    requires s.Valid()
    ensures ok <==> Callable(Request.Unmap(d, vaddr, size, freePhys), s.Abs())
  {
    hide OwnsPages, OwnsFrames, Spaces, Shape, PageCount;
    SpacesKeys(s.tables, s.roots);
    if vaddr + size > 0x1_0000_0000_0000 || !freePhys {
      return vaddr + size <= 0x1_0000_0000_0000;
    }
    if d !in s.roots {
      NoPages(s.Abs(), d, vaddr / 4096, PageCount(vaddr, size));
      return true;
    }
    RangePages(vaddr, size);
    OwnsIsOwns(s.tables, s.roots, s.mapped, s.data, s.free, d, vaddr / 4096, PageCount(vaddr, size));
    return OwnsFrames(s.tables, s.roots[d], s.data.Keys, vaddr / 4096, vaddr / 4096 + PageCount(vaddr, size));
  }

  lemma NoPages(a: Sys, d: nat, v: nat, n: nat)
    requires d !in a.spaces
    ensures OwnsPages(a, d, v, n)
  {
  }

  lemma RangePages(vaddr: nat, size: nat)
    requires vaddr + size <= 0x1_0000_0000_0000
    ensures vaddr / 4096 + PageCount(vaddr, size) <= PAGES
  {
  }

  /** Every run of requests: each does what `Served` says; at the end every directory validates, and if
      no frame was refused none has an idle table. */
  method Session(s: PagingSystem, requests: seq<Request>)
    returns (results: seq<Option<Errno>>, ghost states: seq<Sys>, ghost refusals: seq<bool>)
    requires s.Valid() && Sane(s.Abs())
    modifies s
    ensures s.Valid() && Sane(s.Abs()) && History(requests, states, results, refusals)
    ensures states[0] == old(s.Abs()) && states[|requests|] == s.Abs()
    ensures forall d | d in s.roots :: FourK(s.tables, s.roots[d]) && Validates(s.tables, s.roots[d], s.mapped[d])
    ensures s.refused >= old(s.refused) && (true in refusals <==> s.refused > old(s.refused))
    ensures true !in refusals ==> StaysLean(old(s.tables), old(s.pos), old(s.roots), s.tables, s.pos, s.roots)
  {
    hide Sane, Carried, Spaces, Shape, FourK, Validates, AllLean;
    results, states, refusals := [], [s.Abs()], [];
    for i := 0 to |requests|
      invariant s.Valid() && Sane(s.Abs()) && History(requests[..i], states, results, refusals)
      invariant states[0] == old(s.Abs()) && states[i] == s.Abs()
      invariant s.refused >= old(s.refused) && (true in refusals <==> s.refused > old(s.refused))
      invariant true !in refusals ==> StaysLean(old(s.tables), old(s.pos), old(s.roots), s.tables, s.pos, s.roots)
    {
      ghost var a := s.Abs();
      var r;
      ghost var refused;
      r, refused := Perform(s, requests[i]);
      CarriedKeepsSane(requests[i], a, r, refused, s.Abs());
      HistoryThen(requests[..i], states, results, refusals, requests[i], r, refused, s.Abs());
      assert requests[..i + 1] == requests[..i] + [requests[i]];
      results, states, refusals := results + [r], states + [s.Abs()], refusals + [refused];
    }
    assert requests[..|requests|] == requests;
    forall d | d in s.roots ensures FourK(s.tables, s.roots[d]) && Validates(s.tables, s.roots[d], s.mapped[d]) {
      SaneDirectory(s.tables, s.roots, s.mapped, s.data, s.free, d);
    }
  }

  lemma HistoryThen(requests: seq<Request>, states: seq<Sys>, results: seq<Option<Errno>>, refusals: seq<bool>,
                    c: Request, r: Option<Errno>, refused: bool, b: Sys)
    requires History(requests, states, results, refusals) && Carried(c, states[|requests|], r, refused, b)
    ensures History(requests + [c], states + [b], results + [r], refusals + [refused])
  {
    hide Carried;
  }

  // ----- unmapping undoes mapping -----

  lemma LayThenUnmap(a: Sys, d: nat, v: nat, p: nat, n: nat, flags: Flags, b: Sys, c: Sys)
    requires Sane(a) && v + n <= USER_PAGES && LayStep(a, d, v, p, n, flags, b) && UnmapStep(b, d, v, n, false, c)
    ensures c.spaces == a.spaces && c.counts == a.counts && c.data == a.data
  {
    hide WrapAdd, WrapSub, SaneSpace, PageRun, Without, PagesIn, OwnedFrames, Within;
    RunBack(a.spaces[d], v, p, n, flags);
    SaneSize(a.spaces[d]);
    SpacesBack(a.spaces, b.spaces, c.spaces, d, v, p, n, flags);
    CountsBack(a.counts, b.counts, c.counts, d, n);
    NothingFreed(a.data);
  }

  lemma SpacesBack(m: map<nat, Space>, m1: map<nat, Space>, m2: map<nat, Space>, d: nat, v: nat, p: nat, n: nat, flags: Flags)
    requires d in m && m1 == m[d := m[d] + PageRun(v, p, n, flags)] && m2 == m1[d := Without(m1[d], v, n)]
    requires Without(m[d] + PageRun(v, p, n, flags), v, n) == m[d]
    ensures m2 == m
  {
    hide PageRun, Without;
  }

  lemma CountsBack(m: map<nat, nat>, m1: map<nat, nat>, m2: map<nat, nat>, d: nat, n: nat)
    requires d in m && m[d] + n < U64 && m1 == m[d := WrapAdd(m[d], n)] && m2 == m1[d := WrapSub(m1[d], n)]
    ensures m2 == m
  {
    hide WrapAdd, WrapSub;
    WrapSmall(m[d], n);
    WrapSmall(m[d] + n, n);
  }

  lemma RunBack(sp: Space, v: nat, p: nat, n: nat, flags: Flags)
    requires forall w: nat | Within(w, v, n) :: w !in sp
    ensures Without(sp + PageRun(v, p, n, flags), v, n) == sp && |PagesIn(sp + PageRun(v, p, n, flags), v, n)| == n
  {
    assert PagesIn(sp + PageRun(v, p, n, flags), v, n) == Frames(v, n);
    FramesCount(v, n);
  }

  lemma SaneSize(sp: Space)
    requires SaneSpace(sp)
    ensures |sp| + USER_PAGES < U64
  {
    SpaceBound(sp);
  }

  /** Free pages of a live directory, asked for within the caller's obligations. */
  ghost predicate Mappable(a: Sys, d: nat, vaddr: nat, size: nat, flags: Flags) {
    && !flags.large && vaddr + size <= 0x8000_0000_0000 && d in a.spaces && size > 0
    && forall w: nat | Within(w, vaddr / 4096, PageCount(vaddr, size)) :: w !in a.spaces[d]
  }

  /** A map request succeeds exactly on free pages with frames enough; anywhere in a run, unmapping its
      range next restores the address spaces, the counters and the data. */
  lemma RoundTripInHistory(requests: seq<Request>, states: seq<Sys>, results: seq<Option<Errno>>, refusals: seq<bool>, i: nat,
                           d: nat, vaddr: nat, paddr: nat, size: nat, flags: Flags)
    requires History(requests, states, results, refusals) && Sane(states[0]) && i + 1 < |requests|
    requires requests[i] == Request.Map(d, vaddr, paddr, size, flags) && requests[i + 1] == Request.Unmap(d, vaddr, size, false)
    ensures results[i] == Some(Ok) <==> Mappable(states[i], d, vaddr, size, flags) && !refusals[i]
    ensures var a, c := states[i], states[i + 2];
            results[i] == Some(Ok) ==> results[i + 1] == Some(Ok) && c.spaces == a.spaces && c.counts == a.counts && c.data == a.data
  {
    hide Sane, LayStep, UnmapStep, PageCount;
    var v, p, n := vaddr / 4096, paddr / 4096, PageCount(vaddr, size);
    var a, b, c := states[i], states[i + 1], states[i + 2];
    HistoryKeepsSane(requests, states, results, refusals, i);
    assert Carried(requests[i], a, results[i], refusals[i], b) && Carried(requests[i + 1], b, results[i + 1], refusals[i + 1], c);
    if Callable(requests[i], a) && d in a.spaces && size > 0 {
      UserRange(vaddr, size);
      var k :| 0 <= k <= n && LayStep(a, d, v, p, k, flags, b)
               && (results[i].value == Ok ==> k == n) && (results[i].value != Ok ==> k < n && (Has(a, d, v + k) <==> results[i].value == EEXIST));
      LayFacts(a, d, v, p, k, flags, b);
      if results[i] == Some(Ok) {
        LayThenUnmap(a, d, v, p, n, flags, b, c);
      }
    }
  }

  lemma LayFacts(a: Sys, d: nat, v: nat, p: nat, n: nat, flags: Flags, b: Sys)
    requires LayStep(a, d, v, p, n, flags, b)
    ensures b.spaces.Keys == a.spaces.Keys && forall w: nat | Within(w, v, n) :: w !in a.spaces[d]
  {
  }

  /** After any run from the start, mapping a range and unmapping it again restores the address spaces,
      the counters and the data; if no frame was refused before, the free frames too. */
  method RoundTripAfter(frames: set<nat>, requests: seq<Request>, d: nat, vaddr: nat, paddr: nat, size: nat, flags: Flags)
    returns (s: PagingSystem, results: seq<Option<Errno>>, r: Errno, ghost states: seq<Sys>, ghost refusals: seq<bool>, ghost refused: bool)
    requires vaddr + size <= 0x1_0000_0000_0000 && !flags.large
    ensures fresh(s) && s.Valid() && History(requests, states, results, refusals) && states[0] == Sys(map[], map[], map[], frames)
    ensures var a := states[|requests|];
            && (r == EINVAL <==> d !in a.spaces || size == 0)
            && (r == ENOMEM <==> refused)
            && (r == Ok <==> d in a.spaces && size > 0 && !refused &&
                             forall w: nat | Within(w, vaddr / 4096, PageCount(vaddr, size)) :: w !in a.spaces[d])
            && (r == Ok ==> s.Abs() == a.(free := s.free))
            && (r == Ok && true !in refusals ==> s.Abs() == a)
  {
    hide Sane, Carried, Spaces, Shape, LeanDir, TablesOf, SameWalks, Validates, Walk, FourK, NoLargeLeaf, PageCount, RangeFree;
    s := new PagingSystem(frames);
    SpacesOfNone();
    InvSane(s.Abs());
    results, states, refusals := Session(s, requests);
    ghost var tables, mapped, free := s.tables, s.mapped, s.free;
    ghost var before := s.refused;
    SpacesKeys(s.tables, s.roots);
    SmallOnly(flags, vaddr / 4096, paddr / 4096, PageCount(vaddr, size));
    r := MapThenUnmap(s, d, vaddr, paddr, size, flags);
    refused := s.refused != before;
    if d in s.roots {
      RangePages(vaddr, size);
      FreeIsFree(tables, s.roots, mapped, s.data, free, d, vaddr / 4096, PageCount(vaddr, size));
    }
    if r == Ok {
      SameSpaces(tables, s.tables, s.roots);
    }
  }

  lemma SameSpaces(h: Heap, h': Heap, roots: map<nat, nat>)
    requires SameWalks(h, h', roots)
    ensures Spaces(h', roots) == Spaces(h, roots)
  {
    hide Walk;
    forall d | d in roots ensures SpaceOf(h', roots[d]) == SpaceOf(h, roots[d]) {
    }
  }

  lemma FreeIsFree(h: Heap, roots: map<nat, nat>, mapped: map<nat, nat>, data: map<nat, Page>, free: set<nat>, d: nat, v: nat, n: nat)
    requires d in roots && v + n <= PAGES
    ensures d in Spaces(h, roots) && (RangeFree(h, roots[d], v, n) <==> forall w: nat | Within(w, v, n) :: w !in Spaces(h, roots)[d])
  {
    hide Walk, Spaces;
    SpacesKeys(h, roots);
    forall w: nat | Within(w, v, n) ensures w in Spaces(h, roots)[d] <==> Walk(h, roots[d], 4, w).Leaf? {
      HasIsWalk(h, roots, mapped, data, free, d, w);
    }
  }

  /** A request without the PAGE_SIZE flag makes no large leaf. */
  lemma SmallOnly(flags: Flags, v: nat, p: nat, n: nat)
    requires !flags.large
    ensures NoLargeLeaf(flags, v, p, n, n)
  {
  }
}
