/** Whole sessions with the page-directory code: what user programs see is what they would see if
    every address space had a memory of its own. */
module PagingSession {
  import opened Wrappers
  import opened PageForest
  import opened PagingSteps
  import opened AddressSpaces
  import opened CowModel
  import opened PagingBridge
  import opened PageCensus
  import opened Validation
  import opened Lean
  import opened PagingSystem
  import opened PagingLaws

  /** Requests to the kernel and accesses by user programs.  `Alloc` is a request for a data frame;
      `MapFresh` maps one user page to a data frame just allocated; `MapRange` maps a byte range of the
      user half to data frames that no directory maps; `Copy` is a copy-on-write copy.  Runs of requests
      over any frames are in module `TableSession`. */
  datatype Command =
    | Create
    | Destroy(d: nat)
    | Alloc
    | MapRange(d: nat, vaddr: nat, paddr: nat, size: nat, flags: Flags)
    | MapFresh(d: nat, v: nat, flags: Flags)
    | Unmap(d: nat, vaddr: nat, size: nat, freePhys: bool)
    | Copy(src: nat)
    | Load(d: nat, vaddr: nat)
    | Store(d: nat, vaddr: nat, value: bv8)

  /** The operations a command may come to; `Fail` when it is refused. */
  ghost predicate Fits(c: Command, ops: seq<Op>) {
    || ops == [Fail]
    || match c
       case Create => exists d :: ops == [Op.Create(d)]
       case Destroy(d) => ops == [Op.Destroy(d)]
       case Alloc => exists f :: ops == [NewData(f)]
       case MapRange(d, vaddr, paddr, size, flags) => exists n :: FitsRange(d, vaddr / 4096, paddr / 4096, PageCount(vaddr, size), flags, n, ops)
       case MapFresh(d, v, flags) => FitsMap(d, v, flags, ops)
       case Unmap(d, vaddr, size, freePhys) => ops == [Op.Unmap(d, vaddr / 4096, PageCount(vaddr, size), freePhys)]
       case Copy(src) => exists dst :: ops == [Op.Copy(src, dst)]
       case Load(d, vaddr) => exists value :: ops == [Read(d, vaddr / 4096, vaddr % 4096, value)]
       case Store(d, vaddr, value) => FitsStore(d, vaddr / 4096, vaddr % 4096, value, ops)
  }

  /** The first `k` of `n` pages are mapped. */
  ghost predicate FitsRange(d: nat, v: nat, p: nat, n: nat, flags: Flags, k: nat, ops: seq<Op>) {
    k <= n && exists contents :: ops == [Map(d, v, p, k, flags, contents)]
  }

  ghost predicate FitsMap(d: nat, v: nat, flags: Flags, ops: seq<Op>) {
    exists f, n, contents :: n <= 1 && ops == [NewData(f), Map(d, v, f, n, flags, contents)]
  }

  ghost predicate FitsStore(d: nat, v: nat, offset: nat, value: bv8, ops: seq<Op>) {
    ops == [Write(d, v, offset, value)] || exists f :: ops == [Fault(d, v, f), Write(d, v, offset, value)]
  }

  /** The command cannot be served in this state. */
  ghost predicate Excused(c: Command, a: Sys) {
    match c
    case Create => false
    case Destroy(_) => false
    case Alloc => false
    case MapRange(d, vaddr, paddr, size, flags) =>
      || flags.large || d !in a.spaces || size == 0 || vaddr + size > 0x8000_0000_0000
      || !Unclaimed(a, paddr / 4096, PageCount(vaddr, size))
    case MapFresh(d, v, flags) => flags.large || d !in a.spaces || v >= USER_PAGES
    case Unmap(d, vaddr, size, _) => d !in a.spaces || size == 0 || vaddr + size > 0x1_0000_0000_0000
    case Copy(src) => src !in a.spaces
    case Load(d, vaddr) => !Has(a, d, vaddr / 4096)
    case Store(d, vaddr, _) => !Storable(a, d, vaddr / 4096)
  }

  /** A map command stops early only at a page mapped before or for want of a frame. */
  ghost predicate CutShort(c: Command, a: Sys, ops: seq<Op>, refused: bool) {
    match c
    case MapRange(d, vaddr, _, size, _) =>
      ops != [] && ops[0].Map? && ops[0].n < PageCount(vaddr, size) ==> Has(a, d, vaddr / 4096 + ops[0].n) || refused
    case MapFresh(d, v, _) => |ops| == 2 && ops[1].Map? && ops[1].n < 1 ==> Has(a, d, v) || refused
    case _ => true
  }

  /** A command has led from `a` to `b`; it was refused only if it could not be served or, `refused`, the
      allocator had no frame for it. */
  ghost predicate Carried(c: Command, a: Sys, ops: seq<Op>, refused: bool, b: Sys) {
    && Fits(c, ops) && Leads(a, ops, b) && CutShort(c, a, ops, refused)
    && (Excused(c, a) ==> ops == [Fail])
    && (ops == [Fail] ==> Excused(c, a) || refused)
  }

  /** The data frames from `p` on are behind no page. */
  ghost predicate Unclaimed(a: Sys, p: nat, n: nat) {
    && (forall f: nat | Within(f, p, n) :: f in a.data)
    && (forall d, v | Has(a, d, v) :: !Within(At(a, d, v).frame, p, n))
  }

  /** The same, read off the tables. */
  predicate Available(h: Heap, roots: map<nat, nat>, data: map<nat, Page>, p: nat, n: nat) {
    && (forall f: nat | p <= f < p + n :: f in data)
    && (forall d | d in roots :: forall w: nat | w < PAGES && Walk(h, roots[d], 4, w).Leaf? ::
          !Within(PageOf(Walk(h, roots[d], 4, w), w).frame, p, n))
  }

  lemma AvailableIs(h: Heap, roots: map<nat, nat>, mapped: map<nat, nat>, data: map<nat, Page>, free: set<nat>, p: nat, n: nat)
    ensures Available(h, roots, data, p, n) <==> Unclaimed(View(h, roots, mapped, data, free), p, n)
  {
    hide Walk, PageOf, Spaces;
    var a := View(h, roots, mapped, data, free);
    SpacesKeys(h, roots);
    forall d, v: nat | d in roots
      ensures Has(a, d, v) <==> v < PAGES && Walk(h, roots[d], 4, v).Leaf?
      ensures Has(a, d, v) ==> At(a, d, v) == PageOf(Walk(h, roots[d], 4, v), v)
    {
      HasIsWalk(h, roots, mapped, data, free, d, v);
    }
  }

  /** A run from `a` to `b`. */
  ghost predicate Leads(a: Sys, ops: seq<Op>, b: Sys) {
    exists ss :: Run(ss, ops) && ss[0] == a && ss[|ops|] == b
  }

  lemma LeadsOne(a: Sys, op: Op, b: Sys)
    requires Step(a, op, b)
    ensures Leads(a, [op], b)
  {
    var ss, ops := [a, b], [op];
    assert Run(ss, ops);
  }

  lemma LeadsTwo(a: Sys, op: Op, b: Sys, op': Op, c: Sys)
    requires Step(a, op, b) && Step(b, op', c)
    ensures Leads(a, [op, op'], c)
  {
    var ss, ops := [a, b, c], [op, op'];
    assert Run(ss, ops);
  }

  lemma LeadsKeeps(a: Sys, ops: seq<Op>, b: Sys, m: Memory)
    requires Leads(a, ops, b) && CowInv(a) && Shows(a, m)
    ensures CowInv(b) && Shows(b, ApplyAll(m, ops))
    ensures ops != [] ==> ReadsOf(m, ops[0])
  {
    hide CowInv, Step, Shows, ReadsOf, Apply;
    var ss :| Run(ss, ops) && ss[0] == a && ss[|ops|] == b;
    RunKeeps(ss, ops, |ops|);
    CowRefinesEagerCopy(ss, ops, m, |ops|);
    assert ops[..|ops|] == ops && ops[..0] == [];
    CowRefinesEagerCopy(ss, ops, m, 0);
  }

  lemma ExcusedCarried(c: Command, a: Sys)
    requires CowInv(a) && Excused(c, a)
    ensures Carried(c, a, [Fail], false, a)
  {
    hide CowInv, Leads;
    Refused(a);
  }

  lemma RefusedCarried(c: Command, a: Sys)
    requires CowInv(a)
    ensures Carried(c, a, [Fail], true, a)
  {
    hide CowInv, Leads, Excused;
    Refused(a);
  }

  lemma Refused(a: Sys)
    requires CowInv(a)
    ensures Leads(a, [Fail], a)
  {
    hide GoodPages, SharedAreCow, Counted;
    LeadsOne(a, Fail, a);
  }

  /** A frame just handed out may be mapped at a free page. */
  lemma FreshCanMap(a: Sys, f: nat, b: Sys, d: nat, v: nat, n: nat, flags: Flags)
    requires CowInv(a) && NewDataStep(a, f, b) && d in a.spaces && v < USER_PAGES && n <= 1 && !flags.large
    requires n == 1 ==> v !in a.spaces[d]
    ensures CanMap(b, d, v, f, n, flags)
  {
    forall d', v' | Has(b, d', v') ensures !Within(At(b, d', v').frame, f, n) {
      assert Has(a, d', v') && GoodPage(a, d', v');
    }
  }

  /** Pages that were free may be mapped to frames behind no page. */
  lemma RangeCanMap(h: Heap, h': Heap, roots: map<nat, nat>, mapped: map<nat, nat>, data: map<nat, Page>, free: set<nat>,
                    d: nat, v: nat, p: nat, n: nat, flags: Flags, r: Errno, done: nat)
    requires d in roots && v + n <= USER_PAGES && !flags.large && MapResult(h, h', roots, d, v, p, n, flags, r, done)
    requires Unclaimed(View(h, roots, mapped, data, free), p, n)
    ensures done <= n && CanMap(View(h, roots, mapped, data, free), d, v, p, done, flags)
    ensures done < n ==> r == ENOMEM || Has(View(h, roots, mapped, data, free), d, v + done)
  {
    hide Walk, Spaces, Installed, PageOf, SmallAreNew;
    var a := View(h, roots, mapped, data, free);
    SpacesKeys(h, roots);
    forall w: nat | Within(w, v, done) ensures w !in a.spaces[d] {
      HasIsWalk(h, roots, mapped, data, free, d, w);
    }
    if done < n {
      HasIsWalk(h, roots, mapped, data, free, d, v + done);
    }
  }

  /** What a load of the given byte shows on private memories. */
  ghost function LookUp(m: Memory, d: nat, vaddr: nat): Option<bv8> {
    if d in m && vaddr / 4096 in m[d] && vaddr % 4096 < |m[d][vaddr / 4096]| then Some(m[d][vaddr / 4096][vaddr % 4096]) else None
  }

  method MapRangeOf(s: PagingSystem, d: nat, vaddr: nat, paddr: nat, size: nat, flags: Flags) returns (ghost ops: seq<Op>)
    requires s.Valid() && CowInv(s.Abs()) && d in s.roots && 0 < size && vaddr + size <= 0x8000_0000_0000 && !flags.large
    requires Unclaimed(s.Abs(), paddr / 4096, PageCount(vaddr, size))
    modifies s
    ensures s.Valid()
    ensures Carried(MapRange(d, vaddr, paddr, size, flags), old(s.Abs()), ops, s.refused > old(s.refused), s.Abs())
    ensures s.refused == old(s.refused) ==> StaysLean(old(s.tables), old(s.pos), old(s.roots), s.tables, s.pos, s.roots)
    ensures s.refused >= old(s.refused)
  {
    hide CowInv, LayStep, CanMap, Leads, Spaces, Shape, MapResult, RangeTables, Tallied, Unclaimed, KeepsLean, StaysLean, LeanDir,
         Has, PageCount, Carried, RunContents, PageRun;
    ghost var a := s.Abs();
    var r;
    ghost var k;
    SpacesKeys(s.tables, s.roots);
    RangeBytes(vaddr, size);
    ghost var tables, free := s.tables, s.free;
    r, k := s.MapMemoryRange(d, vaddr, paddr, size, flags);
    ghost var v, p := vaddr / 4096, paddr / 4096;
    RangeCanMap(tables, s.tables, s.roots, old(s.mapped), s.data, free, d, v, p, PageCount(vaddr, size), flags, r, k);
    ops := RangeLeads(a, s.Abs(), d, vaddr, paddr, size, flags, k, r == ENOMEM);
    if r != ENOMEM {
      LeanStays(old(s.tables), old(s.pos), s.roots, s.tables, s.pos, s.roots);
    }
  }

  lemma RangeLeads(a: Sys, b: Sys, d: nat, vaddr: nat, paddr: nat, size: nat, flags: Flags, k: nat, refused: bool) returns (ops: seq<Op>)
    requires var v, p, n := vaddr / 4096, paddr / 4096, PageCount(vaddr, size);
             MapStep(a, d, v, p, k, flags, b) && k <= n && (k < n ==> refused || Has(a, d, v + k))
    requires !Excused(MapRange(d, vaddr, paddr, size, flags), a)
    ensures Carried(MapRange(d, vaddr, paddr, size, flags), a, ops, refused, b)
  {
    hide Leads, MapStep, Has, PageCount, Excused;
    var v, p := vaddr / 4096, paddr / 4096;
    ops := [Map(d, v, p, k, flags, RunContents(a.data, v, p, k))];
    LeadsOne(a, ops[0], b);
    assert FitsRange(d, v, p, PageCount(vaddr, size), flags, k, ops);
  }

  lemma RangeBytes(vaddr: nat, size: nat)
    requires vaddr + size <= 0x8000_0000_0000
    ensures vaddr / 4096 + PageCount(vaddr, size) <= USER_PAGES && vaddr + size <= 0x1_0000_0000_0000
  {
  }

  method MapFreshPage(s: PagingSystem, d: nat, v: nat, flags: Flags) returns (ghost ops: seq<Op>)
    requires s.Valid() && CowInv(s.Abs()) && d in s.roots && v < USER_PAGES && !flags.large
    modifies s
    ensures s.Valid() && Carried(MapFresh(d, v, flags), old(s.Abs()), ops, s.refused > old(s.refused), s.Abs())
    ensures s.refused == old(s.refused) ==> StaysLean(old(s.tables), old(s.pos), old(s.roots), s.tables, s.pos, s.roots)
    ensures s.refused >= old(s.refused)
  {
    hide CowInv, LayStep, NewDataStep, CanMap, Carried, Spaces, Shape, MapResult, RangeTables, Tallied, Walk, KeepsLean, StaysLean,
         LeanDir, PageRun, OthersLean;
    ghost var a := s.Abs();
    SpacesKeys(s.tables, s.roots);
    var f := s.AllocData();
    if f.None? {
      RefusedCarried(MapFresh(d, v, flags), a);
      return [Fail];
    }
    ghost var b, tables := s.Abs(), s.tables;
    PageBytes(v);
    PageBytes(f.value);
    HasIsWalk(s.tables, s.roots, s.mapped, s.data, s.free, d, v);
    var r;
    ghost var done;
    r, done := s.MapMemoryRange(d, v * 4096, f.value * 4096, 4096, flags);
    OnePage(tables, s.tables, s.roots, d, v, f.value, flags, r, done);
    SpacesKept(a, f.value, b, d, v);
    FreshCanMap(a, f.value, b, d, v, done, flags);
    ops := FreshLeads(a, f.value, b, d, v, flags, done, r == ENOMEM, s.Abs());
    if r != ENOMEM {
      LeanStays(old(s.tables), old(s.pos), s.roots, s.tables, s.pos, s.roots);
    }
  }

  lemma FreshLeads(a: Sys, f: nat, b: Sys, d: nat, v: nat, flags: Flags, n: nat, refused: bool, c: Sys) returns (ops: seq<Op>)
    requires NewDataStep(a, f, b) && MapStep(b, d, v, f, n, flags, c) && n <= 1 && (n < 1 ==> refused || Has(a, d, v))
    requires !flags.large && d in a.spaces && v < USER_PAGES
    ensures Carried(MapFresh(d, v, flags), a, ops, refused, c)
  {
    hide Leads, NewDataStep, MapStep, Has;
    ops := [NewData(f), Map(d, v, f, n, flags, RunContents(b.data, v, f, n))];
    LeadsTwo(a, ops[0], b, ops[1], c);
    assert FitsMap(d, v, flags, ops);
  }

  lemma PageBytes(v: nat)
    ensures v * 4096 / 4096 == v && PageCount(v * 4096, 4096) == 1
  {
  }

  lemma OnePage(h: Heap, h': Heap, roots: map<nat, nat>, d: nat, v: nat, p: nat, flags: Flags, r: Errno, done: nat)
    requires d in roots && MapResult(h, h', roots, d, v, p, 1, flags, r, done) && !flags.large
    ensures done <= 1 && (done == 1 ==> Walk(h, roots[d], 4, v).NoLeaf?)
    ensures done == 0 && r != ENOMEM ==> Walk(h, roots[d], 4, v).Leaf?
  {
    hide Walk, Installed;
  }

  lemma SpacesKept(a: Sys, f: nat, b: Sys, d: nat, v: nat)
    requires NewDataStep(a, f, b)
    ensures a.spaces == b.spaces && (Has(a, d, v) <==> Has(b, d, v))
  {
  }

  method StoreTo(s: PagingSystem, d: nat, vaddr: nat, value: bv8) returns (ghost ops: seq<Op>)
    requires s.Valid() && CowInv(s.Abs()) && d in s.roots && vaddr < 0x1_0000_0000_0000
    modifies s
    ensures s.Valid() && Carried(Store(d, vaddr, value), old(s.Abs()), ops, s.refused > old(s.refused), s.Abs())
    ensures s.refused == old(s.refused) ==> StaysLean(old(s.tables), old(s.pos), old(s.roots), s.tables, s.pos, s.roots)
    ensures s.refused >= old(s.refused)
  {
    hide CowInv, WriteStep, FaultStep, Leads, Spaces, Shape, Storable, KeepsLean, StaysLean, LeanDir;
    ghost var a := s.Abs();
    var ok := s.StoreByte(d, vaddr, value);
    LeanStays(old(s.tables), old(s.pos), s.roots, s.tables, s.pos, s.roots);
    ghost var v, offset := vaddr / 4096, vaddr % 4096;
    if !ok {
      if Storable(a, d, v) {
        RefusedCarried(Store(d, vaddr, value), a);
      } else {
        ExcusedCarried(Store(d, vaddr, value), a);
      }
      return [Fail];
    }
    if WriteStep(a, d, v, offset, value, s.Abs()) {
      LeadsOne(a, Write(d, v, offset, value), s.Abs());
      ops := [Write(d, v, offset, value)];
    } else {
      ghost var b, f :| FaultStep(a, d, v, f, b) && WriteStep(b, d, v, offset, value, s.Abs());
      LeadsTwo(a, Fault(d, v, f), b, Write(d, v, offset, value), s.Abs());
      ops := [Fault(d, v, f), Write(d, v, offset, value)];
    }
  }

  method LoadFrom(s: PagingSystem, d: nat, vaddr: nat) returns (r: Option<bv8>, ghost ops: seq<Op>)
    requires s.Valid() && CowInv(s.Abs()) && d in s.roots && vaddr < 0x1_0000_0000_0000
    ensures Carried(Load(d, vaddr), s.Abs(), ops, false, s.Abs())
    ensures ops == if r.Some? then [Read(d, vaddr / 4096, vaddr % 4096, r.value)] else [Fail]
    ensures r.Some? <==> Has(s.Abs(), d, vaddr / 4096)
  {
    hide CowInv, ReadStep, Leads, Spaces, Shape, Has;
    r := s.LoadByte(d, vaddr);
    if r.None? {
      Refused(s.Abs());
      return r, [Fail];
    }
    LeadsOne(s.Abs(), Read(d, vaddr / 4096, vaddr % 4096, r.value), s.Abs());
    return r, [Read(d, vaddr / 4096, vaddr % 4096, r.value)];
  }

  method UnmapFrom(s: PagingSystem, d: nat, vaddr: nat, size: nat, freePhys: bool) returns (ghost ops: seq<Op>)
    requires s.Valid() && CowInv(s.Abs()) && vaddr + size <= 0x1_0000_0000_0000
    modifies s
    ensures s.Valid() && Carried(Command.Unmap(d, vaddr, size, freePhys), old(s.Abs()), ops, s.refused > old(s.refused), s.Abs())
    ensures s.refused == old(s.refused) ==> StaysLean(old(s.tables), old(s.pos), old(s.roots), s.tables, s.pos, s.roots)
    ensures s.refused >= old(s.refused)
  {
    hide CowInv, UnmapStep, Carried, Spaces, Shape, FourK, AtLeafStart, OwnsFrames, FramesAreData, UnmapResult, UnmapTables, KeepsLean,
         StaysLean, LeanDir, LastEnd, OthersLean, Without, PageCount;
    ghost var a := s.Abs();
    SpacesKeys(s.tables, s.roots);
    KeepsLeanSame(s.tables, s.pos, s.roots);
    LeanStays(s.tables, s.pos, s.roots, s.tables, s.pos, s.roots);
    if d !in s.roots || size == 0 {
      ExcusedCarried(Command.Unmap(d, vaddr, size, freePhys), a);
      return [Fail];
    }
    InvFourK(s.tables, s.roots, s.mapped, s.data, s.free, d);
    InvOwns(s.tables, s.roots, s.mapped, s.data, s.free, d, vaddr / 4096,
            LastEnd(s.tables, s.roots[d], vaddr / 4096, PageCount(vaddr, size)));
    var r;
    ghost var done;
    r, done := s.UnmapMemoryRange(d, vaddr, size, freePhys);
    ops := UnmapLeads(a, d, vaddr, size, freePhys, s.Abs());
    LeanStays(old(s.tables), old(s.pos), s.roots, s.tables, s.pos, s.roots);
  }

  lemma UnmapLeads(a: Sys, d: nat, vaddr: nat, size: nat, freePhys: bool, b: Sys) returns (ops: seq<Op>)
    requires d in a.spaces && size > 0 && vaddr + size <= 0x1_0000_0000_0000
    requires UnmapStep(a, d, vaddr / 4096, PageCount(vaddr, size), freePhys, b)
    ensures Carried(Command.Unmap(d, vaddr, size, freePhys), a, ops, false, b)
  {
    hide Leads, UnmapStep, PageCount;
    ops := [Op.Unmap(d, vaddr / 4096, PageCount(vaddr, size), freePhys)];
    LeadsOne(a, ops[0], b);
  }

  method CopyFrom(s: PagingSystem, src: nat) returns (ghost ops: seq<Op>)
    requires s.Valid() && CowInv(s.Abs())
    modifies s
    ensures s.Valid() && Carried(Command.Copy(src), old(s.Abs()), ops, s.refused > old(s.refused), s.Abs())
    ensures s.refused == old(s.refused) ==> StaysLean(old(s.tables), old(s.pos), old(s.roots), s.tables, s.pos, s.roots)
    ensures s.refused >= old(s.refused)
  {
    hide CowInv, CopyStep, Leads, Spaces, Shape, FourK, AtLeafStart, FramesAreData, CopiedInto, KeepsLean, StaysLean, LeanDir;
    ghost var a := s.Abs();
    SpacesKeys(s.tables, s.roots);
    if src in s.roots {
      InvFourK(s.tables, s.roots, s.mapped, s.data, s.free, src);
    }
    var r := s.CopyPageDirectory(src, true);
    ops := if r.Some? then [Op.Copy(src, r.value)] else [Fail];
    LeadsOne(a, ops[0], s.Abs());
    LeanStays(old(s.tables), old(s.pos), old(s.roots), s.tables, s.pos, s.roots);
  }

  method CreateOne(s: PagingSystem) returns (ghost ops: seq<Op>)
    requires s.Valid() && CowInv(s.Abs())
    modifies s
    ensures s.Valid() && Carried(Command.Create, old(s.Abs()), ops, s.refused > old(s.refused), s.Abs())
    ensures s.refused == old(s.refused) ==> StaysLean(old(s.tables), old(s.pos), old(s.roots), s.tables, s.pos, s.roots)
    ensures s.refused >= old(s.refused)
  {
    hide CowInv, Leads, Spaces, Shape, CreateStep, SameWalks, KeepsLean, StaysLean, LeanDir, WalksNowhere;
    ghost var a := s.Abs();
    var d;
    ghost var root;
    d, root := s.CreatePageDirectory();
    LeanStays(old(s.tables), old(s.pos), old(s.roots), s.tables, s.pos, s.roots);
    if d.Some? {
      ops := [Op.Create(d.value)];
      LeadsOne(a, ops[0], s.Abs());
    } else {
      Refused(a);
      ops := [Fail];
    }
  }

  method DestroyOne(s: PagingSystem, d: nat) returns (ghost ops: seq<Op>)
    requires s.Valid() && CowInv(s.Abs())
    modifies s
    ensures s.Valid() && Carried(Command.Destroy(d), old(s.Abs()), ops, s.refused > old(s.refused), s.Abs())
    ensures s.refused == old(s.refused) ==> StaysLean(old(s.tables), old(s.pos), old(s.roots), s.tables, s.pos, s.roots)
    ensures s.refused >= old(s.refused)
  {
    hide CowInv, Leads, Spaces, Shape, DestroyStep, SameWalks, KeepsLean, StaysLean, LeanDir;
    ghost var a := s.Abs();
    s.DestroyPageDirectory(d);
    LeanStays(old(s.tables), old(s.pos), old(s.roots), s.tables, s.pos, s.roots);
    ops := [Op.Destroy(d)];
    LeadsOne(a, ops[0], s.Abs());
  }

  method AllocOne(s: PagingSystem) returns (ghost ops: seq<Op>)
    requires s.Valid() && CowInv(s.Abs())
    modifies s
    ensures s.Valid() && Carried(Alloc, old(s.Abs()), ops, s.refused > old(s.refused), s.Abs())
    ensures s.refused == old(s.refused) ==> StaysLean(old(s.tables), old(s.pos), old(s.roots), s.tables, s.pos, s.roots)
    ensures s.refused >= old(s.refused)
  {
    hide CowInv, Leads, Spaces, Shape, NewDataStep, StaysLean, LeanDir, KeepsLean;
    ghost var a := s.Abs();
    KeepsLeanSame(s.tables, s.pos, s.roots);
    LeanStays(s.tables, s.pos, s.roots, s.tables, s.pos, s.roots);
    var f := s.AllocData();
    if f.Some? {
      ops := [NewData(f.value)];
      LeadsOne(a, ops[0], s.Abs());
    } else {
      Refused(a);
      ops := [Fail];
    }
  }

  /** One command. */
  method Execute(s: PagingSystem, c: Command) returns (r: Option<bv8>, ghost ops: seq<Op>)
    requires s.Valid() && CowInv(s.Abs())
    modifies s
    ensures s.Valid() && Carried(c, old(s.Abs()), ops, s.refused > old(s.refused), s.Abs())
    ensures r.Some? ==> c.Load? && ops == [Read(c.d, c.vaddr / 4096, c.vaddr % 4096, r.value)]
    ensures c.Load? && r.None? ==> !Has(old(s.Abs()), c.d, c.vaddr / 4096)
    ensures s.refused == old(s.refused) ==> StaysLean(old(s.tables), old(s.pos), old(s.roots), s.tables, s.pos, s.roots)
    ensures s.refused >= old(s.refused)
  {
    hide CowInv, Carried, Spaces, Shape, StaysLean, Unclaimed, Available, LeanDir, KeepsLean, PageCount;
    ghost var a := s.Abs();
    r := None;
    SpacesKeys(s.tables, s.roots);
    KeepsLeanSame(s.tables, s.pos, s.roots);
    LeanStays(s.tables, s.pos, s.roots, s.tables, s.pos, s.roots);
    ops := [Fail];
    match c {
      case Create =>
        ops := CreateOne(s);
      case Destroy(d) =>
        ops := DestroyOne(s, d);
      case Alloc =>
        ops := AllocOne(s);
      case MapRange(d, vaddr, paddr, size, flags) =>
        AvailableIs(s.tables, s.roots, s.mapped, s.data, s.free, paddr / 4096, PageCount(vaddr, size));
        if !flags.large && d in s.roots && 0 < size && vaddr + size <= 0x8000_0000_0000
           && Available(s.tables, s.roots, s.data, paddr / 4096, PageCount(vaddr, size)) {
          ops := MapRangeOf(s, d, vaddr, paddr, size, flags);
        } else {
          ExcusedCarried(c, a);
        }
      case MapFresh(d, v, flags) =>
        if !flags.large && d in s.roots && v < USER_PAGES {
          ops := MapFreshPage(s, d, v, flags);
        } else {
          ExcusedCarried(c, a);
        }
      case Unmap(d, vaddr, size, freePhys) =>
        if vaddr + size <= 0x1_0000_0000_0000 {
          ops := UnmapFrom(s, d, vaddr, size, freePhys);
        } else {
          ExcusedCarried(c, a);
        }
      case Copy(src) =>
        ops := CopyFrom(s, src);
      case Load(d, vaddr) =>
        if d in s.roots && vaddr < 0x1_0000_0000_0000 {
          r, ops := LoadFrom(s, d, vaddr);
        } else {
          NotThere(s.tables, s.roots, s.mapped, s.data, s.free, d, vaddr / 4096);
          ExcusedCarried(c, a);
        }
      case Store(d, vaddr, value) =>
        if d in s.roots && vaddr < 0x1_0000_0000_0000 {
          ops := StoreTo(s, d, vaddr, value);
        } else {
          NotThere(s.tables, s.roots, s.mapped, s.data, s.free, d, vaddr / 4096);
          ExcusedCarried(c, a);
        }
    }
  }

  lemma NotThere(h: Heap, roots: map<nat, nat>, mapped: map<nat, nat>, data: map<nat, Page>, free: set<nat>, d: nat, v: nat)
    requires d !in roots || v >= PAGES
    ensures !Has(View(h, roots, mapped, data, free), d, v)
  {
    if d in roots {
      HasIsWalk(h, roots, mapped, data, free, d, v);
    }
  }

  /** The private memories after the commands carried out so far. */
  ghost function MemoryAfter(m: Memory, trace: seq<seq<Op>>): Memory {
    if trace == [] then m else ApplyAll(MemoryAfter(m, trace[..|trace| - 1]), trace[|trace| - 1])
  }

  /** What a command answers on private memories. */
  ghost function Answer(c: Command, m: Memory): Option<bv8> {
    match c
    case Load(d, vaddr) => LookUp(m, d, vaddr)
    case _ => None
  }

  lemma Answered(a: Sys, m: Memory, c: Command, ops: seq<Op>, b: Sys, r: Option<bv8>)
    requires CowInv(a) && Shows(a, m) && Leads(a, ops, b)
    requires r.Some? ==> c.Load? && ops == [Read(c.d, c.vaddr / 4096, c.vaddr % 4096, r.value)]
    requires c.Load? && r.None? ==> !Has(a, c.d, c.vaddr / 4096)
    ensures r == Answer(c, m)
  {
    hide CowInv, Leads, ApplyAll;
    LeadsKeeps(a, ops, b, m);
  }

  /** A whole session, state by state. */
  ghost predicate History(commands: seq<Command>, states: seq<Sys>, trace: seq<seq<Op>>, refusals: seq<bool>) {
    && |states| == |commands| + 1 && |trace| == |refusals| == |commands|
    && forall i | 0 <= i < |commands| :: Carried(commands[i], states[i], trace[i], refusals[i], states[i + 1])
  }

  lemma HistoryThen(commands: seq<Command>, states: seq<Sys>, trace: seq<seq<Op>>, refusals: seq<bool>,
                    c: Command, ops: seq<Op>, refused: bool, b: Sys)
    requires History(commands, states, trace, refusals) && Carried(c, states[|commands|], ops, refused, b)
    ensures History(commands + [c], states + [b], trace + [ops], refusals + [refused])
  {
    hide Carried;
  }

  /** Every session of requests, loads and stores: the page tables stay a forest and every directory
      validates; every load returns what it would return if each address space had a memory of its own
      and each copy had duplicated every page. */
  method Session(s: PagingSystem, commands: seq<Command>, ghost m: Memory)
    returns (answers: seq<Option<bv8>>, ghost states: seq<Sys>, ghost trace: seq<seq<Op>>, ghost refusals: seq<bool>)
    requires s.Valid() && CowInv(s.Abs()) && Shows(s.Abs(), m)
    modifies s
    ensures s.Valid() && CowInv(s.Abs()) && Shows(s.Abs(), MemoryAfter(m, trace))
    ensures History(commands, states, trace, refusals) && states[0] == old(s.Abs()) && states[|commands|] == s.Abs()
    ensures |answers| == |commands|
    ensures forall i | 0 <= i < |commands| :: answers[i] == Answer(commands[i], MemoryAfter(m, trace[..i]))
    ensures forall d | d in s.roots :: Validates(s.tables, s.roots[d], s.mapped[d])
    ensures s.refused >= old(s.refused) && (true in refusals <==> s.refused > old(s.refused))
    ensures true !in refusals && old(AllLean(s.tables, s.pos, s.roots)) ==> AllLean(s.tables, s.pos, s.roots)
  {
    hide CowInv, Leads, Spaces, Shape, Fits, CutShort, Excused, Answer, Shows, Validates, ApplyAll, AllLean;
    answers, states, trace, refusals := [], [s.Abs()], [], [];
    for i := 0 to |commands|
      invariant s.Valid() && CowInv(s.Abs()) && Shows(s.Abs(), MemoryAfter(m, trace)) && |answers| == i
      invariant History(commands[..i], states, trace, refusals) && states[0] == old(s.Abs()) && states[i] == s.Abs()
      invariant forall j | 0 <= j < i :: answers[j] == Answer(commands[j], MemoryAfter(m, trace[..j]))
      invariant s.refused >= old(s.refused) && (true in refusals <==> s.refused > old(s.refused))
      invariant true !in refusals && old(AllLean(s.tables, s.pos, s.roots)) ==> AllLean(s.tables, s.pos, s.roots)
    {
      ghost var before := s.refused;
      ghost var a, now := s.Abs(), MemoryAfter(m, trace);
      var r;
      ghost var ops;
      r, ops := Execute(s, commands[i]);
      Answered(a, now, commands[i], ops, s.Abs(), r);
      LeadsKeeps(a, ops, s.Abs(), now);
      MemoryThen(m, trace, ops);
      HistoryThen(commands[..i], states, trace, refusals, commands[i], ops, s.refused > before, s.Abs());
      assert commands[..i + 1] == commands[..i] + [commands[i]];
      answers, states, trace, refusals := answers + [r], states + [s.Abs()], trace + [ops], refusals + [s.refused > before];
    }
    assert commands[..|commands|] == commands;
    forall d | d in s.roots ensures Validates(s.tables, s.roots[d], s.mapped[d]) {
      InvValidates(s.tables, s.roots, s.mapped, s.data, s.free, d);
    }
  }

  lemma MemoryThen(m: Memory, trace: seq<seq<Op>>, ops: seq<Op>)
    ensures MemoryAfter(m, trace + [ops]) == ApplyAll(MemoryAfter(m, trace), ops)
    ensures forall j | 0 <= j <= |trace| :: (trace + [ops])[..j] == trace[..j]
  {
    assert (trace + [ops])[..|trace|] == trace;
  }
}
