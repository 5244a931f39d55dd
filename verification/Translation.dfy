/** Byte addresses: the table walk written out level by level, and what requests do to it. */
module Translation {
  import opened Wrappers
  import opened PageForest
  import opened PagingSteps
  import opened AddressSpaces

  function Slot(h: Heap, f: nat, i: nat): Entry
    requires i < 512
  {
    if f in h then h[f][i] else NO_ENTRY
  }

  /** The entry that translates a byte address, with the number of bytes it covers. */
  function Resolve(h: Heap, pml4: nat, vaddr: nat): (r: Option<(Entry, nat)>)
    ensures r.Some? ==> r.value.0.flags.present && r.value.1 > 0
  {
    var e4 := Slot(h, pml4, vaddr / 0x80_0000_0000 % 512);
    if !e4.flags.present then None
    else
      var e3 := Slot(h, e4.frame, vaddr / 0x4000_0000 % 512);
      if !e3.flags.present then None
      else if e3.flags.large then Some((e3, 0x4000_0000))
      else
        var e2 := Slot(h, e3.frame, vaddr / 0x20_0000 % 512);
        if !e2.flags.present then None
        else if e2.flags.large then Some((e2, 0x20_0000))
        else
          var e1 := Slot(h, e2.frame, vaddr / 0x1000 % 512);
          if !e1.flags.present then None else Some((e1, 0x1000))
  }

  /** `get_physical_address` */
  function GetPhysicalAddress(h: Heap, pml4: nat, vaddr: nat): (r: Option<nat>) {
    match Resolve(h, pml4, vaddr)
    case None => None
    case Some((e, size)) => Some(e.frame * 0x1000 + vaddr % size)
  }

  /** The flags of the entry that translates a byte address. */
  function FlagsOf(h: Heap, pml4: nat, vaddr: nat): Option<Flags> {
    match Resolve(h, pml4, vaddr)
    case None => None
    case Some((e, _)) => Some(e.flags)
  }

  lemma Quotient(x: nat, d: nat, z: nat)
    requires d > 0 && d * z <= x < d * (z + 1)
    ensures x / d == z
  {
    var q := x / d;
    assert d * q <= x < d * (q + 1);
    Multiples(d, q + 1, z);
    Multiples(d, z + 1, q);
  }

  lemma Multiples(d: nat, a: nat, b: nat)
    ensures a <= b ==> d * a <= d * b
  {
  }

  lemma Indices(vaddr: nat)
    ensures vaddr / 0x1000 % 512 == Index(vaddr / 4096, 1) && vaddr / 0x20_0000 % 512 == Index(vaddr / 4096, 2)
    ensures vaddr / 0x4000_0000 % 512 == Index(vaddr / 4096, 3) && vaddr / 0x80_0000_0000 % 512 == Index(vaddr / 4096, 4)
  {
    var v := vaddr / 4096;
    assert Up(v, 1) == v / 512 && Up(v, 2) == Up(v, 1) / 512 && Up(v, 3) == Up(v, 2) / 512;
    Quotient(vaddr, 0x20_0000, v / 512);
    Quotient(vaddr, 0x4000_0000, v / 512 / 512);
    Quotient(vaddr, 0x80_0000_0000, v / 512 / 512 / 512);
  }

  lemma WalkStep(h: Heap, f: nat, level: nat, v: nat)
    requires 1 <= level <= 4
    ensures var e := Slot(h, f, Index(v, level));
            Walk(h, f, level, v) == if IsTablePtr(e, level) then Walk(h, e.frame, level - 1, v) else LeafOf(e, level)
  {
  }

  /** The walk written out is the walk. */
  lemma ResolveIsWalk(h: Heap, pml4: nat, vaddr: nat)
    ensures Resolve(h, pml4, vaddr) ==
            match Walk(h, pml4, 4, vaddr / 4096)
            case NoLeaf => None
            case Leaf(level, e) => Some((e, Span(level) * 4096))
    ensures Walk(h, pml4, 4, vaddr / 4096).Leaf? ==> 1 <= Walk(h, pml4, 4, vaddr / 4096).level <= 3
  {
    hide Walk, Index;
    var v := vaddr / 4096;
    Indices(vaddr);
    WalkStep(h, pml4, 4, v);
    var e4 := Slot(h, pml4, Index(v, 4));
    WalkStep(h, e4.frame, 3, v);
    var e3 := Slot(h, e4.frame, Index(v, 3));
    WalkStep(h, e3.frame, 2, v);
    var e2 := Slot(h, e3.frame, Index(v, 2));
    WalkStep(h, e2.frame, 1, v);
  }

  lemma Offset(vaddr: nat, level: nat)
    requires 1 <= level <= 3
    ensures vaddr % (Span(level) * 4096) == Low(vaddr / 4096, level) * 4096 + vaddr % 4096
  {
    if level == 2 {
      assert vaddr % 0x20_0000 == vaddr / 4096 % 512 * 4096 + vaddr % 4096;
    } else if level == 3 {
      assert vaddr % 0x4000_0000 == vaddr / 4096 % 262144 * 4096 + vaddr % 4096;
    }
  }

  /** Address and flags, from the page's translation. */
  lemma FromWalk(h: Heap, pml4: nat, vaddr: nat)
    ensures var leaf := Walk(h, pml4, 4, vaddr / 4096);
            if leaf.NoLeaf? then GetPhysicalAddress(h, pml4, vaddr) == None && FlagsOf(h, pml4, vaddr) == None
            else var e := PageOf(leaf, vaddr / 4096);
                 GetPhysicalAddress(h, pml4, vaddr) == Some(e.frame * 4096 + vaddr % 4096) && FlagsOf(h, pml4, vaddr) == Some(e.flags)
  {
    hide Walk, Resolve, Low;
    ResolveIsWalk(h, pml4, vaddr);
    var leaf := Walk(h, pml4, 4, vaddr / 4096);
    if leaf.Leaf? {
      Offset(vaddr, leaf.level);
    }
  }

  /** A leaf of `bytes` bytes is asked for, both addresses are multiples of it, and so much is left. */
  predicate HasRoom(flags: Flags, v: nat, p: nat, left: nat, bytes: nat)
    requires bytes > 0
  {
    flags.large && v * 4096 % bytes == 0 && p * 4096 % bytes == 0 && bytes <= left * 4096
  }

  lemma LevelInBytes(flags: Flags, v: nat, p: nat, left: nat)
    ensures LeafLevel(flags, v, p, left) ==
            if HasRoom(flags, v, p, left, 0x4000_0000) then 3 else if HasRoom(flags, v, p, left, 0x20_0000) then 2 else 1
  {
    PagesInBytes(v);
    PagesInBytes(p);
  }

  lemma PagesInBytes(x: nat)
    ensures x * 0x1000 % 0x20_0000 == x % 512 * 0x1000 && x * 0x1000 % 0x4000_0000 == x % 262144 * 0x1000
  {
    assert x * 0x1000 == 0x20_0000 * (x / 512) + x % 512 * 0x1000;
    assert x * 0x1000 == 0x4000_0000 * (x / 262144) + x % 262144 * 0x1000;
  }

  // ----- the pages of a byte range -----

  predicate InPage(b: nat, w: nat) {
    b / 4096 == w
  }

  /** A request for a byte range is about exactly the pages in which some byte of the range lies. */
  lemma PagesTouched(vaddr: nat, size: nat, w: nat)
    requires size > 0
    ensures vaddr / 4096 <= w < vaddr / 4096 + PageCount(vaddr, size) <==> exists b: nat | vaddr <= b < vaddr + size :: InPage(b, w)
  {
    LastPage(vaddr, size);
    if vaddr / 4096 <= w <= (vaddr + size - 1) / 4096 {
      var b := if w == vaddr / 4096 then vaddr else w * 4096;
      assert InPage(b, w);
    }
  }

  lemma LastPage(vaddr: nat, size: nat)
    requires size > 0
    ensures vaddr / 4096 + PageCount(vaddr, size) == (vaddr + size - 1) / 4096 + 1
  {
  }

  /** Every byte of the range is translated to its place in the physical range, with the flags asked for. */
  ghost predicate RangeMapped(h: Heap, pml4: nat, vaddr: nat, paddr: nat, size: nat, flags: Flags) {
    forall b: nat | vaddr <= b < vaddr + size ::
      && GetPhysicalAddress(h, pml4, b) == Some(paddr - paddr % 4096 + (b - (vaddr - vaddr % 4096)))
      && FlagsOf(h, pml4, b) == Some(Flags(true, flags.writable, flags.user, flags.large, false, flags.rest))
  }

  /** No byte of the range is mapped. */
  ghost predicate RangeUnmapped(h: Heap, pml4: nat, vaddr: nat, size: nat) {
    forall b: nat | vaddr <= b < vaddr + size :: GetPhysicalAddress(h, pml4, b) == None
  }

  /** Addresses of other directories, and those in pages without a byte of the range, are translated as before. */
  ghost predicate KeptOutside(h: Heap, h': Heap, roots: map<nat, nat>, d: nat, vaddr: nat, size: nat) {
    forall e, b: nat |
      && e in roots && b < 0x1_0000_0000_0000
      && (e == d ==> b / 4096 < vaddr / 4096 || b / 4096 > (vaddr + size - 1) / 4096) ::
      && GetPhysicalAddress(h', roots[e], b) == GetPhysicalAddress(h, roots[e], b)
      && FlagsOf(h', roots[e], b) == FlagsOf(h, roots[e], b)
  }

  lemma SameBytes(h: Heap, h': Heap, root: nat, root': nat, b: nat)
    requires Walk(h', root', 4, b / 4096) == Walk(h, root, 4, b / 4096)
    ensures GetPhysicalAddress(h', root', b) == GetPhysicalAddress(h, root, b) && FlagsOf(h', root', b) == FlagsOf(h, root, b)
  {
    hide Walk, GetPhysicalAddress, FlagsOf, PageOf;
    FromWalk(h, root, b);
    FromWalk(h', root', b);
  }

  lemma InstalledByte(h: Heap, h': Heap, roots: map<nat, nat>, d: nat, vaddr: nat, paddr: nat, size: nat, k: nat, flags: Flags, b: nat)
    requires d in roots && vaddr <= b < vaddr + size && vaddr + size <= 0x1_0000_0000_0000 && k == PageCount(vaddr, size)
    requires Installed(h, h', roots, d, vaddr / 4096, paddr / 4096, k, flags)
    ensures GetPhysicalAddress(h', roots[d], b) == Some(paddr - paddr % 4096 + (b - (vaddr - vaddr % 4096)))
    ensures FlagsOf(h', roots[d], b) == Some(Flags(true, flags.writable, flags.user, flags.large, false, flags.rest))
  {
    hide Walk, GetPhysicalAddress, FlagsOf, PageCount, Low;
    var v, p, w := vaddr / 4096, paddr / 4096, b / 4096;
    LastPage(vaddr, size);
    assert LeafInside(Walk(h', roots[d], 4, w), w, v, p, k, flags);
    FromWalk(h', roots[d], b);
    assert (p + (w - v)) * 4096 + b % 4096 == paddr - paddr % 4096 + (b - (vaddr - vaddr % 4096));
  }

  /** Mapping, on bytes: `k` pages of the range are done. */
  lemma InstalledBytes(h: Heap, h': Heap, roots: map<nat, nat>, d: nat, vaddr: nat, paddr: nat, size: nat, k: nat, flags: Flags)
    requires d in roots && size > 0 && vaddr + size <= 0x1_0000_0000_0000 && k <= PageCount(vaddr, size)
    requires Installed(h, h', roots, d, vaddr / 4096, paddr / 4096, k, flags)
    ensures KeptOutside(h, h', roots, d, vaddr, size)
    ensures k == PageCount(vaddr, size) ==> RangeMapped(h', roots[d], vaddr, paddr, size, flags)
  {
    hide Walk, GetPhysicalAddress, FlagsOf, PageCount;
    LastPage(vaddr, size);
    forall e, b: nat |
      && e in roots && b < 0x1_0000_0000_0000
      && (e == d ==> b / 4096 < vaddr / 4096 || b / 4096 > (vaddr + size - 1) / 4096)
      ensures GetPhysicalAddress(h', roots[e], b) == GetPhysicalAddress(h, roots[e], b)
      ensures FlagsOf(h', roots[e], b) == FlagsOf(h, roots[e], b)
    {
      assert Walk(h', roots[e], 4, b / 4096) == Walk(h, roots[e], 4, b / 4096);
      SameBytes(h, h', roots[e], roots[e], b);
    }
    if k == PageCount(vaddr, size) {
      forall b: nat | vaddr <= b < vaddr + size
        ensures GetPhysicalAddress(h', roots[d], b) == Some(paddr - paddr % 4096 + (b - (vaddr - vaddr % 4096)))
        ensures FlagsOf(h', roots[d], b) == Some(Flags(true, flags.writable, flags.user, flags.large, false, flags.rest))
      {
        InstalledByte(h, h', roots, d, vaddr, paddr, size, k, flags, b);
      }
    }
  }

  /** Unmapping, on bytes: at least the pages of the range are cleared. */
  lemma ClearedBytes(h: Heap, h': Heap, roots: map<nat, nat>, d: nat, vaddr: nat, size: nat, k: nat)
    requires d in roots && size > 0 && vaddr + size <= 0x1_0000_0000_0000 && PageCount(vaddr, size) <= k
    requires Cleared(h, h', roots, d, vaddr / 4096, k)
    ensures RangeUnmapped(h', roots[d], vaddr, size)
    ensures k == PageCount(vaddr, size) ==> KeptOutside(h, h', roots, d, vaddr, size)
  {
    hide Walk, GetPhysicalAddress, FlagsOf, PageCount;
    LastPage(vaddr, size);
    forall b: nat | vaddr <= b < vaddr + size ensures GetPhysicalAddress(h', roots[d], b) == None {
      assert Walk(h', roots[d], 4, b / 4096).NoLeaf?;
      FromWalk(h', roots[d], b);
    }
    if k == PageCount(vaddr, size) {
      forall e, b: nat |
        && e in roots && b < 0x1_0000_0000_0000
        && (e == d ==> b / 4096 < vaddr / 4096 || b / 4096 > (vaddr + size - 1) / 4096)
        ensures GetPhysicalAddress(h', roots[e], b) == GetPhysicalAddress(h, roots[e], b)
        ensures FlagsOf(h', roots[e], b) == FlagsOf(h, roots[e], b)
      {
        assert Walk(h', roots[e], 4, b / 4096) == Walk(h, roots[e], 4, b / 4096);
        SameBytes(h, h', roots[e], roots[e], b);
      }
    }
  }

  // ----- the user half: addresses below 2^47 -----

  /** The user half of a directory has been copied into an empty one. */
  ghost predicate UserHalfCopied(h: Heap, src: nat, h': Heap, dst: nat) {
    forall b: nat | b < 0x1_0000_0000_0000 ::
      && GetPhysicalAddress(h', dst, b) == (if b < 0x8000_0000_0000 then GetPhysicalAddress(h, src, b) else None)
      && FlagsOf(h', dst, b) == (if b < 0x8000_0000_0000 then FlagsOf(h, src, b) else None)
  }

  /** The flags of a user page that is to become copy-on-write. */
  function Guarded(f: Option<Flags>, cow: bool): Option<Flags> {
    match f
    case None => None
    case Some(f) => Some(if cow then Flags(f.present, false, f.user, f.large, true, f.rest) else f)
  }

  /** The user half of a directory has become copy-on-write: no address has moved, no user page is writable. */
  ghost predicate UserHalfMarked(h: Heap, root: nat, h': Heap, root': nat) {
    forall b: nat | b < 0x1_0000_0000_0000 ::
      && GetPhysicalAddress(h', root', b) == GetPhysicalAddress(h, root, b)
      && FlagsOf(h', root', b) == Guarded(FlagsOf(h, root, b), b < 0x8000_0000_0000)
  }

  /** Directory `dst` has become a copy of `src`; with `cow`, neither may write to a page of the user half any more. */
  ghost predicate CopySeen(h: Heap, src: nat, h': Heap, src': nat, dst: nat, cow: bool) {
    forall b: nat | b < 0x1_0000_0000_0000 ::
      && GetPhysicalAddress(h', src', b) == GetPhysicalAddress(h, src, b)
      && FlagsOf(h', src', b) == Guarded(FlagsOf(h, src, b), cow && b < 0x8000_0000_0000)
      && GetPhysicalAddress(h', dst, b) == (if b < 0x8000_0000_0000 then GetPhysicalAddress(h, src, b) else None)
      && FlagsOf(h', dst, b) == (if b < 0x8000_0000_0000 then Guarded(FlagsOf(h, src, b), cow) else None)
  }

  lemma FromSpace(h: Heap, root: nat, b: nat)
    requires b < 0x1_0000_0000_0000
    ensures var sp, v := SpaceOf(h, root), b / 4096;
            && GetPhysicalAddress(h, root, b) == (if v in sp then Some(sp[v].frame * 4096 + b % 4096) else None)
            && FlagsOf(h, root, b) == (if v in sp then Some(sp[v].flags) else None)
  {
    hide Walk, GetPhysicalAddress, FlagsOf, PageOf;
    FromWalk(h, root, b);
  }

  lemma CopiedSeen(h: Heap, src: nat, h': Heap, src': nat, dst: nat, cow: bool)
    requires var sp := SpaceOf(h, src);
             && SpaceOf(h', src') == (if cow then CowSpace(sp) else sp)
             && SpaceOf(h', dst) == (if cow then CowSpace(UserPart(sp)) else UserPart(sp))
    ensures CopySeen(h, src, h', src', dst, cow)
  {
    hide Walk, GetPhysicalAddress, FlagsOf, SpaceOf;
    forall b: nat | b < 0x1_0000_0000_0000
      ensures GetPhysicalAddress(h', src', b) == GetPhysicalAddress(h, src, b)
      ensures FlagsOf(h', src', b) == Guarded(FlagsOf(h, src, b), cow && b < 0x8000_0000_0000)
      ensures GetPhysicalAddress(h', dst, b) == (if b < 0x8000_0000_0000 then GetPhysicalAddress(h, src, b) else None)
      ensures FlagsOf(h', dst, b) == (if b < 0x8000_0000_0000 then Guarded(FlagsOf(h, src, b), cow) else None)
    {
      FromSpace(h, src, b);
      FromSpace(h', src', b);
      FromSpace(h', dst, b);
    }
  }

  lemma CopiedBytes(h: Heap, h': Heap, roots: map<nat, nat>, src: nat, dst: nat)
    requires src in roots && dst in roots && Copied(h, h', roots, src, dst, USER_PAGES)
    ensures UserHalfCopied(h, roots[src], h', roots[dst])
  {
    hide Walk, GetPhysicalAddress, FlagsOf;
    forall b: nat | b < 0x1_0000_0000_0000
      ensures GetPhysicalAddress(h', roots[dst], b) == (if b < 0x8000_0000_0000 then GetPhysicalAddress(h, roots[src], b) else None)
      ensures FlagsOf(h', roots[dst], b) == (if b < 0x8000_0000_0000 then FlagsOf(h, roots[src], b) else None)
    {
      assert Walk(h', roots[dst], 4, b / 4096) == if b < 0x8000_0000_0000 then Walk(h, roots[src], 4, b / 4096) else NoLeaf;
      if b < 0x8000_0000_0000 {
        SameBytes(h, h', roots[src], roots[dst], b);
      } else {
        FromWalk(h', roots[dst], b);
      }
    }
  }

  lemma MarkedBytes(h: Heap, h': Heap, roots: map<nat, nat>, d: nat)
    requires d in roots && Marked(h, h', roots, d, USER_PAGES)
    ensures UserHalfMarked(h, roots[d], h', roots[d])
  {
    hide Walk, GetPhysicalAddress, FlagsOf, FourK;
    forall b: nat | b < 0x1_0000_0000_0000
      ensures GetPhysicalAddress(h', roots[d], b) == GetPhysicalAddress(h, roots[d], b)
      ensures FlagsOf(h', roots[d], b) == Guarded(FlagsOf(h, roots[d], b), b < 0x8000_0000_0000)
    {
      var leaf := Walk(h, roots[d], 4, b / 4096);
      assert Walk(h', roots[d], 4, b / 4096) == if b < 0x8000_0000_0000 then CowLeaf(leaf) else leaf;
      FromWalk(h, roots[d], b);
      FromWalk(h', roots[d], b);
    }
  }
}
