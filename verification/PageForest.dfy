/** The four-level page-table heap: table frames, their entries, the hardware walk, and the
    shape every heap keeps.  Addresses are page numbers (byte address / 4096) throughout. */
module PageForest {
  import opened Wrappers

  /** The low twelve bits of an entry.  `rest` is the set of the other bits that are on; no
      operation looks at them. */
  datatype Flags = Flags(present: bool, writable: bool, user: bool, large: bool, cow: bool, rest: set<nat>)

  /** One 64-bit entry: a page-aligned physical address, kept as its frame number, and the flags. */
  datatype Entry = Entry(frame: nat, flags: Flags)

  const NO_FLAGS := Flags(false, false, false, false, false, {})
  const NO_ENTRY := Entry(0, NO_FLAGS)

  type Table = t: seq<Entry> | |t| == 512 witness seq(512, _ => NO_ENTRY)

  /** A zeroed frame, as `alloc_pages` with ALLOC_ZERO hands it out. */
  function EmptyTable(): (t: Table)
    ensures forall i | 0 <= i < 512 :: t[i] == NO_ENTRY
  {
    seq(512, _ => NO_ENTRY)
  }

  type Heap = map<nat, Table>

  /** Number of 4K pages in the 48-bit virtual address space. */
  const PAGES: nat := 68719476736

  /** Page number `v` with its lowest `level` nine-bit index groups removed. */
  function Up(v: nat, level: nat): nat {
    if level == 0 then v else Up(v, level - 1) / 512
  }

  /** The index `v` uses in a table of the given level (1 = PT, 2 = PD, 3 = PDPT, 4 = PML4). */
  function Index(v: nat, level: nat): nat
    requires level >= 1
    ensures Index(v, level) < 512
  {
    Up(v, level - 1) % 512
  }

  /** Page offset of `v` inside a leaf of the given level. */
  function Low(v: nat, level: nat): nat {
    if level == 2 then v % 512 else if level == 3 then v % 262144 else 0
  }

  /** Number of 4K pages a leaf of the given level covers. */
  function Span(level: nat): nat {
    if level == 3 then 262144 else if level == 2 then 512 else 1
  }

  predicate IsTablePtr(e: Entry, level: nat) {
    e.flags.present && level >= 2 && (level == 4 || !e.flags.large)
  }

  predicate IsLeaf(e: Entry, level: nat) {
    e.flags.present && (level == 1 || ((level == 2 || level == 3) && e.flags.large))
  }

  datatype Leaf = NoLeaf | Leaf(level: nat, entry: Entry)

  function LeafOf(e: Entry, level: nat): Leaf {
    if IsLeaf(e, level) then Leaf(level, e) else NoLeaf
  }

  /** The walk from table `f` of the given level. */
  function Walk(h: Heap, f: nat, level: nat, v: nat): Leaf
    decreases level
  {
    if level == 0 || f !in h then NoLeaf
    else
      var e := h[f][Index(v, level)];
      if IsTablePtr(e, level) then Walk(h, e.frame, level - 1, v)
      else LeafOf(e, level)
  }

  /** What page `v` is translated to: the leaf entry with the frame of this very page. */
  function PageOf(leaf: Leaf, v: nat): Entry
    requires leaf.Leaf?
  {
    Entry(leaf.entry.frame + Low(v, leaf.level), leaf.entry.flags)
  }

  type Space = map<nat, Entry>

  /** All pages reachable from a PML4 table, each with its translation and flags. */
  function SpaceOf(h: Heap, root: nat): Space {
    map v: nat | v < PAGES && Walk(h, root, 4, v).Leaf? :: PageOf(Walk(h, root, 4, v), v)
  }

  // ----- shape of the heap -----

  /** Where a table hangs: the directory that owns it, its level, the address prefix it serves
      and the table holding the one entry that points to it. */
  datatype Pos = Pos(dir: nat, level: nat, base: nat, parent: nat)

  ghost predicate Linked(h: Heap, pos: map<nat, Pos>, f: nat, i: nat)
    requires f in h && f in pos && i < 512
  {
    IsTablePtr(h[f][i], pos[f].level) ==>
      var c := h[f][i].frame;
      c in h && c in pos && pos[c] == Pos(pos[f].dir, pos[f].level - 1, pos[f].base * 512 + i, f)
  }

  ghost predicate Forest(h: Heap, pos: map<nat, Pos>) {
    && h.Keys == pos.Keys
    && (forall f | f in h :: 1 <= pos[f].level <= 4)
    && (forall f, i: nat | f in h && i < 512 :: Linked(h, pos, f, i))
    && (forall f, i: nat | f in h && i < 512 && pos[f].level == 4 :: !h[f][i].flags.large)
  }

  /** Every live directory has a PML4 table of its own, and there are no other PML4 tables. */
  ghost predicate Rooted(h: Heap, pos: map<nat, Pos>, roots: map<nat, nat>) {
    && (forall d | d in roots :: roots[d] in h && roots[d] in pos && pos[roots[d]] == Pos(d, 4, 0, roots[d]))
    && (forall f | f in h && f in pos && pos[f].level == 4 :: pos[f].dir in roots && roots[pos[f].dir] == f)
  }

  ghost predicate Shape(h: Heap, pos: map<nat, Pos>, roots: map<nat, nat>) {
    Forest(h, pos) && Rooted(h, pos, roots)
  }

  /** No table frame is referenced from two slots, and no slot refers to a freed table. */
  lemma OneSlotPerTable(h: Heap, pos: map<nat, Pos>, f: nat, i: nat, g: nat, j: nat)
    requires Forest(h, pos)
    requires f in h && g in h && i < 512 && j < 512
    requires IsTablePtr(h[f][i], pos[f].level) && IsTablePtr(h[g][j], pos[g].level)
    ensures h[f][i].frame in h
    ensures h[f][i].frame == h[g][j].frame ==> f == g && i == j
  {
    assert Linked(h, pos, f, i) && Linked(h, pos, g, j);
  }

  // ----- walks and slot updates -----

  /** The table of the given level that the walk for `v` passes through, if it gets that far. */
  function TableAt(h: Heap, root: nat, level: nat, v: nat): (t: Option<nat>)
    decreases 4 - level
  {
    if level >= 4 then Some(root)
    else
      match TableAt(h, root, level + 1, v)
      case None => None
      case Some(g) =>
        if g in h && IsTablePtr(h[g][Index(v, level + 1)], level + 1)
        then Some(h[g][Index(v, level + 1)].frame) else None
  }

  lemma {:induction false} UpTop(v: nat)
    requires v < PAGES
    ensures Up(v, 4) == 0
  {
    assert Up(v, 1) == v / 512;
    assert Up(v, 2) == v / 512 / 512;
    assert Up(v, 3) == v / 512 / 512 / 512;
  }

  /** Walking from the root is walking from any table on the way. */
  lemma {:induction false} WalkFromTable(h: Heap, root: nat, level: nat, v: nat)
    requires 1 <= level <= 4
    requires TableAt(h, root, level, v).Some?
    ensures Walk(h, root, 4, v) == Walk(h, TableAt(h, root, level, v).value, level, v)
    decreases 4 - level
  {
    if level < 4 {
      WalkFromTable(h, root, level + 1, v);
    }
  }

  /** The walk ends at the first slot that is no table pointer. */
  lemma WalkEnds(h: Heap, root: nat, level: nat, v: nat)
    requires 1 <= level <= 4
    requires TableAt(h, root, level, v).Some? && TableAt(h, root, level, v).value in h
    ensures var e := h[TableAt(h, root, level, v).value][Index(v, level)];
            !IsTablePtr(e, level) ==> Walk(h, root, 4, v) == LeafOf(e, level)
  {
    WalkFromTable(h, root, level, v);
  }

  /** Tables on the way hang where the address says. */
  lemma {:induction false} TableAtPos(h: Heap, pos: map<nat, Pos>, d: nat, root: nat, level: nat, v: nat)
    requires Forest(h, pos) && root in h && pos[root] == Pos(d, 4, 0, root)
    requires v < PAGES && 1 <= level <= 4
    requires TableAt(h, root, level, v).Some?
    ensures var f := TableAt(h, root, level, v).value;
            f in h && pos[f].dir == d && pos[f].level == level && pos[f].base == Up(v, level)
    decreases 4 - level
  {
    if level == 4 {
      UpTop(v);
    } else {
      TableAtPos(h, pos, d, root, level + 1, v);
      var g := TableAt(h, root, level + 1, v).value;
      assert Linked(h, pos, g, Index(v, level + 1));
    }
  }

  lemma {:induction false} UpEqual(v: nat, w: nat, lo: nat, hi: nat)
    requires lo <= hi && Up(v, lo) == Up(w, lo)
    ensures Up(v, hi) == Up(w, hi)
    decreases hi - lo
  {
    if lo < hi {
      UpEqual(v, w, lo, hi - 1);
    }
  }

  /** Pages with the same prefix pass through the same tables. */
  lemma {:induction false} TableAtPrefix(h: Heap, root: nat, level: nat, v: nat, w: nat)
    requires 1 <= level <= 4
    requires Up(v, level) == Up(w, level)
    ensures TableAt(h, root, level, v) == TableAt(h, root, level, w)
    decreases 4 - level
  {
    if level < 4 {
      TableAtPrefix(h, root, level + 1, v, w);
    }
  }

  /** `h'` has kept every slot that the walk for `v` in directory `d` can read above level `lo`. */
  ghost predicate Agree(h: Heap, pos: map<nat, Pos>, h': Heap, d: nat, v: nat, lo: nat)
    requires Forest(h, pos)
  {
    forall g | g in h && pos[g].dir == d && pos[g].level > lo && pos[g].base == Up(v, pos[g].level) ::
      g in h' && h'[g][Index(v, pos[g].level)] == h[g][Index(v, pos[g].level)]
  }

  lemma {:induction false} TableAtAgree(h: Heap, pos: map<nat, Pos>, h': Heap, d: nat, root: nat, level: nat, v: nat)
    requires Forest(h, pos) && root in h && pos[root] == Pos(d, 4, 0, root)
    requires v < PAGES && 1 <= level <= 4
    requires Agree(h, pos, h', d, v, level)
    ensures TableAt(h', root, level, v) == TableAt(h, root, level, v)
    decreases 4 - level
  {
    if level < 4 {
      TableAtAgree(h, pos, h', d, root, level + 1, v);
      if TableAt(h, root, level + 1, v).Some? {
        TableAtPos(h, pos, d, root, level + 1, v);
      }
    }
  }

  lemma {:induction false} WalkAgreeBelow(h: Heap, pos: map<nat, Pos>, h': Heap, f: nat, v: nat)
    requires Forest(h, pos) && f in h
    requires pos[f].base == Up(v, pos[f].level)
    requires Agree(h, pos, h', pos[f].dir, v, 0)
    ensures Walk(h', f, pos[f].level, v) == Walk(h, f, pos[f].level, v)
    decreases pos[f].level
  {
    var i := Index(v, pos[f].level);
    if IsTablePtr(h[f][i], pos[f].level) {
      assert Linked(h, pos, f, i);
      WalkAgreeBelow(h, pos, h', h[f][i].frame, v);
    }
  }

  lemma WalkAgree(h: Heap, pos: map<nat, Pos>, h': Heap, d: nat, root: nat, v: nat)
    requires Forest(h, pos) && root in h && pos[root] == Pos(d, 4, 0, root)
    requires v < PAGES
    requires Agree(h, pos, h', d, v, 0)
    ensures Walk(h', root, 4, v) == Walk(h, root, 4, v)
  {
    UpTop(v);
    WalkAgreeBelow(h, pos, h', root, v);
  }

  function SetSlot(h: Heap, f: nat, i: nat, e: Entry): (h': Heap)
    requires f in h && i < 512
    ensures h'.Keys == h.Keys
  {
    h[f := h[f][i := e]]
  }

  /** Pages whose walk reads slot `i` of a table hanging at `p`. */
  predicate Governs(p: Pos, i: nat, d: nat, v: nat) {
    p.level >= 1 && d == p.dir && Up(v, p.level - 1) == p.base * 512 + i
  }

  lemma SlotKeepsAgree(h: Heap, pos: map<nat, Pos>, f: nat, i: nat, e: Entry, d: nat, v: nat)
    requires Forest(h, pos) && f in h && i < 512
    requires !Governs(pos[f], i, d, v)
    ensures Agree(h, pos, SetSlot(h, f, i, e), d, v, 0)
  {
  }

  /** Storing an entry that is no table pointer: the pages governed by the slot are mapped by that
      entry (or unmapped), and every other page of every directory is translated as before. */
  lemma SlotUpdate(h: Heap, pos: map<nat, Pos>, f: nat, i: nat, e: Entry, d: nat, root: nat, v: nat)
    requires Forest(h, pos) && root in h && pos[root] == Pos(d, 4, 0, root)
    requires f in h && i < 512 && v < PAGES
    requires !IsTablePtr(e, pos[f].level)
    requires d == pos[f].dir && Up(v, pos[f].level) == pos[f].base ==> TableAt(h, root, pos[f].level, v) == Some(f)
    ensures Walk(SetSlot(h, f, i, e), root, 4, v) ==
            if Governs(pos[f], i, d, v) then LeafOf(e, pos[f].level) else Walk(h, root, 4, v)
  {
    var h' := SetSlot(h, f, i, e);
    var l := pos[f].level;
    if Governs(pos[f], i, d, v) {
      assert Index(v, l) == i && Up(v, l) == pos[f].base;
      assert Agree(h, pos, h', d, v, l);
      TableAtAgree(h, pos, h', d, root, l, v);
      WalkFromTable(h', root, l, v);
    } else {
      SlotKeepsAgree(h, pos, f, i, e, d, v);
      WalkAgree(h, pos, h', d, root, v);
    }
  }

  lemma SlotForest(h: Heap, pos: map<nat, Pos>, f: nat, i: nat, e: Entry)
    requires Forest(h, pos) && f in h && i < 512
    requires !IsTablePtr(e, pos[f].level) && (pos[f].level == 4 ==> !e.flags.large)
    ensures Forest(SetSlot(h, f, i, e), pos)
  {
    var h' := SetSlot(h, f, i, e);
    forall g, j: nat | g in h' && j < 512 ensures Linked(h', pos, g, j) {
      assert Linked(h, pos, g, j);
    }
  }

  /** All pages of a leaf are translated by that leaf. */
  lemma {:induction false} WalkSameLeaf(h: Heap, f: nat, level: nat, v: nat, w: nat)
    requires Walk(h, f, level, v).Leaf? && Walk(h, f, level, v).level >= 1
    requires Up(v, Walk(h, f, level, v).level - 1) == Up(w, Walk(h, f, level, v).level - 1)
    ensures Walk(h, f, level, w) == Walk(h, f, level, v)
    decreases level
  {
    var e := h[f][Index(v, level)];
    if IsTablePtr(e, level) {
      WalkLevel(h, e.frame, level - 1, v);
      WalkSameLeaf(h, e.frame, level - 1, v, w);
      UpEqual(v, w, Walk(h, f, level, v).level - 1, level - 1);
    }
  }

  lemma {:induction false} WalkLevel(h: Heap, f: nat, level: nat, v: nat)
    ensures Walk(h, f, level, v).Leaf? ==> 1 <= Walk(h, f, level, v).level <= level && Walk(h, f, level, v).level <= 3
    decreases level
  {
    if level > 0 && f in h && IsTablePtr(h[f][Index(v, level)], level) {
      WalkLevel(h, h[f][Index(v, level)].frame, level - 1, v);
    }
  }

  lemma {:induction false} WalkLeafLarge(h: Heap, f: nat, level: nat, v: nat)
    ensures Walk(h, f, level, v).Leaf? && Walk(h, f, level, v).level != 1 ==> Walk(h, f, level, v).entry.flags.large
    decreases level
  {
    if level > 0 && f in h && IsTablePtr(h[f][Index(v, level)], level) {
      WalkLeafLarge(h, h[f][Index(v, level)].frame, level - 1, v);
    }
  }

  // ----- attaching and detaching tables -----

  /** Hang the new zeroed table `c` in slot `i` of table `f`. */
  function Attach(h: Heap, f: nat, i: nat, c: nat, link: Flags): (h': Heap)
    requires f in h && c !in h && i < 512
    ensures h'.Keys == h.Keys + {c}
  {
    SetSlot(h[c := EmptyTable()], f, i, Entry(c, link))
  }

  ghost function AttachPos(pos: map<nat, Pos>, f: nat, i: nat, c: nat): map<nat, Pos>
    requires f in pos && pos[f].level >= 1
  {
    pos[c := Pos(pos[f].dir, pos[f].level - 1, pos[f].base * 512 + i, f)]
  }

  lemma AttachForest(h: Heap, pos: map<nat, Pos>, f: nat, i: nat, c: nat, link: Flags)
    requires Forest(h, pos) && f in h && c !in h && i < 512
    requires link.present && !link.large && pos[f].level >= 2
    ensures Forest(Attach(h, f, i, c, link), AttachPos(pos, f, i, c))
  {
    var h', pos' := Attach(h, f, i, c, link), AttachPos(pos, f, i, c);
    forall g, j: nat | g in h' && j < 512 ensures Linked(h', pos', g, j) {
      if g != c {
        assert Linked(h, pos, g, j);
      }
    }
  }

  lemma AttachWalk(h: Heap, pos: map<nat, Pos>, f: nat, i: nat, c: nat, link: Flags, d: nat, root: nat, v: nat)
    requires Forest(h, pos) && root in h && pos[root] == Pos(d, 4, 0, root)
    requires f in h && c !in h && i < 512 && v < PAGES
    requires link.present && !link.large && pos[f].level >= 2 && !h[f][i].flags.present
    requires d == pos[f].dir && Up(v, pos[f].level) == pos[f].base ==> TableAt(h, root, pos[f].level, v) == Some(f)
    ensures Walk(Attach(h, f, i, c, link), root, 4, v) == Walk(h, root, 4, v)
    ensures Governs(pos[f], i, d, v) ==>
              TableAt(Attach(h, f, i, c, link), root, pos[f].level - 1, v) == Some(c)
  {
    var h' := Attach(h, f, i, c, link);
    var l := pos[f].level;
    if Governs(pos[f], i, d, v) {
      assert Index(v, l) == i && Up(v, l) == pos[f].base;
      assert Agree(h, pos, h', d, v, l);
      TableAtAgree(h, pos, h', d, root, l, v);
      WalkFromTable(h', root, l, v);
      WalkFromTable(h, root, l, v);
    } else {
      assert Agree(h, pos, h', d, v, 0);
      WalkAgree(h, pos, h', d, root, v);
    }
  }

  predicate IsEmpty(t: Table) {
    forall i | 0 <= i < 512 :: !t[i].flags.present
  }

  /** Free table `c` and clear the slot that points to it. */
  function Detach(h: Heap, f: nat, i: nat, c: nat): (h': Heap)
    requires f in h && f != c && i < 512
    ensures h'.Keys == h.Keys - {c}
  {
    SetSlot(h, f, i, NO_ENTRY) - {c}
  }

  lemma DetachForest(h: Heap, pos: map<nat, Pos>, f: nat, i: nat, c: nat)
    requires Forest(h, pos) && f in h && c in h && i < 512
    requires IsTablePtr(h[f][i], pos[f].level) && h[f][i].frame == c
    ensures f != c
    ensures Forest(Detach(h, f, i, c), pos - {c})
  {
    assert Linked(h, pos, f, i);
    var h', pos' := Detach(h, f, i, c), pos - {c};
    forall g, j: nat | g in h' && j < 512 ensures Linked(h', pos', g, j) {
      assert Linked(h, pos, g, j);
    }
  }

  lemma DetachAgree(h: Heap, pos: map<nat, Pos>, f: nat, i: nat, c: nat, d: nat, v: nat)
    requires Forest(h, pos) && f in h && c in h && f != c && i < 512
    requires IsTablePtr(h[f][i], pos[f].level) && h[f][i].frame == c
    ensures Governs(pos[f], i, d, v) ==> Agree(h, pos, Detach(h, f, i, c), d, v, pos[f].level)
    ensures !Governs(pos[f], i, d, v) ==> Agree(h, pos, Detach(h, f, i, c), d, v, 0)
  {
    assert Linked(h, pos, f, i);
  }

  lemma DetachWalk(h: Heap, pos: map<nat, Pos>, f: nat, i: nat, c: nat, d: nat, root: nat, v: nat)
    requires Forest(h, pos) && root in h && pos[root] == Pos(d, 4, 0, root)
    requires f in h && c in h && f != c && i < 512 && v < PAGES
    requires IsTablePtr(h[f][i], pos[f].level) && h[f][i].frame == c && IsEmpty(h[c])
    requires d == pos[f].dir && Up(v, pos[f].level) == pos[f].base ==> TableAt(h, root, pos[f].level, v) == Some(f)
    ensures Walk(Detach(h, f, i, c), root, 4, v) == Walk(h, root, 4, v)
  {
    hide Agree;
    assert Linked(h, pos, f, i);
    var h' := Detach(h, f, i, c);
    var l := pos[f].level;
    DetachAgree(h, pos, f, i, c, d, v);
    if Governs(pos[f], i, d, v) {
      assert Index(v, l) == i && Up(v, l) == pos[f].base;
      TableAtAgree(h, pos, h', d, root, l, v);
      WalkFromTable(h', root, l, v);
      WalkFromTable(h, root, l, v);
    } else {
      WalkAgree(h, pos, h', d, root, v);
    }
  }

  // ----- the same steps, seen by all live directories at once -----

  /** Every page of every live directory is translated the same way by `h` and `h'`. */
  ghost predicate SameWalks(h: Heap, h': Heap, roots: map<nat, nat>) {
    forall d, v: nat | d in roots && v < PAGES :: Walk(h', roots[d], 4, v) == Walk(h, roots[d], 4, v)
  }

  /** Table `f` hangs in the tree of its directory. */
  ghost predicate OnTree(h: Heap, pos: map<nat, Pos>, roots: map<nat, nat>, f: nat)
    requires Shape(h, pos, roots)
  {
    && f in h
    && pos[f].dir in roots
    && forall v: nat | v < PAGES && Up(v, pos[f].level) == pos[f].base ::
         TableAt(h, roots[pos[f].dir], pos[f].level, v) == Some(f)
  }

  lemma OnTreeAt(h: Heap, pos: map<nat, Pos>, roots: map<nat, nat>, d: nat, level: nat, v: nat)
    requires Shape(h, pos, roots) && d in roots && v < PAGES && 1 <= level <= 4
    requires TableAt(h, roots[d], level, v).Some?
    ensures var f := TableAt(h, roots[d], level, v).value;
            f in h && f in pos && roots[d] in h && OnTree(h, pos, roots, f) &&
            pos[f].dir == d && pos[f].level == level && pos[f].base == Up(v, level)
  {
    TableAtPos(h, pos, d, roots[d], level, v);
    forall w: nat | w < PAGES && Up(w, level) == Up(v, level)
      ensures TableAt(h, roots[d], level, w) == TableAt(h, roots[d], level, v)
    {
      TableAtPrefix(h, roots[d], level, w, v);
    }
  }

  lemma RootAt(h: Heap, pos: map<nat, Pos>, roots: map<nat, nat>, d: nat, v: nat)
    requires Shape(h, pos, roots) && d in roots
    ensures TableAt(h, roots[d], 4, v) == Some(roots[d]) && roots[d] in h
  {
  }

  /** The pointer between two neighbouring tables on the way to `v`. */
  lemma PointerBetween(h: Heap, root: nat, level: nat, v: nat)
    requires 2 <= level <= 4
    requires TableAt(h, root, level, v).Some? && TableAt(h, root, level - 1, v).Some?
    ensures var f := TableAt(h, root, level, v).value;
            && f in h && IsTablePtr(h[f][Index(v, level)], level)
            && h[f][Index(v, level)].frame == TableAt(h, root, level - 1, v).value
  {
  }

  /** One step down a table pointer. */
  lemma Descend(h: Heap, pos: map<nat, Pos>, roots: map<nat, nat>, d: nat, level: nat, v: nat, f: nat)
    requires Shape(h, pos, roots) && d in roots && v < PAGES && 2 <= level <= 4
    requires TableAt(h, roots[d], level, v) == Some(f) && f in h
    requires IsTablePtr(h[f][Index(v, level)], level)
    ensures TableAt(h, roots[d], level - 1, v) == Some(h[f][Index(v, level)].frame)
    ensures h[f][Index(v, level)].frame in h
  {
    TableAtPos(h, pos, d, roots[d], level - 1, v);
  }

  /** Tables on the way to pages not governed by the changed slot stay where they are. */
  ghost predicate SamePaths(h: Heap, h': Heap, roots: map<nat, nat>, p: Pos, i: nat) {
    forall d, v: nat, l: nat {:trigger TableAt(h', roots[d], l, v)} |
      d in roots && v < PAGES && 1 <= l <= 4 && !Governs(p, i, d, v) ::
      TableAt(h', roots[d], l, v) == TableAt(h, roots[d], l, v)
  }

  lemma AgreePath(h: Heap, pos: map<nat, Pos>, h': Heap, d: nat, root: nat, v: nat, l: nat)
    requires Forest(h, pos) && root in h && pos[root] == Pos(d, 4, 0, root)
    requires v < PAGES && 1 <= l <= 4 && Agree(h, pos, h', d, v, 0)
    ensures TableAt(h', root, l, v) == TableAt(h, root, l, v)
  {
    assert Agree(h, pos, h', d, v, l);
    TableAtAgree(h, pos, h', d, root, l, v);
  }

  lemma AttachPaths(h: Heap, pos: map<nat, Pos>, roots: map<nat, nat>, f: nat, i: nat, c: nat, link: Flags)
    requires Shape(h, pos, roots) && f in h && c !in h && i < 512
    ensures SamePaths(h, Attach(h, f, i, c, link), roots, pos[f], i)
    ensures forall d, v: nat, l: nat | d in roots && v < PAGES && pos[f].level <= l <= 4 && 1 <= l ::
              TableAt(Attach(h, f, i, c, link), roots[d], l, v) == TableAt(h, roots[d], l, v)
  {
    var h' := Attach(h, f, i, c, link);
    forall d, v: nat, l: nat | d in roots && v < PAGES && 1 <= l <= 4 && !Governs(pos[f], i, d, v)
      ensures TableAt(h', roots[d], l, v) == TableAt(h, roots[d], l, v)
    {
      assert Agree(h, pos, h', d, v, 0);
      AgreePath(h, pos, h', d, roots[d], v, l);
    }
    forall d, v: nat, l: nat | d in roots && v < PAGES && pos[f].level <= l <= 4 && 1 <= l
      ensures TableAt(h', roots[d], l, v) == TableAt(h, roots[d], l, v)
    {
      assert Agree(h, pos, h', d, v, l);
      TableAtAgree(h, pos, h', d, roots[d], l, v);
    }
  }

  lemma StorePaths(h: Heap, pos: map<nat, Pos>, roots: map<nat, nat>, f: nat, i: nat, e: Entry)
    requires Shape(h, pos, roots) && f in h && i < 512
    ensures SamePaths(h, SetSlot(h, f, i, e), roots, pos[f], i)
  {
    var h' := SetSlot(h, f, i, e);
    forall d, v: nat, l: nat | d in roots && v < PAGES && 1 <= l <= 4 && !Governs(pos[f], i, d, v)
      ensures TableAt(h', roots[d], l, v) == TableAt(h, roots[d], l, v)
    {
      SlotKeepsAgree(h, pos, f, i, e, d, v);
      AgreePath(h, pos, h', d, roots[d], v, l);
    }
  }

  lemma DetachPaths(h: Heap, pos: map<nat, Pos>, roots: map<nat, nat>, f: nat, i: nat, c: nat)
    requires Shape(h, pos, roots) && f in h && c in h && i < 512 && f != c
    requires IsTablePtr(h[f][i], pos[f].level) && h[f][i].frame == c
    ensures SamePaths(h, Detach(h, f, i, c), roots, pos[f], i)
  {
    assert Linked(h, pos, f, i);
    var h' := Detach(h, f, i, c);
    forall d, v: nat, l: nat | d in roots && v < PAGES && 1 <= l <= 4 && !Governs(pos[f], i, d, v)
      ensures TableAt(h', roots[d], l, v) == TableAt(h, roots[d], l, v)
    {
      assert Agree(h, pos, h', d, v, 0);
      AgreePath(h, pos, h', d, roots[d], v, l);
    }
  }

  lemma AttachKeeps(h: Heap, pos: map<nat, Pos>, roots: map<nat, nat>, f: nat, i: nat, c: nat, link: Flags)
    requires Shape(h, pos, roots) && OnTree(h, pos, roots, f) && c !in h && i < 512
    requires link.present && !link.large && pos[f].level >= 2 && !h[f][i].flags.present
    ensures Shape(Attach(h, f, i, c, link), AttachPos(pos, f, i, c), roots)
    ensures SameWalks(h, Attach(h, f, i, c, link), roots)
    ensures forall v: nat | v < PAGES && Governs(pos[f], i, pos[f].dir, v) ::
              TableAt(Attach(h, f, i, c, link), roots[pos[f].dir], pos[f].level - 1, v) == Some(c)
  {
    AttachForest(h, pos, f, i, c, link);
    forall d, v: nat | d in roots && v < PAGES
      ensures Walk(Attach(h, f, i, c, link), roots[d], 4, v) == Walk(h, roots[d], 4, v)
      ensures Governs(pos[f], i, d, v) ==>
                TableAt(Attach(h, f, i, c, link), roots[d], pos[f].level - 1, v) == Some(c)
    {
      AttachWalk(h, pos, f, i, c, link, d, roots[d], v);
    }
  }

  lemma DetachKeeps(h: Heap, pos: map<nat, Pos>, roots: map<nat, nat>, f: nat, i: nat, c: nat)
    requires Shape(h, pos, roots) && OnTree(h, pos, roots, f) && c in h && i < 512
    requires IsTablePtr(h[f][i], pos[f].level) && h[f][i].frame == c && IsEmpty(h[c])
    ensures f != c && h.Keys == pos.Keys
    ensures Shape(Detach(h, f, i, c), pos - {c}, roots)
    ensures SameWalks(h, Detach(h, f, i, c), roots)
    ensures forall v: nat, l: nat | v < PAGES && Up(v, pos[f].level) == pos[f].base && pos[f].level <= l <= 4 ::
              TableAt(Detach(h, f, i, c), roots[pos[f].dir], l, v) == TableAt(h, roots[pos[f].dir], l, v)
  {
    assert Linked(h, pos, f, i);
    DetachForest(h, pos, f, i, c);
    var d, h' := pos[f].dir, Detach(h, f, i, c);
    forall v: nat, l: nat | v < PAGES && Up(v, pos[f].level) == pos[f].base && pos[f].level <= l <= 4
      ensures TableAt(h', roots[d], l, v) == TableAt(h, roots[d], l, v)
    {
      assert Agree(h, pos, h', d, v, l);
      TableAtAgree(h, pos, h', d, roots[d], l, v);
    }
    forall d, v: nat | d in roots && v < PAGES
      ensures Walk(Detach(h, f, i, c), roots[d], 4, v) == Walk(h, roots[d], 4, v)
    {
      DetachWalk(h, pos, f, i, c, d, roots[d], v);
    }
  }

  /** Writing a leaf (or clearing a slot) changes the pages the slot governs and nothing else. */
  lemma StoreKeeps(h: Heap, pos: map<nat, Pos>, roots: map<nat, nat>, f: nat, i: nat, e: Entry)
    requires Shape(h, pos, roots) && OnTree(h, pos, roots, f) && i < 512
    requires !IsTablePtr(e, pos[f].level) && (pos[f].level == 4 ==> !e.flags.large)
    ensures Shape(SetSlot(h, f, i, e), pos, roots)
    ensures forall d, v: nat | d in roots && v < PAGES ::
              Walk(SetSlot(h, f, i, e), roots[d], 4, v) ==
              if Governs(pos[f], i, d, v) then LeafOf(e, pos[f].level) else Walk(h, roots[d], 4, v)
    ensures forall v: nat, l: nat | v < PAGES && Up(v, pos[f].level) == pos[f].base && pos[f].level <= l <= 4 ::
              TableAt(SetSlot(h, f, i, e), roots[pos[f].dir], l, v) == TableAt(h, roots[pos[f].dir], l, v)
  {
    SlotForest(h, pos, f, i, e);
    var d, h' := pos[f].dir, SetSlot(h, f, i, e);
    forall v: nat, l: nat | v < PAGES && Up(v, pos[f].level) == pos[f].base && pos[f].level <= l <= 4
      ensures TableAt(h', roots[d], l, v) == TableAt(h, roots[d], l, v)
    {
      assert Agree(h, pos, h', d, v, l);
      TableAtAgree(h, pos, h', d, roots[d], l, v);
    }
    forall d, v: nat | d in roots && v < PAGES
      ensures Walk(SetSlot(h, f, i, e), roots[d], 4, v) ==
              if Governs(pos[f], i, d, v) then LeafOf(e, pos[f].level) else Walk(h, roots[d], 4, v)
    {
      SlotUpdate(h, pos, f, i, e, d, roots[d], v);
    }
  }

  // ----- directories come and go -----

  ghost predicate WalksNowhere(h: Heap, root: nat) {
    forall v: nat | v < PAGES :: Walk(h, root, 4, v).NoLeaf?
  }

  lemma NewRootKeeps(h: Heap, pos: map<nat, Pos>, roots: map<nat, nat>, d: nat, f: nat)
    requires Shape(h, pos, roots) && d !in roots && f !in h
    ensures WalksNowhere(h[f := EmptyTable()], f)
    ensures Shape(h[f := EmptyTable()], pos[f := Pos(d, 4, 0, f)], roots[d := f])
    ensures SameWalks(h, h[f := EmptyTable()], roots)
  {
    var h', pos' := h[f := EmptyTable()], pos[f := Pos(d, 4, 0, f)];
    forall g, j: nat | g in h' && j < 512 ensures Linked(h', pos', g, j) {
      if g != f {
        assert Linked(h, pos, g, j);
      }
    }
    forall e, v: nat | e in roots && v < PAGES
      ensures Walk(h', roots[e], 4, v) == Walk(h, roots[e], 4, v)
    {
      assert Agree(h, pos, h', e, v, 0);
      WalkAgree(h, pos, h', e, roots[e], v);
    }
  }

  lemma DropRootKeeps(h: Heap, pos: map<nat, Pos>, roots: map<nat, nat>, d: nat)
    requires Shape(h, pos, roots) && d in roots
    ensures Shape(h - {roots[d]}, pos - {roots[d]}, roots - {d})
    ensures SameWalks(h, h - {roots[d]}, roots - {d})
  {
    var h', pos' := h - {roots[d]}, pos - {roots[d]};
    forall g, j: nat | g in h' && j < 512 ensures Linked(h', pos', g, j) {
      assert Linked(h, pos, g, j);
    }
    forall e, v: nat | e in roots - {d} && v < PAGES
      ensures Walk(h', (roots - {d})[e], 4, v) == Walk(h, roots[e], 4, v)
    {
      assert Agree(h, pos, h', e, v, 0);
      WalkAgree(h, pos, h', e, roots[e], v);
    }
  }

  /** A pointer between tables on the way to `v` is present and carries no PAGE_SIZE flag. */
  lemma PointerFlags(h: Heap, pos: map<nat, Pos>, roots: map<nat, nat>, d: nat, level: nat, v: nat)
    requires Shape(h, pos, roots) && d in roots && v < PAGES && 2 <= level <= 4
    requires TableAt(h, roots[d], level, v).Some? && TableAt(h, roots[d], level - 1, v).Some?
    ensures TableAt(h, roots[d], level, v).value in h
    ensures var e := h[TableAt(h, roots[d], level, v).value][Index(v, level)]; e.flags.present && !e.flags.large
  {
    TableAtPos(h, pos, d, roots[d], level, v);
  }
}
