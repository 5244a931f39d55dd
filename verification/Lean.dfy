/** Directories without idle tables: every table lies on the way to some mapped page.  Then the set
    of tables is determined by the mapped pages. */
module Lean {
  import opened Wrappers
  import opened PageForest
  import opened PagingSteps
  import opened PageCensus
  import opened TableChanges

  /** Some mapped page goes through table `g`. */
  ghost predicate Used(h: Heap, pos: map<nat, Pos>, roots: map<nat, nat>, g: nat)
    requires g in pos && pos[g].dir in roots
  {
    exists w: nat :: UsedBy(h, pos, roots, g, w)
  }

  ghost predicate UsedBy(h: Heap, pos: map<nat, Pos>, roots: map<nat, nat>, g: nat, w: nat)
    requires g in pos && pos[g].dir in roots
  {
    && w < PAGES
    && TableAt(h, roots[pos[g].dir], pos[g].level, w) == Some(g)
    && Walk(h, roots[pos[g].dir], 4, w).Leaf?
  }

  /** Tables of directory `d` below the root are used, except perhaps those on the way to `v` from
      level `m` upwards. */
  ghost predicate LeanFrom(h: Heap, pos: map<nat, Pos>, roots: map<nat, nat>, d: nat, v: nat, m: nat)
    requires d in roots
  {
    forall g | g in h && g in pos && pos[g].dir == d && pos[g].level < 4 ::
      || Used(h, pos, roots, g)
      || (pos[g].level >= m && TableAt(h, roots[d], pos[g].level, v) == Some(g))
  }

  ghost predicate LeanDir(h: Heap, pos: map<nat, Pos>, roots: map<nat, nat>, d: nat)
    requires d in roots
  {
    forall g | g in h && g in pos && pos[g].dir == d && pos[g].level < 4 :: Used(h, pos, roots, g)
  }

  lemma Bounds(h: Heap, pos: map<nat, Pos>, roots: map<nat, nat>, g: nat)
    requires Shape(h, pos, roots) && g in h
    ensures g in pos && 1 <= pos[g].level <= 4
  {
  }

  lemma AttachLeanAt(h: Heap, pos: map<nat, Pos>, roots: map<nat, nat>, f: nat, i: nat, c: nat, link: Flags, v: nat, g: nat)
    requires Shape(h, pos, roots) && OnTree(h, pos, roots, f) && f in pos && c !in h && i < 512 && v < PAGES
    requires link.present && !link.large && pos[f].level >= 2 && !h[f][i].flags.present
    requires Governs(pos[f], i, pos[f].dir, v)
    requires LeanFrom(h, pos, roots, pos[f].dir, v, 1)
    requires g in h && g in pos && pos[g].dir == pos[f].dir && pos[g].level < 4
    ensures var h', pos' := Attach(h, f, i, c, link), AttachPos(pos, f, i, c);
            g in pos' && (Used(h', pos', roots, g) || TableAt(h', roots[pos[f].dir], pos'[g].level, v) == Some(g))
  {
    hide Shape, Walk, TableAt, Attach;
    AttachKeeps(h, pos, roots, f, i, c, link);
    AttachPaths(h, pos, roots, f, i, c, link);
    Bounds(h, pos, roots, g);
    Bounds(h, pos, roots, f);
    if w: nat :| UsedBy(h, pos, roots, g, w) {
      SlotUnused(h, pos, roots, f, i, w);
      assert UsedBy(Attach(h, f, i, c, link), AttachPos(pos, f, i, c), roots, g, w);
    } else if pos[g].level < pos[f].level {
      SlotBelow(h, pos, roots, f, i, v, pos[g].level);
    }
  }

  lemma AttachLean(h: Heap, pos: map<nat, Pos>, roots: map<nat, nat>, f: nat, i: nat, c: nat, link: Flags, v: nat)
    requires Shape(h, pos, roots) && OnTree(h, pos, roots, f) && f in pos && c !in h && i < 512 && v < PAGES
    requires link.present && !link.large && pos[f].level >= 2 && !h[f][i].flags.present
    requires Governs(pos[f], i, pos[f].dir, v)
    requires LeanFrom(h, pos, roots, pos[f].dir, v, 1)
    ensures LeanFrom(Attach(h, f, i, c, link), AttachPos(pos, f, i, c), roots, pos[f].dir, v, 1)
  {
    hide Shape, Walk, TableAt, Attach, Used;
    var h', pos' := Attach(h, f, i, c, link), AttachPos(pos, f, i, c);
    AttachKeeps(h, pos, roots, f, i, c, link);
    forall g | g in h' && g in pos' && pos'[g].dir == pos[f].dir && pos'[g].level < 4
      ensures Used(h', pos', roots, g) || (pos'[g].level >= 1 && TableAt(h', roots[pos[f].dir], pos'[g].level, v) == Some(g))
    {
      if g != c {
        Bounds(h, pos, roots, g);
        AttachLeanAt(h, pos, roots, f, i, c, link, v, g);
      }
    }
  }

  /** A mapped page is not governed by an absent entry. */
  lemma SlotUnused(h: Heap, pos: map<nat, Pos>, roots: map<nat, nat>, f: nat, i: nat, w: nat)
    requires Shape(h, pos, roots) && OnTree(h, pos, roots, f) && i < 512 && w < PAGES && !h[f][i].flags.present
    requires Walk(h, roots[pos[f].dir], 4, w).Leaf? && f in pos
    ensures !Governs(pos[f], i, pos[f].dir, w)
  {
    hide Walk, TableAt, Shape;
    if Governs(pos[f], i, pos[f].dir, w) {
      Bounds(h, pos, roots, f);
      assert Up(w, pos[f].level) == pos[f].base && Index(w, pos[f].level) == i;
      WalkEnds(h, roots[pos[f].dir], pos[f].level, w);
    }
  }

  /** Below an absent entry there is no table. */
  lemma {:induction false} SlotBelow(h: Heap, pos: map<nat, Pos>, roots: map<nat, nat>, f: nat, i: nat, v: nat, l: nat)
    requires Shape(h, pos, roots) && OnTree(h, pos, roots, f) && i < 512 && v < PAGES && !h[f][i].flags.present
    requires f in pos && Governs(pos[f], i, pos[f].dir, v) && 1 <= l < pos[f].level
    ensures TableAt(h, roots[pos[f].dir], l, v).None?
    decreases pos[f].level - l
  {
    if l + 1 < pos[f].level {
      SlotBelow(h, pos, roots, f, i, v, l + 1);
    } else {
      assert TableAt(h, roots[pos[f].dir], l + 1, v) == Some(f);
      assert Index(v, l + 1) == i;
    }
  }

  /** Once page `v` is mapped, the tables on its way are used. */
  lemma InstallLean(h: Heap, pos: map<nat, Pos>, roots: map<nat, nat>, f: nat, e: Entry, v: nat)
    requires Shape(h, pos, roots) && OnTree(h, pos, roots, f) && f in pos && v < PAGES && e.flags.present
    requires pos[f].level == 1 && pos[f].base == Up(v, 1)
    requires LeanFrom(h, pos, roots, pos[f].dir, v, 1)
    ensures LeanDir(SetSlot(h, f, Index(v, 1), e), pos, roots, pos[f].dir)
  {
    hide Shape, Walk, TableAt, SetSlot;
    var d, h' := pos[f].dir, SetSlot(h, f, Index(v, 1), e);
    StoreKeeps(h, pos, roots, f, Index(v, 1), e);
    StorePaths(h, pos, roots, f, Index(v, 1), e);
    assert Governs(pos[f], Index(v, 1), d, v);
    forall g | g in h' && g in pos && pos[g].dir == d && pos[g].level < 4 ensures Used(h', pos, roots, g) {
      Bounds(h, pos, roots, g);
      if w: nat :| UsedBy(h, pos, roots, g, w) {
        GovernsPage(pos[f], v, d, w);
        assert UsedBy(h', pos, roots, g, w);
      } else {
        assert UsedBy(h', pos, roots, g, v);
      }
    }
  }

  lemma GovernsPage(p: Pos, v: nat, d: nat, w: nat)
    requires p.level == 1 && p.base == Up(v, 1) && p.dir == d
    ensures Governs(p, Index(v, 1), d, w) <==> w == v
  {
  }

  /** After clearing page `v`, only tables on its way can have fallen idle. */
  lemma ClearLean(h: Heap, pos: map<nat, Pos>, roots: map<nat, nat>, f: nat, v: nat)
    requires Shape(h, pos, roots) && OnTree(h, pos, roots, f) && f in pos && v < PAGES
    requires pos[f].level == 1 && pos[f].base == Up(v, 1)
    requires LeanDir(h, pos, roots, pos[f].dir)
    ensures LeanFrom(SetSlot(h, f, Index(v, 1), NO_ENTRY), pos, roots, pos[f].dir, v, 1)
  {
    hide Shape, Walk, TableAt, SetSlot;
    var d, h' := pos[f].dir, SetSlot(h, f, Index(v, 1), NO_ENTRY);
    StoreKeeps(h, pos, roots, f, Index(v, 1), NO_ENTRY);
    StorePaths(h, pos, roots, f, Index(v, 1), NO_ENTRY);
    forall g | g in h' && g in pos && pos[g].dir == d && pos[g].level < 4
      ensures Used(h', pos, roots, g) || (pos[g].level >= 1 && TableAt(h', roots[d], pos[g].level, v) == Some(g))
    {
      Bounds(h, pos, roots, g);
      var w: nat :| UsedBy(h, pos, roots, g, w);
      GovernsPage(pos[f], v, d, w);
      if w != v {
        assert UsedBy(h', pos, roots, g, w);
      }
    }
  }

  /** Freeing the empty table `c` on the way to `v` moves the exception one level up. */
  lemma DetachLean(h: Heap, pos: map<nat, Pos>, roots: map<nat, nat>, f: nat, i: nat, c: nat, v: nat)
    requires Shape(h, pos, roots) && OnTree(h, pos, roots, f) && f in pos && c in h && i < 512 && v < PAGES && f != c
    requires IsTablePtr(h[f][i], pos[f].level) && h[f][i].frame == c && IsEmpty(h[c])
    requires Governs(pos[f], i, pos[f].dir, v) && Up(v, pos[f].level) == pos[f].base
    requires LeanFrom(h, pos, roots, pos[f].dir, v, pos[f].level - 1)
    requires TableAt(h, roots[pos[f].dir], pos[f].level - 1, v) == Some(c)
    ensures LeanFrom(Detach(h, f, i, c), pos - {c}, roots, pos[f].dir, v, pos[f].level)
  {
    hide Shape, Walk, TableAt, Detach;
    var d, h', pos' := pos[f].dir, Detach(h, f, i, c), pos - {c};
    DetachKeeps(h, pos, roots, f, i, c);
    DetachPaths(h, pos, roots, f, i, c);
    Bounds(h, pos, roots, f);
    forall g | g in h' && g in pos' && pos'[g].dir == d && pos'[g].level < 4
      ensures Used(h', pos', roots, g) || (pos'[g].level >= pos[f].level && TableAt(h', roots[d], pos'[g].level, v) == Some(g))
    {
      Bounds(h, pos, roots, g);
      if w: nat :| UsedBy(h, pos, roots, g, w) {
        EmptyUnused(h, pos, roots, f, i, c, w);
        assert UsedBy(h', pos', roots, g, w);
      }
    }
  }

  /** A mapped page does not go through an empty table. */
  lemma EmptyUnused(h: Heap, pos: map<nat, Pos>, roots: map<nat, nat>, f: nat, i: nat, c: nat, w: nat)
    requires Shape(h, pos, roots) && OnTree(h, pos, roots, f) && f in pos && c in h && i < 512 && w < PAGES
    requires IsTablePtr(h[f][i], pos[f].level) && h[f][i].frame == c && IsEmpty(h[c])
    requires Walk(h, roots[pos[f].dir], 4, w).Leaf?
    ensures !Governs(pos[f], i, pos[f].dir, w)
  {
    hide Walk;
    if Governs(pos[f], i, pos[f].dir, w) {
      var root, l := roots[pos[f].dir], pos[f].level;
      assert TableAt(h, root, l, w) == Some(f) && Index(w, l) == i;
      assert Linked(h, pos, f, i);
      assert TableAt(h, root, l - 1, w) == Some(c);
      WalkEnds(h, root, l - 1, w);
    }
  }

  /** A table with an entry is used, and with it all tables above it. */
  lemma NonEmptyLean(h: Heap, pos: map<nat, Pos>, roots: map<nat, nat>, d: nat, c: nat, v: nat, l: nat)
    requires Shape(h, pos, roots) && d in roots && v < PAGES && 1 <= l <= 3
    requires TableAt(h, roots[d], l, v) == Some(c) && c in h && !IsEmpty(h[c])
    requires LeanFrom(h, pos, roots, d, v, l)
    ensures LeanDir(h, pos, roots, d)
  {
    hide Shape, Walk, TableAt;
    OnTreeAt(h, pos, roots, d, l, v);
    var w := UserOf(h, pos, roots, d, c, v, l);
    forall g | g in h && g in pos && pos[g].dir == d && pos[g].level < 4 ensures Used(h, pos, roots, g) {
      Bounds(h, pos, roots, g);
      if pos[g].level >= l && TableAt(h, roots[d], pos[g].level, v) == Some(g) {
        SharedUp(h, pos, roots, d, c, v, w, l, pos[g].level);
        assert UsedBy(h, pos, roots, g, w);
      }
    }
  }

  /** Two pages going through the same table go through the same tables above it. */
  lemma SharedUp(h: Heap, pos: map<nat, Pos>, roots: map<nat, nat>, d: nat, c: nat, v: nat, w: nat, l: nat, l': nat)
    requires Shape(h, pos, roots) && d in roots && v < PAGES && w < PAGES && 1 <= l <= l' <= 4
    requires TableAt(h, roots[d], l, v) == Some(c) && TableAt(h, roots[d], l, w) == Some(c)
    ensures TableAt(h, roots[d], l', w) == TableAt(h, roots[d], l', v)
  {
    TableAtPos(h, pos, d, roots[d], l, v);
    TableAtPos(h, pos, d, roots[d], l, w);
    UpEqual(v, w, l, l');
    TableAtPrefix(h, roots[d], l', v, w);
  }

  /** A mapped page going through the non-empty table `c`. */
  lemma UserOf(h: Heap, pos: map<nat, Pos>, roots: map<nat, nat>, d: nat, c: nat, v: nat, l: nat) returns (w: nat)
    requires Shape(h, pos, roots) && d in roots && v < PAGES && 1 <= l <= 3
    requires TableAt(h, roots[d], l, v) == Some(c) && c in h && c in pos && !IsEmpty(h[c])
    requires LeanFrom(h, pos, roots, d, v, l)
    ensures w < PAGES && TableAt(h, roots[d], l, w) == Some(c) && Walk(h, roots[d], 4, w).Leaf?
  {
    hide Walk;
    OnTreeAt(h, pos, roots, d, l, v);
    var j: nat :| j < 512 && h[c][j].flags.present;
    assert Linked(h, pos, c, j);
    if IsTablePtr(h[c][j], l) {
      var g := h[c][j].frame;
      assert Used(h, pos, roots, g);
      w :| UsedBy(h, pos, roots, g, w);
      var p := TableAt(h, roots[d], l, w).value;
      TableAtPos(h, pos, d, roots[d], l, w);
      assert Linked(h, pos, p, Index(w, l));
    } else {
      w := EntryPage(v, l, j);
      assert TableAt(h, roots[d], l, w) == Some(c);
      WalkEnds(h, roots[d], l, w);
    }
  }

  /** A page with the prefix of `v` that uses entry `j` at level `l`. */
  lemma EntryPage(v: nat, l: nat, j: nat) returns (w: nat)
    requires v < PAGES && 1 <= l <= 3 && j < 512
    ensures w < PAGES && Up(w, l) == Up(v, l) && Index(w, l) == j
  {
    UpBound(v, l);
    LeafStartUp(l, Up(v, l), j);
    w := LeafStart(l, Up(v, l), j);
    assert Up(w, l) == Up(w, l - 1) / 512;
  }

  lemma UpBound(v: nat, l: nat)
    requires v < PAGES && 1 <= l <= 3
    ensures Up(v, l) < Prefixes(l)
  {
    assert Up(v, 1) == v / 512 && Up(v, 1) < 134217728;
    assert Up(v, 2) == Up(v, 1) / 512 && Up(v, 2) < 262144;
    assert Up(v, 3) == Up(v, 2) / 512 && Up(v, 3) < 512;
  }

  // ----- the tables of a lean directory are those its pages need -----

  /** The tables of directory `d` below its PML4 table. */
  ghost function TablesOf(h: Heap, pos: map<nat, Pos>, d: nat): set<nat> {
    set g | g in h && g in pos && pos[g].dir == d && pos[g].level < 4
  }

  /** Pages mapped in both heaps go through the same tables. */
  ghost predicate KeepsPaths(h: Heap, h': Heap, root: nat) {
    forall w: nat, l: nat {:trigger TableAt(h', root, l, w)} |
      w < PAGES && 1 <= l <= 4 && Walk(h, root, 4, w).Leaf? && Walk(h', root, 4, w).Leaf? ::
      TableAt(h', root, l, w) == TableAt(h, root, l, w)
  }

  lemma LeanTablesIncluded(h: Heap, pos: map<nat, Pos>, h': Heap, pos': map<nat, Pos>, roots: map<nat, nat>, d: nat)
    requires Shape(h, pos, roots) && Shape(h', pos', roots) && d in roots && LeanDir(h, pos, roots, d)
    requires KeepsPaths(h, h', roots[d])
    requires forall w: nat | w < PAGES && Walk(h, roots[d], 4, w).Leaf? :: Walk(h', roots[d], 4, w).Leaf?
    ensures TablesOf(h, pos, d) <= TablesOf(h', pos', d)
  {
    hide Walk, TableAt;
    forall g | g in TablesOf(h, pos, d) ensures g in TablesOf(h', pos', d) {
      Bounds(h, pos, roots, g);
      var w: nat :| UsedBy(h, pos, roots, g, w);
      TableAtPos(h', pos', d, roots[d], pos[g].level, w);
    }
  }

  lemma KeepsSelf(h: Heap, root: nat)
    ensures KeepsPaths(h, h, root)
  {
  }

  /** Tables may be attached to or detached from slots no mapped page uses. */
  lemma KeepsBySlot(h: Heap, h': Heap, roots: map<nat, nat>, p: Pos, i: nat, d: nat)
    requires SamePaths(h, h', roots, p, i) && d in roots
    requires forall w: nat | w < PAGES && Governs(p, i, d, w) :: Walk(h, roots[d], 4, w).NoLeaf? || Walk(h', roots[d], 4, w).NoLeaf?
    ensures KeepsPaths(h, h', roots[d])
  {
    hide Walk, TableAt;
  }

  lemma KeepsThen(h: Heap, h1: Heap, h2: Heap, root: nat)
    requires KeepsPaths(h, h1, root) && KeepsPaths(h1, h2, root)
    requires forall w: nat | w < PAGES && Walk(h, root, 4, w).Leaf? && Walk(h2, root, 4, w).Leaf? :: Walk(h1, root, 4, w).Leaf?
    ensures KeepsPaths(h, h2, root)
  {
    hide Walk, TableAt;
  }

  /** The tables on the way to a mapped page are used. */
  lemma MappedLean(h: Heap, pos: map<nat, Pos>, roots: map<nat, nat>, d: nat, v: nat, m: nat)
    requires d in roots && v < PAGES && Walk(h, roots[d], 4, v).Leaf? && LeanFrom(h, pos, roots, d, v, m)
    ensures LeanDir(h, pos, roots, d)
  {
    hide Walk, TableAt;
    forall g | g in h && g in pos && pos[g].dir == d && pos[g].level < 4 ensures Used(h, pos, roots, g) {
      if TableAt(h, roots[d], pos[g].level, v) == Some(g) {
        assert UsedBy(h, pos, roots, g, v);
      }
    }
  }

  lemma LeanAnywhere(h: Heap, pos: map<nat, Pos>, roots: map<nat, nat>, d: nat, v: nat, m: nat)
    requires d in roots && LeanDir(h, pos, roots, d)
    ensures LeanFrom(h, pos, roots, d, v, m)
  {
  }

  lemma LeanAtTop(h: Heap, pos: map<nat, Pos>, roots: map<nat, nat>, d: nat, v: nat)
    requires d in roots && LeanFrom(h, pos, roots, d, v, 4)
    ensures LeanDir(h, pos, roots, d)
  {
  }

  lemma AttachKept(h: Heap, pos: map<nat, Pos>, roots: map<nat, nat>, f: nat, i: nat, c: nat, link: Flags, v: nat)
    requires Shape(h, pos, roots) && OnTree(h, pos, roots, f) && f in pos && c !in h && i < 512 && v < PAGES
    requires link.present && !link.large && pos[f].level >= 2 && !h[f][i].flags.present
    requires Governs(pos[f], i, pos[f].dir, v)
    ensures KeepsPaths(h, Attach(h, f, i, c, link), roots[pos[f].dir])
    ensures LeanFrom(h, pos, roots, pos[f].dir, v, 1) ==>
              LeanFrom(Attach(h, f, i, c, link), AttachPos(pos, f, i, c), roots, pos[f].dir, v, 1)
  {
    hide Shape, Walk, TableAt, Attach, LeanFrom, SamePaths;
    var d, h' := pos[f].dir, Attach(h, f, i, c, link);
    AttachPaths(h, pos, roots, f, i, c, link);
    forall w: nat | w < PAGES && Governs(pos[f], i, d, w) ensures Walk(h, roots[d], 4, w).NoLeaf? {
      if Walk(h, roots[d], 4, w).Leaf? {
        SlotUnused(h, pos, roots, f, i, w);
      }
    }
    KeepsBySlot(h, h', roots, pos[f], i, d);
    if LeanFrom(h, pos, roots, d, v, 1) {
      AttachLean(h, pos, roots, f, i, c, link, v);
    }
  }

  lemma StoreKept(h: Heap, pos: map<nat, Pos>, roots: map<nat, nat>, f: nat, e: Entry, v: nat)
    requires Shape(h, pos, roots) && OnTree(h, pos, roots, f) && f in pos && v < PAGES
    requires pos[f].level == 1 && pos[f].base == Up(v, 1)
    ensures var h', d := SetSlot(h, f, Index(v, 1), e), pos[f].dir;
            && KeepsPaths(h, h', roots[d])
            && (e.flags.present && LeanFrom(h, pos, roots, d, v, 1) ==> LeanDir(h', pos, roots, d))
            && (e == NO_ENTRY && LeanDir(h, pos, roots, d) ==> LeanFrom(h', pos, roots, d, v, 1))
  {
    hide Shape, Walk, TableAt, SetSlot, LeanFrom, LeanDir;
    var h', d := SetSlot(h, f, Index(v, 1), e), pos[f].dir;
    StoreKeeps(h, pos, roots, f, Index(v, 1), e);
    StorePaths(h, pos, roots, f, Index(v, 1), e);
    forall w: nat ensures Governs(pos[f], Index(v, 1), d, w) <==> w == v {
      GovernsPage(pos[f], v, d, w);
    }
    if e.flags.present && LeanFrom(h, pos, roots, d, v, 1) {
      InstallLean(h, pos, roots, f, e, v);
    }
    if e == NO_ENTRY && LeanDir(h, pos, roots, d) {
      ClearLean(h, pos, roots, f, v);
    }
  }

  lemma DetachKept(h: Heap, pos: map<nat, Pos>, roots: map<nat, nat>, f: nat, i: nat, c: nat, v: nat)
    requires Shape(h, pos, roots) && OnTree(h, pos, roots, f) && f in pos && c in h && i < 512 && v < PAGES && f != c
    requires IsTablePtr(h[f][i], pos[f].level) && h[f][i].frame == c && IsEmpty(h[c])
    requires Governs(pos[f], i, pos[f].dir, v) && Up(v, pos[f].level) == pos[f].base
    requires TableAt(h, roots[pos[f].dir], pos[f].level - 1, v) == Some(c)
    ensures KeepsPaths(h, Detach(h, f, i, c), roots[pos[f].dir])
    ensures LeanFrom(h, pos, roots, pos[f].dir, v, pos[f].level - 1) ==>
              LeanFrom(Detach(h, f, i, c), pos - {c}, roots, pos[f].dir, v, pos[f].level)
  {
    hide Shape, Walk, TableAt, Detach, LeanFrom, SamePaths;
    var d, h' := pos[f].dir, Detach(h, f, i, c);
    DetachPaths(h, pos, roots, f, i, c);
    forall w: nat | w < PAGES && Governs(pos[f], i, d, w) ensures Walk(h, roots[d], 4, w).NoLeaf? {
      if Walk(h, roots[d], 4, w).Leaf? {
        EmptyUnused(h, pos, roots, f, i, c, w);
      }
    }
    KeepsBySlot(h, h', roots, pos[f], i, d);
    if LeanFrom(h, pos, roots, d, v, pos[f].level - 1) {
      DetachLean(h, pos, roots, f, i, c, v);
    }
  }

  /** Mapping one 4K page keeps the tables in use, unless memory ran out on the way. */
  ghost predicate MapTidy(h: Heap, pos: map<nat, Pos>, h': Heap, pos': map<nat, Pos>, roots: map<nat, nat>, d: nat, v: nat, flags: Flags, r: Errno)
    requires d in roots
  {
    !flags.large ==>
      && KeepsPaths(h, h', roots[d])
      && (r != ENOMEM && LeanFrom(h, pos, roots, d, v, 1) ==> LeanDir(h', pos', roots, d))
  }

  lemma TidySame(h: Heap, pos: map<nat, Pos>, roots: map<nat, nat>, d: nat, v: nat, flags: Flags)
    requires d in roots && v < PAGES
    ensures Walk(h, roots[d], 4, v).Leaf? ==> MapTidy(h, pos, h, pos, roots, d, v, flags, EEXIST)
  {
    hide Walk, TableAt, LeanFrom, LeanDir;
    KeepsSelf(h, roots[d]);
    if Walk(h, roots[d], 4, v).Leaf? && LeanFrom(h, pos, roots, d, v, 1) {
      MappedLean(h, pos, roots, d, v, 1);
    }
  }

  lemma TidyAfter(h: Heap, pos: map<nat, Pos>, h1: Heap, pos1: map<nat, Pos>, h2: Heap, pos2: map<nat, Pos>,
                  roots: map<nat, nat>, d: nat, v: nat, flags: Flags, r: Errno)
    requires d in roots && SameWalks(h, h1, roots) && KeepsPaths(h, h1, roots[d])
    requires LeanFrom(h, pos, roots, d, v, 1) ==> LeanFrom(h1, pos1, roots, d, v, 1)
    requires MapTidy(h1, pos1, h2, pos2, roots, d, v, flags, r)
    ensures MapTidy(h, pos, h2, pos2, roots, d, v, flags, r)
  {
    hide Walk, TableAt, LeanFrom, LeanDir;
    if !flags.large {
      KeepsThen(h, h1, h2, roots[d]);
    }
  }

  /** A whole request kept the ways to the pages mapped throughout, and (if `kept`) no table idle. */
  ghost predicate TidyRange(h: Heap, pos: map<nat, Pos>, h': Heap, pos': map<nat, Pos>, roots: map<nat, nat>, d: nat, kept: bool)
    requires d in roots
  {
    && KeepsPaths(h, h', roots[d])
    && (kept && LeanDir(h, pos, roots, d) ==> LeanDir(h', pos', roots, d))
  }

  lemma TidyRangeStart(h: Heap, pos: map<nat, Pos>, roots: map<nat, nat>, d: nat)
    requires d in roots
    ensures TidyRange(h, pos, h, pos, roots, d, true)
  {
    KeepsSelf(h, roots[d]);
  }

  lemma TidyRangeMap(h: Heap, pos: map<nat, Pos>, h1: Heap, pos1: map<nat, Pos>, h2: Heap, pos2: map<nat, Pos>,
                     roots: map<nat, nat>, d: nat, v: nat, p: nat, i: nat, flags: Flags, r: Errno)
    requires d in roots && !flags.large && MapProgress(h, h1, roots, d, v, p, i, flags)
    requires TidyRange(h, pos, h1, pos1, roots, d, true)
    requires MapTidy(h1, pos1, h2, pos2, roots, d, v + i, flags, r)
    ensures TidyRange(h, pos, h2, pos2, roots, d, r != ENOMEM)
  {
    hide Walk, TableAt, LeanFrom, LeanDir, PageOf;
    KeepsThen(h, h1, h2, roots[d]);
    if LeanDir(h1, pos1, roots, d) {
      LeanAnywhere(h1, pos1, roots, d, v + i, 1);
    }
  }

  lemma TidyUnmap(h: Heap, pos: map<nat, Pos>, h1: Heap, h2: Heap, pos2: map<nat, Pos>, roots: map<nat, nat>, d: nat, v: nat)
    requires d in roots && KeepsPaths(h, h1, roots[d]) && KeepsPaths(h1, h2, roots[d]) && SameWalks(h1, h2, roots)
    requires LeanDir(h, pos, roots, d) ==> LeanDir(h2, pos2, roots, d)
    ensures TidyRange(h, pos, h2, pos2, roots, d, true)
  {
    hide Walk, TableAt, LeanDir;
    KeepsThen(h, h1, h2, roots[d]);
  }

  lemma TidyRangeUnmap(h: Heap, pos: map<nat, Pos>, data: map<nat, Page>, h1: Heap, pos1: map<nat, Pos>, data1: map<nat, Page>,
                       h2: Heap, pos2: map<nat, Pos>, roots: map<nat, nat>, d: nat, v: nat, freePhys: bool, i: nat, level: nat, to: nat)
    requires d in roots && FourK(h, roots[d]) && v + i < PAGES
    requires UnmapProgress(h, data, h1, data1, roots, d, v, freePhys, i, to)
    requires level == if Walk(h1, roots[d], 4, v + i).Leaf? then Walk(h1, roots[d], 4, v + i).level else 0
    requires Cleared(h1, h2, roots, d, v + i, Span(level))
    requires level <= 1 ==> TidyRange(h1, pos1, h2, pos2, roots, d, true)
    requires TidyRange(h, pos, h1, pos1, roots, d, true)
    ensures TidyRange(h, pos, h2, pos2, roots, d, true)
  {
    hide Walk, TableAt, LeanDir, OwnsFrames, FreedIn, AtLeafStart;
    KeepsThen(h, h1, h2, roots[d]);
  }

  /** A new directory has no tables below its root. */
  lemma NewLean(h: Heap, pos: map<nat, Pos>, roots: map<nat, nat>, d: nat, f: nat)
    requires forall g | g in pos :: pos[g].dir != d
    ensures LeanDir(h, pos[f := Pos(d, 4, 0, f)], roots[d := f], d)
  {
  }

  // ----- what a map step does to the tables -----

  /** Only tables of `d` were touched, and none was orphaned unless a large leaf was laid over it. */
  ghost predicate MapTouches(h: Heap, pos: map<nat, Pos>, h': Heap, pos': map<nat, Pos>, root: nat, d: nat, v: nat, r: Errno, level: nat) {
    && OnlyIn(h, pos, h', pos', d)
    && Overlaid(h, pos, h', pos', if r == Ok && level > 0 then TableAt(h, root, level - 1, v) else None)
  }

  lemma TouchesNothing(h: Heap, pos: map<nat, Pos>, root: nat, d: nat, v: nat, r: Errno)
    requires r != Ok
    ensures MapTouches(h, pos, h, pos, root, d, v, r, 0)
  {
    OnlySame(h, pos, d);
    OrphanNone(h, pos);
  }

  lemma TouchesAfter(h: Heap, pos: map<nat, Pos>, free: set<nat>, h1: Heap, pos1: map<nat, Pos>, free1: set<nat>,
                     h2: Heap, pos2: map<nat, Pos>, roots: map<nat, nat>, d: nat, v: nat, r: Errno, level: nat, top: nat)
    requires d in roots && Shape(h1, pos1, roots) && Grown(h, free, h1, free1)
    requires OnlyIn(h, pos, h1, pos1, d) && NoneOrphaned(h, pos, h1, pos1)
    requires forall l: nat | l < top :: TableAt(h1, roots[d], l, v) == TableAt(h, roots[d], l, v)
    requires MapTouches(h1, pos1, h2, pos2, roots[d], d, v, r, level) && (r == Ok ==> level <= top)
    ensures MapTouches(h, pos, h2, pos2, roots[d], d, v, r, level)
  {
    hide TableAt, OnlyIn, NoneOrphaned, Overlaid;
    OnlyThen(h, pos, h1, pos1, h2, pos2, d);
    OverlaidThen(h, pos, h1, pos1, h2, pos2, if r == Ok && level > 0 then TableAt(h, roots[d], level - 1, v) else None);
  }

  /** A 4K leaf is laid over no table. */
  lemma TouchesSmall(h: Heap, pos: map<nat, Pos>, h': Heap, pos': map<nat, Pos>, root: nat, d: nat, v: nat, r: Errno, level: nat)
    requires MapTouches(h, pos, h', pos', root, d, v, r, level) && (r == Ok ==> level == 1)
    ensures OnlyIn(h, pos, h', pos', d) && NoneOrphaned(h, pos, h', pos')
  {
  }

  /** A table on the way to `v` was found or created: no translation changed, and from `top` down there
      is what was there. */
  ghost predicate TableAdded(h: Heap, pos: map<nat, Pos>, free: set<nat>, h': Heap, pos': map<nat, Pos>, free': set<nat>,
                             roots: map<nat, nat>, d: nat, v: nat, top: nat)
    requires d in roots
  {
    && SameWalks(h, h', roots) && Grown(h, free, h', free') && KeepsPaths(h, h', roots[d])
    && OnlyIn(h, pos, h', pos', d) && NoneOrphaned(h, pos, h', pos')
    && (forall l: nat | l < top :: TableAt(h', roots[d], l, v) == TableAt(h, roots[d], l, v))
    && (LeanFrom(h, pos, roots, d, v, 1) ==> LeanFrom(h', pos', roots, d, v, 1))
  }

  lemma AddedNothing(h: Heap, pos: map<nat, Pos>, free: set<nat>, roots: map<nat, nat>, d: nat, v: nat, top: nat)
    requires d in roots
    ensures TableAdded(h, pos, free, h, pos, free, roots, d, v, top)
  {
    hide SameWalks, KeepsPaths, OnlyIn, NoneOrphaned, LeanFrom, TableAt;
    Unchanged(h, free, roots);
    KeepsSelf(h, roots[d]);
    OnlySame(h, pos, d);
    OrphanNone(h, pos);
  }

  lemma AddedByAttach(h: Heap, pos: map<nat, Pos>, free: set<nat>, roots: map<nat, nat>, d: nat, v: nat, level: nat, f: nat, c: nat, link: Flags)
    requires Shape(h, pos, roots) && d in roots && v < PAGES && 2 <= level <= 4 && link.present && !link.large
    requires TableAt(h, roots[d], level, v) == Some(f) && f in h && c !in h && c in free && !h[f][Index(v, level)].flags.present
    ensures f in pos && pos[f].level >= 1
    ensures var h', pos' := Attach(h, f, Index(v, level), c, link), AttachPos(pos, f, Index(v, level), c);
            && Shape(h', pos', roots) && TableAt(h', roots[d], level - 1, v) == Some(c)
            && TableAdded(h, pos, free, h', pos', free - {c}, roots, d, v, level - 1)
  {
    hide Shape, SameWalks, Attach, TableAt, Walk, OnTree, KeepsPaths, LeanFrom, OnlyIn, NoneOrphaned;
    OnTreeAt(h, pos, roots, d, level, v);
    var i := Index(v, level);
    AttachKeeps(h, pos, roots, f, i, c, link);
    assert Governs(pos[f], i, d, v);
    AttachKept(h, pos, roots, f, i, c, link, v);
    AttachOnly(h, pos, roots, f, i, c, link);
    AttachOrphans(h, pos, roots, f, i, c, link);
    AttachBelow(h, pos, roots, d, level, v, f, c, link);
  }

  lemma AddedFacts(h: Heap, pos: map<nat, Pos>, free: set<nat>, h': Heap, pos': map<nat, Pos>, free': set<nat>,
                   roots: map<nat, nat>, d: nat, v: nat, top: nat)
    requires d in roots && TableAdded(h, pos, free, h', pos', free', roots, d, v, top)
    ensures SameWalks(h, h', roots) && Grown(h, free, h', free') && OnlyIn(h, pos, h', pos', d)
    ensures LeanDir(h, pos, roots, d) ==> LeanFrom(h', pos', roots, d, v, 1)
  {
    hide SameWalks, Grown, KeepsPaths, OnlyIn, NoneOrphaned, TableAt, LeanFrom, LeanDir;
    if LeanDir(h, pos, roots, d) {
      LeanAnywhere(h, pos, roots, d, v, 1);
    }
  }

  lemma AddedFourK(h: Heap, pos: map<nat, Pos>, free: set<nat>, h': Heap, pos': map<nat, Pos>, free': set<nat>,
                   roots: map<nat, nat>, d: nat, v: nat, top: nat)
    requires d in roots && FourK(h, roots[d]) && TableAdded(h, pos, free, h', pos', free', roots, d, v, top)
    ensures FourK(h', roots[d])
  {
    hide SameWalks, Grown, KeepsPaths, OnlyIn, NoneOrphaned, TableAt, LeanFrom, FourK;
    FourKStays(h, h', roots, d);
  }

  lemma AddedThen(h: Heap, pos: map<nat, Pos>, free: set<nat>, h1: Heap, pos1: map<nat, Pos>, free1: set<nat>,
                  h2: Heap, pos2: map<nat, Pos>, free2: set<nat>, roots: map<nat, nat>, d: nat, v: nat, top: nat, top': nat, low: nat)
    requires d in roots && Shape(h1, pos1, roots) && low <= top && low <= top'
    requires TableAdded(h, pos, free, h1, pos1, free1, roots, d, v, top)
    requires TableAdded(h1, pos1, free1, h2, pos2, free2, roots, d, v, top')
    ensures TableAdded(h, pos, free, h2, pos2, free2, roots, d, v, low)
  {
    hide SameWalks, KeepsPaths, OnlyIn, NoneOrphaned, TableAt, LeanFrom, Walk, Shape;
    SameWalksThen(h, h1, h2, roots);
    GrownThen(h, free, h1, free1, h2, free2);
    WaysThen(h, h1, h2, roots, roots[d], d);
    OnlyThen(h, pos, h1, pos1, h2, pos2, d);
    ShapeKeys(h1, pos1, roots);
    OrphanThen(h, pos, h1, pos1, h2, pos2);
  }

  lemma ShapeKeys(h: Heap, pos: map<nat, Pos>, roots: map<nat, nat>)
    requires Shape(h, pos, roots)
    ensures h.Keys == pos.Keys
  {
  }

  lemma WaysThen(h: Heap, h1: Heap, h2: Heap, roots: map<nat, nat>, root: nat, d: nat)
    requires d in roots && root == roots[d] && SameWalks(h, h1, roots) && KeepsPaths(h, h1, root) && KeepsPaths(h1, h2, root)
    ensures KeepsPaths(h, h2, root)
  {
    hide Walk, TableAt;
    KeepsThen(h, h1, h2, root);
  }

  /** What one step of a map request did, in every respect. */
  ghost predicate LeafMapped(h: Heap, pos: map<nat, Pos>, free: set<nat>, h': Heap, pos': map<nat, Pos>, free': set<nat>,
                             roots: map<nat, nat>, d: nat, v: nat, p: nat, flags: Flags, r: Errno, level: nat)
    requires d in roots
  {
    && Grown(h, free, h', free') && MapOutcome(h, h', roots, d, v, p, flags, r, level)
    && MapTidy(h, pos, h', pos', roots, d, v, flags, r) && MapTouches(h, pos, h', pos', roots[d], d, v, r, level)
  }

  lemma MappedAlready(h: Heap, pos: map<nat, Pos>, free: set<nat>, roots: map<nat, nat>, d: nat, v: nat, p: nat, flags: Flags)
    requires d in roots && v < PAGES && Walk(h, roots[d], 4, v).Leaf?
    ensures LeafMapped(h, pos, free, h, pos, free, roots, d, v, p, flags, EEXIST, 0)
  {
    hide Walk, SameWalks, MapTidy, MapTouches;
    Unchanged(h, free, roots);
    TidySame(h, pos, roots, d, v, flags);
    TouchesNothing(h, pos, roots[d], d, v, EEXIST);
  }

  lemma MappedNot(h: Heap, pos: map<nat, Pos>, free: set<nat>, h': Heap, pos': map<nat, Pos>, free': set<nat>,
                  roots: map<nat, nat>, d: nat, v: nat, p: nat, flags: Flags, top: nat)
    requires d in roots && TableAdded(h, pos, free, h', pos', free', roots, d, v, top) && Walk(h, roots[d], 4, v).NoLeaf?
    ensures LeafMapped(h, pos, free, h', pos', free', roots, d, v, p, flags, ENOMEM, 0)
  {
    hide Walk, SameWalks, KeepsPaths, OnlyIn, NoneOrphaned, LeanFrom, TableAt, LeanDir;
  }

  lemma MappedLarge(h: Heap, pos: map<nat, Pos>, free: set<nat>, h': Heap, pos': map<nat, Pos>, free': set<nat>,
                    roots: map<nat, nat>, d: nat, v: nat, p: nat, flags: Flags, level: nat)
    requires d in roots && 2 <= level <= 3 && flags.large && Grown(h, free, h', free')
    requires Installed(h, h', roots, d, v, p, Span(level), flags) && AtLevel(h', roots[d], v, Span(level), level)
    requires OnlyIn(h, pos, h', pos', d) && Overlaid(h, pos, h', pos', TableAt(h, roots[d], level - 1, v))
    ensures LeafMapped(h, pos, free, h', pos', free', roots, d, v, p, flags, Ok, level)
  {
    hide Walk, Installed, AtLevel, OnlyIn, Overlaid, TableAt;
  }

  lemma MappedSmall(h: Heap, pos: map<nat, Pos>, free: set<nat>, h': Heap, pos': map<nat, Pos>, free': set<nat>,
                    roots: map<nat, nat>, d: nat, v: nat, p: nat, flags: Flags)
    requires d in roots && Grown(h, free, h', free') && Walk(h, roots[d], 4, v).NoLeaf?
    requires Installed(h, h', roots, d, v, p, Span(1), flags) && AtLevel(h', roots[d], v, Span(1), 1)
    requires KeepsPaths(h, h', roots[d]) && (LeanFrom(h, pos, roots, d, v, 1) ==> LeanDir(h', pos', roots, d))
    requires OnlyIn(h, pos, h', pos', d) && Overlaid(h, pos, h', pos', TableAt(h, roots[d], 0, v))
    ensures LeafMapped(h, pos, free, h', pos', free', roots, d, v, p, flags, Ok, 1)
  {
    hide Walk, Installed, AtLevel, OnlyIn, Overlaid, TableAt, KeepsPaths, LeanFrom, LeanDir;
  }

  lemma MappedAfter(h: Heap, pos: map<nat, Pos>, free: set<nat>, h1: Heap, pos1: map<nat, Pos>, free1: set<nat>,
                    h2: Heap, pos2: map<nat, Pos>, free2: set<nat>,
                    roots: map<nat, nat>, d: nat, v: nat, p: nat, flags: Flags, r: Errno, level: nat, top: nat)
    requires d in roots && v < PAGES && Shape(h1, pos1, roots)
    requires TableAdded(h, pos, free, h1, pos1, free1, roots, d, v, top)
    requires LeafMapped(h1, pos1, free1, h2, pos2, free2, roots, d, v, p, flags, r, level) && (r == Ok ==> level <= top)
    ensures LeafMapped(h, pos, free, h2, pos2, free2, roots, d, v, p, flags, r, level)
    ensures Walk(h1, roots[d], 4, v) == Walk(h, roots[d], 4, v)
  {
    hide Shape, Walk, SameWalks, KeepsPaths, OnlyIn, NoneOrphaned, LeanFrom, TableAt, MapTidy, MapTouches, MapOutcome, LeanDir;
    GrownThen(h, free, h1, free1, h2, free2);
    SameWalkAt(h, h1, roots, d, v);
    TouchesAfter(h, pos, free, h1, pos1, free1, h2, pos2, roots, d, v, r, level, top);
    TidyAfter(h, pos, h1, pos1, h2, pos2, roots, d, v, flags, r);
    OutcomeAfter(h, h1, h2, roots, d, v, p, flags, r, level);
  }

  lemma MappedFacts(h: Heap, pos: map<nat, Pos>, free: set<nat>, h': Heap, pos': map<nat, Pos>, free': set<nat>,
                    roots: map<nat, nat>, d: nat, v: nat, p: nat, flags: Flags, r: Errno, level: nat)
    requires d in roots && LeafMapped(h, pos, free, h', pos', free', roots, d, v, p, flags, r, level)
    ensures MapOutcome(h, h', roots, d, v, p, flags, r, level)
    ensures r == Ok || r == EEXIST || r == ENOMEM
  {
    hide Walk, MapTidy, MapTouches, Grown, MapOutcome;
    StepLevel(h, h', roots, d, v, p, flags, r, level);
  }

  lemma PositionOf(h: Heap, pos: map<nat, Pos>, roots: map<nat, nat>, d: nat, level: nat, v: nat)
    requires Shape(h, pos, roots) && d in roots && v < PAGES && 1 <= level <= 4 && TableAt(h, roots[d], level, v).Some?
    ensures var f := TableAt(h, roots[d], level, v).value; f in h && f in pos && pos[f].dir == d && pos[f].level == level
  {
    hide TableAt, Walk;
    OnTreeAt(h, pos, roots, d, level, v);
  }

  /** What a map request does to the tables: it takes them from the free frames, touches those of `d`
      only and, without large pages, orphans none and (if `kept`) leaves none idle. */
  ghost predicate RangeTables(h: Heap, pos: map<nat, Pos>, free: set<nat>, h': Heap, pos': map<nat, Pos>, free': set<nat>,
                              roots: map<nat, nat>, d: nat, flags: Flags, kept: bool)
    requires d in roots
  {
    && Grown(h, free, h', free') && OnlyIn(h, pos, h', pos', d)
    && (!flags.large ==> NoneOrphaned(h, pos, h', pos') && TidyRange(h, pos, h', pos', roots, d, kept))
  }

  lemma RangeTablesStart(h: Heap, pos: map<nat, Pos>, free: set<nat>, roots: map<nat, nat>, d: nat, flags: Flags)
    requires d in roots
    ensures RangeTables(h, pos, free, h, pos, free, roots, d, flags, true)
  {
    hide TidyRange, OnlyIn, NoneOrphaned;
    Unchanged(h, free, roots);
    TidyRangeStart(h, pos, roots, d);
    OnlySame(h, pos, d);
    OrphanNone(h, pos);
  }

  lemma RangeTablesThen(h: Heap, pos: map<nat, Pos>, free: set<nat>, h1: Heap, pos1: map<nat, Pos>, free1: set<nat>,
                        h2: Heap, pos2: map<nat, Pos>, free2: set<nat>,
                        roots: map<nat, nat>, d: nat, v: nat, p: nat, i: nat, flags: Flags, r: Errno, level: nat)
    requires d in roots && Shape(h1, pos1, roots) && MapProgress(h, h1, roots, d, v, p, i, flags)
    requires RangeTables(h, pos, free, h1, pos1, free1, roots, d, flags, true)
    requires LeafMapped(h1, pos1, free1, h2, pos2, free2, roots, d, v + i, p + i, flags, r, level)
    ensures RangeTables(h, pos, free, h2, pos2, free2, roots, d, flags, r != ENOMEM)
  {
    hide TidyRange, OnlyIn, NoneOrphaned, MapTidy, MapProgress, MapOutcome, Walk, TableAt, Overlaid;
    StepLevel(h1, h2, roots, d, v + i, p + i, flags, r, level);
    GrownThen(h, free, h1, free1, h2, free2);
    OnlyThen(h, pos, h1, pos1, h2, pos2, d);
    if !flags.large {
      TouchesSmall(h1, pos1, h2, pos2, roots[d], d, v + i, r, level);
      OrphanThen(h, pos, h1, pos1, h2, pos2);
      TidyRangeMap(h, pos, h1, pos1, h2, pos2, roots, d, v, p, i, flags, r);
    }
  }

  lemma PruneThen(h: Heap, pos: map<nat, Pos>, h1: Heap, pos1: map<nat, Pos>, h2: Heap, pos2: map<nat, Pos>, roots: map<nat, nat>, d: nat)
    requires d in roots && Shape(h1, pos1, roots) && SameWalks(h, h1, roots) && SameWalks(h1, h2, roots)
    requires Shrunk(h, pos, h1, pos1, d) && Shrunk(h1, pos1, h2, pos2, d)
    requires KeepsPaths(h, h1, roots[d]) && KeepsPaths(h1, h2, roots[d])
    ensures Shrunk(h, pos, h2, pos2, d) && KeepsPaths(h, h2, roots[d]) && SameWalks(h, h2, roots)
  {
    hide Shrunk, TableAt, Walk, Shape;
    ShrunkThen(h, pos, h1, pos1, h2, pos2, roots, d);
    KeepsThen(h, h1, h2, roots[d]);
  }

  /** What an unmap request does to frames and tables: all stay accounted for, tables of `d` only are
      freed, none is orphaned and, in a directory of 4K pages, none falls idle. */
  ghost predicate UnmapTables(h: Heap, pos: map<nat, Pos>, free: set<nat>, data: map<nat, Page>,
                              h': Heap, pos': map<nat, Pos>, free': set<nat>, data': map<nat, Page>, roots: map<nat, nat>, d: nat)
    requires d in roots
  {
    && Kept(h, free, data, h', free', data') && Shrunk(h, pos, h', pos', d)
    && (FourK(h, roots[d]) ==> TidyRange(h, pos, h', pos', roots, d, true))
  }

  lemma UnmapTablesStart(h: Heap, pos: map<nat, Pos>, free: set<nat>, data: map<nat, Page>, roots: map<nat, nat>, d: nat)
    requires d in roots
    ensures UnmapTables(h, pos, free, data, h, pos, free, data, roots, d)
  {
    hide Shrunk, TidyRange, FourK, Kept;
    KeptSame(h, free, data);
    ShrunkSame(h, pos, d);
    TidyRangeStart(h, pos, roots, d);
  }

  lemma UnmapTablesThen(h: Heap, pos: map<nat, Pos>, free: set<nat>, data: map<nat, Page>,
                        h1: Heap, pos1: map<nat, Pos>, free1: set<nat>, data1: map<nat, Page>,
                        h2: Heap, pos2: map<nat, Pos>, free2: set<nat>, data2: map<nat, Page>,
                        roots: map<nat, nat>, d: nat, v: nat, freePhys: bool, i: nat, level: nat, to: nat)
    requires d in roots && v + i < PAGES && Shape(h1, pos1, roots)
    requires UnmapTables(h, pos, free, data, h1, pos1, free1, data1, roots, d)
    requires Kept(h1, free1, data1, h2, free2, data2) && Shrunk(h1, pos1, h2, pos2, d)
    requires UnmapProgress(h, data, h1, data1, roots, d, v, freePhys, i, to)
    requires level == if Walk(h1, roots[d], 4, v + i).Leaf? then Walk(h1, roots[d], 4, v + i).level else 0
    requires Cleared(h1, h2, roots, d, v + i, Span(level))
    requires level <= 1 ==> TidyRange(h1, pos1, h2, pos2, roots, d, true)
    ensures UnmapTables(h, pos, free, data, h2, pos2, free2, data2, roots, d)
  {
    hide Shrunk, TidyRange, FourK, Kept, Walk, UnmapProgress, Cleared, Shape;
    KeptThen(h, free, data, h1, free1, data1, h2, free2, data2);
    ShrunkThen(h, pos, h1, pos1, h2, pos2, roots, d);
    if FourK(h, roots[d]) {
      TidyRangeUnmap(h, pos, data, h1, pos1, data1, h2, pos2, roots, d, v, freePhys, i, level, to);
    }
  }

  lemma UnmapFacts(h: Heap, pos: map<nat, Pos>, free: set<nat>, data: map<nat, Page>,
                   h': Heap, pos': map<nat, Pos>, free': set<nat>, data': map<nat, Page>, roots: map<nat, nat>, d: nat)
    requires d in roots && Shape(h, pos, roots) && UnmapTables(h, pos, free, data, h', pos', free', data', roots, d)
    ensures FourK(h, roots[d]) ==> KeepsLean(h, pos, roots, h', pos', roots)
    ensures OthersLean(h, pos, h', pos', roots, d)
  {
    hide Kept, FourK, OnlyIn, NoneOrphaned, LeanDir, KeepsPaths, Shape;
    OthersStayLean(h, pos, h', pos', roots, d);
    if FourK(h, roots[d]) {
      LeanKept(h, pos, roots, h', pos', roots, d);
    }
  }

  // ----- all directories -----

  /** Directories without idle tables stay without. */
  ghost predicate KeepsLean(h: Heap, pos: map<nat, Pos>, roots: map<nat, nat>, h': Heap, pos': map<nat, Pos>, roots': map<nat, nat>) {
    forall e | e in roots && e in roots' && LeanDir(h, pos, roots, e) :: LeanDir(h', pos', roots', e)
  }

  /** The same for all directories but `d`, whatever became of that one. */
  ghost predicate OthersLean(h: Heap, pos: map<nat, Pos>, h': Heap, pos': map<nat, Pos>, roots: map<nat, nat>, d: nat) {
    forall e | e in roots && e != d && LeanDir(h, pos, roots, e) :: LeanDir(h', pos', roots, e)
  }

  lemma OthersLeanSame(h: Heap, pos: map<nat, Pos>, roots: map<nat, nat>, d: nat)
    ensures OthersLean(h, pos, h, pos, roots, d)
  {
  }

  lemma OthersStayLean(h: Heap, pos: map<nat, Pos>, h': Heap, pos': map<nat, Pos>, roots: map<nat, nat>, d: nat)
    requires Shape(h, pos, roots) && OnlyIn(h, pos, h', pos', d)
    ensures OthersLean(h, pos, h', pos', roots, d)
  {
    hide Shape, LeanDir, OnlyIn;
    forall e | e in roots && e != d && LeanDir(h, pos, roots, e) ensures LeanDir(h', pos', roots, e) {
      OnlyLean(h, pos, roots, h', pos', roots, d, e);
    }
  }

  /** No live directory has an idle table. */
  ghost predicate AllLean(h: Heap, pos: map<nat, Pos>, roots: map<nat, nat>) {
    forall e | e in roots :: LeanDir(h, pos, roots, e)
  }

  /** An operation on directory `d` does not make another one's tables idle. */
  lemma OnlyLean(h: Heap, pos: map<nat, Pos>, roots: map<nat, nat>, h': Heap, pos': map<nat, Pos>, roots': map<nat, nat>, d: nat, e: nat)
    requires Shape(h, pos, roots) && OnlyIn(h, pos, h', pos', d) && e != d
    requires e in roots && e in roots' && roots'[e] == roots[e] && LeanDir(h, pos, roots, e)
    ensures LeanDir(h', pos', roots', e)
  {
    hide Shape, Walk, TableAt;
    forall g | g in h' && g in pos' && pos'[g].dir == e && pos'[g].level < 4 ensures Used(h', pos', roots', g) {
      Bounds(h, pos, roots, g);
      var w: nat :| UsedBy(h, pos, roots, g, w);
      OnlyWalks(h, pos, h', pos', roots, d, e, w, pos[g].level);
      assert UsedBy(h', pos', roots', g, w);
    }
  }

  lemma LeanKept(h: Heap, pos: map<nat, Pos>, roots: map<nat, nat>, h': Heap, pos': map<nat, Pos>, roots': map<nat, nat>, d: nat)
    requires Shape(h, pos, roots) && OnlyIn(h, pos, h', pos', d)
    requires forall e | e in roots && e in roots' :: roots'[e] == roots[e]
    requires d in roots && d in roots' && LeanDir(h, pos, roots, d) ==> LeanDir(h', pos', roots', d)
    ensures KeepsLean(h, pos, roots, h', pos', roots')
  {
    hide Shape, LeanDir, OnlyIn;
    forall e | e in roots && e in roots' && LeanDir(h, pos, roots, e) ensures LeanDir(h', pos', roots', e) {
      if e != d {
        OnlyLean(h, pos, roots, h', pos', roots', d, e);
      }
    }
  }

  lemma KeepsLeanSame(h: Heap, pos: map<nat, Pos>, roots: map<nat, nat>)
    ensures KeepsLean(h, pos, roots, h, pos, roots)
  {
  }

  lemma KeptAt(h: Heap, pos: map<nat, Pos>, roots: map<nat, nat>, h': Heap, pos': map<nat, Pos>, roots': map<nat, nat>, e: nat)
    requires KeepsLean(h, pos, roots, h', pos', roots')
    ensures e in roots && e in roots' && LeanDir(h, pos, roots, e) ==> LeanDir(h', pos', roots', e)
  {
    hide LeanDir;
  }

  lemma KeepsLeanThen(h: Heap, pos: map<nat, Pos>, roots: map<nat, nat>, h1: Heap, pos1: map<nat, Pos>, roots1: map<nat, nat>,
                      h2: Heap, pos2: map<nat, Pos>, roots2: map<nat, nat>)
    requires KeepsLean(h, pos, roots, h1, pos1, roots1) && KeepsLean(h1, pos1, roots1, h2, pos2, roots2)
    requires roots.Keys * roots2.Keys <= roots1.Keys
    ensures KeepsLean(h, pos, roots, h2, pos2, roots2)
  {
    hide LeanDir;
    forall e | e in roots && e in roots2 && LeanDir(h, pos, roots, e) ensures LeanDir(h2, pos2, roots2, e) {
      assert e in roots.Keys * roots2.Keys;
    }
  }

  lemma RangeFacts(h: Heap, pos: map<nat, Pos>, free: set<nat>, h': Heap, pos': map<nat, Pos>, free': set<nat>,
                   roots: map<nat, nat>, d: nat, flags: Flags, kept: bool)
    requires d in roots && Shape(h, pos, roots) && RangeTables(h, pos, free, h', pos', free', roots, d, flags, kept)
    ensures free' !! h'.Keys ==> free' <= free
    ensures kept && !flags.large ==> KeepsLean(h, pos, roots, h', pos', roots)
    ensures OthersLean(h, pos, h', pos', roots, d)
  {
    hide OnlyIn, NoneOrphaned, LeanDir, KeepsPaths, Shape;
    OthersStayLean(h, pos, h', pos', roots, d);
    if kept && !flags.large {
      LeanKept(h, pos, roots, h', pos', roots, d);
    }
  }

  /** No directory has an idle table after, if none had before. */
  ghost predicate StaysLean(h: Heap, pos: map<nat, Pos>, roots: map<nat, nat>, h': Heap, pos': map<nat, Pos>, roots': map<nat, nat>) {
    AllLean(h, pos, roots) ==> AllLean(h', pos', roots')
  }

  lemma LeanStays(h: Heap, pos: map<nat, Pos>, roots: map<nat, nat>, h': Heap, pos': map<nat, Pos>, roots': map<nat, nat>)
    requires KeepsLean(h, pos, roots, h', pos', roots')
    requires forall e | e in roots' && e !in roots :: LeanDir(h', pos', roots', e)
    ensures StaysLean(h, pos, roots, h', pos', roots')
  {
    hide LeanDir;
    if AllLean(h, pos, roots) {
      forall e | e in roots' ensures LeanDir(h', pos', roots', e) {
        KeptAt(h, pos, roots, h', pos', roots', e);
      }
    }
  }
}
