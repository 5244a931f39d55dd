/** Which table frames an operation touches, orphans and frees. */
module TableChanges {
  import opened Wrappers
  import opened PageForest

  // ----- the tables of the other directories -----

  /** Tables of directories other than `d` are what and where they were, and there are no new ones. */
  ghost predicate OnlyIn(h: Heap, pos: map<nat, Pos>, h': Heap, pos': map<nat, Pos>, d: nat) {
    && (forall g | g in h && g in pos && pos[g].dir != d :: g in h' && g in pos' && pos'[g] == pos[g] && h'[g] == h[g])
    && (forall g | g in h' && g in pos' && pos'[g].dir != d :: g in h && g in pos && pos[g].dir == pos'[g].dir)
  }

  lemma OnlySame(h: Heap, pos: map<nat, Pos>, d: nat)
    ensures OnlyIn(h, pos, h, pos, d)
  {
  }

  lemma OnlyThen(h: Heap, pos: map<nat, Pos>, h1: Heap, pos1: map<nat, Pos>, h2: Heap, pos2: map<nat, Pos>, d: nat)
    requires OnlyIn(h, pos, h1, pos1, d) && OnlyIn(h1, pos1, h2, pos2, d)
    ensures OnlyIn(h, pos, h2, pos2, d)
  {
  }

  lemma AttachOnly(h: Heap, pos: map<nat, Pos>, roots: map<nat, nat>, f: nat, i: nat, c: nat, link: Flags)
    requires Shape(h, pos, roots) && f in h && f in pos && c !in h && i < 512 && pos[f].level >= 1
    ensures OnlyIn(h, pos, Attach(h, f, i, c, link), AttachPos(pos, f, i, c), pos[f].dir)
  {
  }

  lemma SlotOnly(h: Heap, pos: map<nat, Pos>, f: nat, i: nat, e: Entry)
    requires f in h && f in pos && i < 512
    ensures OnlyIn(h, pos, SetSlot(h, f, i, e), pos, pos[f].dir)
  {
  }

  lemma DetachOnly(h: Heap, pos: map<nat, Pos>, roots: map<nat, nat>, f: nat, i: nat, c: nat)
    requires Shape(h, pos, roots) && f in h && f in pos && c in h && i < 512 && f != c
    requires IsTablePtr(h[f][i], pos[f].level) && h[f][i].frame == c
    ensures OnlyIn(h, pos, Detach(h, f, i, c), pos - {c}, pos[f].dir)
  {
    assert Linked(h, pos, f, i);
  }

  lemma NewRootOnly(h: Heap, pos: map<nat, Pos>, d: nat, f: nat)
    requires f !in h && f !in pos
    ensures OnlyIn(h, pos, h[f := EmptyTable()], pos[f := Pos(d, 4, 0, f)], d)
  {
  }

  lemma DropRootOnly(h: Heap, pos: map<nat, Pos>, roots: map<nat, nat>, d: nat)
    requires Shape(h, pos, roots) && d in roots
    ensures OnlyIn(h, pos, h - {roots[d]}, pos - {roots[d]}, d)
  {
  }

  /** Walks of the other directories pass the same tables and end at the same leaves. */
  lemma OnlyWalks(h: Heap, pos: map<nat, Pos>, h': Heap, pos': map<nat, Pos>, roots: map<nat, nat>, d: nat, e: nat, v: nat, l: nat)
    requires Shape(h, pos, roots) && e in roots && e != d && OnlyIn(h, pos, h', pos', d) && v < PAGES && 1 <= l <= 4
    ensures Walk(h', roots[e], 4, v) == Walk(h, roots[e], 4, v)
    ensures TableAt(h', roots[e], l, v) == TableAt(h, roots[e], l, v)
  {
    assert Agree(h, pos, h', e, v, 0);
    WalkAgree(h, pos, h', e, roots[e], v);
    AgreePath(h, pos, h', e, roots[e], v, l);
  }

  // ----- orphans -----

  /** The entry for table `g` is there, in the table it hangs in. */
  ghost predicate Hangs(h: Heap, pos: map<nat, Pos>, g: nat)
    requires g in pos
  {
    var f, i := pos[g].parent, pos[g].base % 512;
    f in h && f in pos && pos[f].level == pos[g].level + 1 && IsTablePtr(h[f][i], pos[f].level) && h[f][i].frame == g
  }

  /** Tables that were hanging and are still there are hanging still. */
  ghost predicate NoneOrphaned(h: Heap, pos: map<nat, Pos>, h': Heap, pos': map<nat, Pos>) {
    forall g | g in h && g in pos && g in h' && g in pos' && Hangs(h, pos, g) :: pos'[g] == pos[g] && Hangs(h', pos', g)
  }

  lemma OrphanNone(h: Heap, pos: map<nat, Pos>)
    ensures NoneOrphaned(h, pos, h, pos)
  {
  }

  lemma OrphanThen(h: Heap, pos: map<nat, Pos>, h1: Heap, pos1: map<nat, Pos>, h2: Heap, pos2: map<nat, Pos>)
    requires NoneOrphaned(h, pos, h1, pos1) && NoneOrphaned(h1, pos1, h2, pos2)
    requires h1.Keys == pos1.Keys && (h.Keys <= h1.Keys || h2.Keys <= h1.Keys)
    ensures NoneOrphaned(h, pos, h2, pos2)
  {
  }

  lemma AttachOrphans(h: Heap, pos: map<nat, Pos>, roots: map<nat, nat>, f: nat, i: nat, c: nat, link: Flags)
    requires Shape(h, pos, roots) && f in h && f in pos && c !in h && i < 512 && pos[f].level >= 1 && !h[f][i].flags.present
    ensures NoneOrphaned(h, pos, Attach(h, f, i, c, link), AttachPos(pos, f, i, c))
  {
  }

  /** Writing an entry that is no table pointer orphans a table exactly when the old entry pointed to one. */
  lemma SlotOrphans(h: Heap, pos: map<nat, Pos>, roots: map<nat, nat>, f: nat, i: nat, e: Entry)
    requires Shape(h, pos, roots) && f in h && f in pos && i < 512 && !IsTablePtr(e, pos[f].level)
    ensures NoneOrphaned(h, pos, SetSlot(h, f, i, e), pos) <==> !IsTablePtr(h[f][i], pos[f].level)
  {
    if IsTablePtr(h[f][i], pos[f].level) {
      assert Linked(h, pos, f, i);
      var c := h[f][i].frame;
      assert pos[c].base % 512 == i;
      assert Hangs(h, pos, c) && !Hangs(SetSlot(h, f, i, e), pos, c);
    }
  }

  /** Freeing a table without present entries orphans none. */
  lemma DetachOrphans(h: Heap, pos: map<nat, Pos>, roots: map<nat, nat>, f: nat, i: nat, c: nat)
    requires Shape(h, pos, roots) && f in h && f in pos && c in h && i < 512 && f != c && IsEmpty(h[c])
    requires IsTablePtr(h[f][i], pos[f].level) && h[f][i].frame == c
    ensures NoneOrphaned(h, pos, Detach(h, f, i, c), pos - {c})
  {
  }

  /** What a leaf written over `below` does: the table there, if any, no longer hangs anywhere; otherwise
      no table is orphaned. */
  ghost predicate Overlaid(h: Heap, pos: map<nat, Pos>, h': Heap, pos': map<nat, Pos>, below: Option<nat>) {
    match below
    case None => NoneOrphaned(h, pos, h', pos')
    case Some(c) => c in h' && c in pos' && !Hangs(h', pos', c)
  }

  lemma OverlaidThen(h: Heap, pos: map<nat, Pos>, h1: Heap, pos1: map<nat, Pos>, h2: Heap, pos2: map<nat, Pos>, below: Option<nat>)
    requires NoneOrphaned(h, pos, h1, pos1) && h1.Keys == pos1.Keys && h.Keys <= h1.Keys
    requires Overlaid(h1, pos1, h2, pos2, below)
    ensures Overlaid(h, pos, h2, pos2, below)
  {
    hide Hangs;
    if below.None? {
      OrphanThen(h, pos, h1, pos1, h2, pos2);
    }
  }

  lemma SlotOverlaid(h: Heap, pos: map<nat, Pos>, roots: map<nat, nat>, d: nat, level: nat, v: nat, f: nat, e: Entry)
    requires Shape(h, pos, roots) && d in roots && v < PAGES && 1 <= level <= 4
    requires TableAt(h, roots[d], level, v) == Some(f) && f in h && !IsTablePtr(e, level)
    ensures Overlaid(h, pos, SetSlot(h, f, Index(v, level), e), pos, TableAt(h, roots[d], level - 1, v))
  {
    TableAtPos(h, pos, d, roots[d], level, v);
    SlotOrphans(h, pos, roots, f, Index(v, level), e);
    assert Linked(h, pos, f, Index(v, level));
  }

  /** A table still hangs where a walk passes it. */
  lemma WayHangs(h: Heap, pos: map<nat, Pos>, roots: map<nat, nat>, d: nat, level: nat, v: nat)
    requires Shape(h, pos, roots) && d in roots && v < PAGES && 1 <= level < 4 && TableAt(h, roots[d], level, v).Some?
    ensures TableAt(h, roots[d], level, v).value in pos && Hangs(h, pos, TableAt(h, roots[d], level, v).value)
  {
    TableAtPos(h, pos, d, roots[d], level + 1, v);
    var f := TableAt(h, roots[d], level + 1, v).value;
    assert Linked(h, pos, f, Index(v, level + 1));
  }

  /** A leaf written at the level above orphans a table exactly when there was one on the way below it. */
  lemma OrphansExactly(h: Heap, pos: map<nat, Pos>, h': Heap, pos': map<nat, Pos>, roots: map<nat, nat>, d: nat, level: nat, v: nat)
    requires Shape(h, pos, roots) && d in roots && v < PAGES && 1 <= level < 4
    requires Overlaid(h, pos, h', pos', TableAt(h, roots[d], level, v))
    ensures NoneOrphaned(h, pos, h', pos') <==> TableAt(h, roots[d], level, v).None?
  {
    hide TableAt, Hangs;
    if TableAt(h, roots[d], level, v).Some? {
      WayHangs(h, pos, roots, d, level, v);
      TableAtPos(h, pos, d, roots[d], level, v);
    }
  }

  /** Below a table without entries there is none. */
  lemma {:induction false} EmptyBelow(h: Heap, root: nat, level: nat, v: nat, c: nat, l: nat)
    requires TableAt(h, root, level, v) == Some(c) && c in h && IsEmpty(h[c]) && l < level <= 4
    ensures TableAt(h, root, l, v).None?
    decreases level - l
  {
    if l + 1 < level {
      EmptyBelow(h, root, level, v, c, l + 1);
    }
  }

  /** Below an absent entry there is none. */
  lemma {:induction false} AbsentBelow(h: Heap, root: nat, level: nat, v: nat, f: nat, l: nat)
    requires TableAt(h, root, level, v) == Some(f) && f in h && !h[f][Index(v, level)].flags.present && l < level <= 4 && 1 <= level
    ensures TableAt(h, root, l, v).None?
    decreases level - l
  {
    if l + 1 < level {
      AbsentBelow(h, root, level, v, f, l + 1);
    }
  }

  /** Tables of `d` may have been freed; none was orphaned, and no other directory touched. */
  ghost predicate Shrunk(h: Heap, pos: map<nat, Pos>, h': Heap, pos': map<nat, Pos>, d: nat) {
    OnlyIn(h, pos, h', pos', d) && NoneOrphaned(h, pos, h', pos') && h'.Keys <= h.Keys
  }

  lemma ShrunkSame(h: Heap, pos: map<nat, Pos>, d: nat)
    ensures Shrunk(h, pos, h, pos, d)
  {
    OnlySame(h, pos, d);
    OrphanNone(h, pos);
  }

  lemma ShrunkThen(h: Heap, pos: map<nat, Pos>, h1: Heap, pos1: map<nat, Pos>, h2: Heap, pos2: map<nat, Pos>, roots: map<nat, nat>, d: nat)
    requires Shrunk(h, pos, h1, pos1, d) && Shrunk(h1, pos1, h2, pos2, d) && Shape(h1, pos1, roots)
    ensures Shrunk(h, pos, h2, pos2, d)
  {
    hide OnlyIn, NoneOrphaned;
    OnlyThen(h, pos, h1, pos1, h2, pos2, d);
    OrphanThen(h, pos, h1, pos1, h2, pos2);
  }

  lemma DetachShrinks(h: Heap, pos: map<nat, Pos>, roots: map<nat, nat>, f: nat, i: nat, c: nat)
    requires Shape(h, pos, roots) && f in h && f in pos && c in h && i < 512 && f != c && IsEmpty(h[c])
    requires IsTablePtr(h[f][i], pos[f].level) && h[f][i].frame == c
    ensures Shrunk(h, pos, Detach(h, f, i, c), pos - {c}, pos[f].dir)
  {
    hide OnlyIn, NoneOrphaned, Detach;
    DetachOnly(h, pos, roots, f, i, c);
    DetachOrphans(h, pos, roots, f, i, c);
  }

  lemma StoreShrinks(h: Heap, pos: map<nat, Pos>, h': Heap, d: nat)
    requires OnlyIn(h, pos, h', pos, d) && Overlaid(h, pos, h', pos, None) && h'.Keys == h.Keys
    ensures Shrunk(h, pos, h', pos, d)
  {
  }

  // ----- tables freed by an unmap -----

  /** The table holds no present entry, except perhaps in slot `i`. */
  ghost predicate EmptyBut(t: Table, i: nat) {
    forall j | 0 <= j < 512 && j != i :: !t[j].flags.present
  }

  /** The tables on the way to `v` from the given level up, below the root, that have nothing to carry
      once the entry in slot `i` of the first one is gone: each holds that entry only, the next one only
      the pointer to it, and so on. */
  ghost function Idle(h: Heap, root: nat, level: nat, v: nat, i: nat): set<nat>
    decreases 4 - level
  {
    if level >= 4 then {}
    else
      match TableAt(h, root, level, v)
      case None => {}
      case Some(c) =>
        if c in h && EmptyBut(h[c], i) then {c} + Idle(h, root, level + 1, v, Index(v, level + 1)) else {}
  }

  /** Clearing the slot in question, in whichever way, leaves the same tables to free. */
  lemma {:induction false} IdleAbove(h: Heap, h': Heap, root: nat, level: nat, v: nat, i: nat)
    requires 1 <= level
    requires forall l: nat | level <= l <= 4 :: TableAt(h', root, l, v) == TableAt(h, root, l, v)
    requires forall l: nat | level <= l < 4 && TableAt(h, root, l, v).Some? ::
               var g := TableAt(h, root, l, v).value; g in h && g in h' && h'[g] == h[g]
    ensures Idle(h', root, level, v, i) == Idle(h, root, level, v, i)
    decreases 4 - level
  {
    hide TableAt;
    if level < 4 && TableAt(h, root, level, v).Some? {
      IdleAbove(h, h', root, level + 1, v, Index(v, level + 1));
    }
  }

  lemma IdleCleared(h: Heap, h': Heap, root: nat, level: nat, v: nat)
    requires 1 <= level < 4 && TableAt(h, root, level, v).Some?
    requires forall l: nat | level <= l <= 4 :: TableAt(h', root, l, v) == TableAt(h, root, l, v)
    requires var f := TableAt(h, root, level, v).value;
             f in h && f in h' && h'[f] == h[f][Index(v, level) := NO_ENTRY]
    requires forall l: nat | level < l < 4 && TableAt(h, root, l, v).Some? ::
               var g := TableAt(h, root, l, v).value; g in h && g in h' && h'[g] == h[g]
    ensures Idle(h', root, level, v, 512) == Idle(h, root, level, v, Index(v, level))
  {
    hide TableAt;
    IdleAbove(h, h', root, level + 1, v, Index(v, level + 1));
    EmptyCleared(h[TableAt(h, root, level, v).value], Index(v, level));
  }

  lemma EmptyCleared(t: Table, i: nat)
    requires i < 512
    ensures EmptyBut(t[i := NO_ENTRY], 512) <==> EmptyBut(t, i)
  {
    var t' := t[i := NO_ENTRY];
    assert forall j | 0 <= j < 512 :: t'[j] == if j == i then NO_ENTRY else t[j];
  }

  /** Tables on one way are different tables. */
  lemma WayApart(h: Heap, pos: map<nat, Pos>, roots: map<nat, nat>, d: nat, v: nat, l: nat, l': nat)
    requires Shape(h, pos, roots) && d in roots && v < PAGES && 1 <= l <= 4 && 1 <= l' <= 4 && l != l'
    requires TableAt(h, roots[d], l, v).Some? && TableAt(h, roots[d], l', v).Some?
    ensures TableAt(h, roots[d], l, v) != TableAt(h, roots[d], l', v)
    ensures TableAt(h, roots[d], l, v).value in h && TableAt(h, roots[d], l', v).value in h
  {
    TableAtPos(h, pos, d, roots[d], l, v);
    TableAtPos(h, pos, d, roots[d], l', v);
  }

  lemma IdleStored(h: Heap, pos: map<nat, Pos>, roots: map<nat, nat>, d: nat, level: nat, v: nat, f: nat)
    requires Shape(h, pos, roots) && d in roots && v < PAGES && 1 <= level < 4 && TableAt(h, roots[d], level, v) == Some(f) && f in h
    requires forall l: nat | level <= l <= 4 ::
               TableAt(SetSlot(h, f, Index(v, level), NO_ENTRY), roots[d], l, v) == TableAt(h, roots[d], l, v)
    ensures Idle(SetSlot(h, f, Index(v, level), NO_ENTRY), roots[d], level, v, 512) == Idle(h, roots[d], level, v, Index(v, level))
  {
    hide TableAt, Shape;
    forall l: nat | level < l < 4 && TableAt(h, roots[d], l, v).Some?
      ensures var g := TableAt(h, roots[d], l, v).value; g in h && g != f
    {
      WayApart(h, pos, roots, d, v, l, level);
    }
    IdleCleared(h, SetSlot(h, f, Index(v, level), NO_ENTRY), roots[d], level, v);
  }

  lemma IdleDetached(h: Heap, pos: map<nat, Pos>, roots: map<nat, nat>, d: nat, level: nat, v: nat, f: nat, c: nat)
    requires Shape(h, pos, roots) && d in roots && v < PAGES && 2 <= level <= 4
    requires TableAt(h, roots[d], level, v) == Some(f) && TableAt(h, roots[d], level - 1, v) == Some(c) && f in h && f != c
    requires forall l: nat | level <= l <= 4 ::
               TableAt(Detach(h, f, Index(v, level), c), roots[d], l, v) == TableAt(h, roots[d], l, v)
    ensures Idle(Detach(h, f, Index(v, level), c), roots[d], level, v, 512) == Idle(h, roots[d], level, v, Index(v, level))
  {
    hide TableAt, Shape;
    if level < 4 {
      forall l: nat | level < l < 4 && TableAt(h, roots[d], l, v).Some?
        ensures var g := TableAt(h, roots[d], l, v).value; g in h && g != f && g != c
      {
        WayApart(h, pos, roots, d, v, l, level);
        WayApart(h, pos, roots, d, v, l, level - 1);
      }
      IdleCleared(h, Detach(h, f, Index(v, level), c), roots[d], level, v);
    }
  }

  lemma IdleAtRoot(h: Heap, root: nat, v: nat, i: nat)
    ensures Idle(h, root, 4, v, i) == {}
  {
  }

  /** A leaf has no table below it. */
  lemma BelowLeaf(h: Heap, root: nat, level: nat, v: nat, f: nat)
    requires 1 <= level <= 4 && TableAt(h, root, level, v) == Some(f) && f in h && !IsTablePtr(h[f][Index(v, level)], level)
    ensures TableAt(h, root, level - 1, v).None?
  {
  }

  /** One table freed, and the rest above it. */
  lemma IdleStep(h: Heap, root: nat, level: nat, v: nat, c: nat)
    requires 1 <= level < 4 && TableAt(h, root, level, v) == Some(c) && c in h
    ensures Idle(h, root, level, v, 512) == if IsEmpty(h[c]) then {c} + Idle(h, root, level + 1, v, Index(v, level + 1)) else {}
  {
    hide TableAt;
    assert IsEmpty(h[c]) <==> EmptyBut(h[c], 512);
  }

  lemma AttachBelow(h: Heap, pos: map<nat, Pos>, roots: map<nat, nat>, d: nat, level: nat, v: nat, f: nat, c: nat, link: Flags)
    requires Shape(h, pos, roots) && d in roots && v < PAGES && 2 <= level <= 4
    requires TableAt(h, roots[d], level, v) == Some(f) && f in h && c !in h && !h[f][Index(v, level)].flags.present
    requires TableAt(Attach(h, f, Index(v, level), c, link), roots[d], level - 1, v) == Some(c)
    ensures forall l: nat | l < level - 1 ::
              TableAt(Attach(h, f, Index(v, level), c, link), roots[d], l, v) == TableAt(h, roots[d], l, v)
  {
    hide TableAt, Shape;
    var h' := Attach(h, f, Index(v, level), c, link);
    forall l: nat | l < level - 1 ensures TableAt(h', roots[d], l, v) == TableAt(h, roots[d], l, v) {
      AbsentBelow(h, roots[d], level, v, f, l);
      EmptyBelow(h', roots[d], level - 1, v, c, l);
    }
  }
}
