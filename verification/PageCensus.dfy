/** Counting the pages below a table, slot by slot. */
module PageCensus {
  import opened PageForest
  import opened PagingSteps
  import opened Translation

  /** The flags and alignment `validate_page_tables` asks of a leaf. */
  predicate LeafOk(leaf: Leaf)
    requires leaf.Leaf?
  {
    && !(leaf.entry.flags.cow && leaf.entry.flags.writable)
    && (leaf.level == 1 ==> !leaf.entry.flags.large)
    && (leaf.level > 1 ==> leaf.entry.frame % Span(leaf.level) == 0)
  }

  /** The pages mapped below table `f`, which serves prefix `base`. */
  ghost function PagesUnder(h: Heap, f: nat, level: nat, base: nat): set<nat> {
    set v: nat | v < PAGES && Up(v, level) == base && Walk(h, f, level, v).Leaf?
  }

  ghost predicate AllOkUnder(h: Heap, f: nat, level: nat, base: nat) {
    forall v | v in PagesUnder(h, f, level, base) :: LeafOk(Walk(h, f, level, v))
  }

  /** Those of them that go through the slots before `j`. */
  ghost function PagesBefore(h: Heap, f: nat, level: nat, base: nat, j: nat): set<nat>
    requires level >= 1
  {
    set v: nat | v < PAGES && Up(v, level) == base && Walk(h, f, level, v).Leaf? && Up(v, level - 1) < base * 512 + j
  }

  ghost predicate AllOkBefore(h: Heap, f: nat, level: nat, base: nat, j: nat)
    requires level >= 1
  {
    forall v | v in PagesBefore(h, f, level, base, j) :: LeafOk(Walk(h, f, level, v))
  }

  /** Those that go through slot `j`. */
  ghost function PagesThrough(h: Heap, f: nat, level: nat, base: nat, j: nat): set<nat>
    requires level >= 1
  {
    set v: nat | v < PAGES && Up(v, level - 1) == base * 512 + j && Walk(h, f, level, v).Leaf?
  }

  /** Number of prefixes a table of the given level can serve. */
  function Prefixes(level: nat): nat {
    if level == 4 then 1 else if level == 3 then 512 else if level == 2 then 262144 else 134217728
  }

  lemma BeforeStart(h: Heap, f: nat, level: nat, base: nat)
    requires level >= 1
    ensures PagesBefore(h, f, level, base, 0) == {}
  {
    hide Walk;
    forall v: nat | Up(v, level) == base ensures Up(v, level - 1) >= base * 512 {
    }
  }

  lemma BeforeThen(h: Heap, f: nat, level: nat, base: nat, j: nat)
    requires level >= 1 && j < 512
    ensures PagesBefore(h, f, level, base, j + 1) == PagesBefore(h, f, level, base, j) + PagesThrough(h, f, level, base, j)
    ensures PagesBefore(h, f, level, base, j) !! PagesThrough(h, f, level, base, j)
  {
    hide Walk;
    forall v: nat | Up(v, level - 1) == base * 512 + j ensures Up(v, level) == base {
    }
  }

  lemma BeforeEnd(h: Heap, f: nat, level: nat, base: nat)
    requires level >= 1
    ensures PagesBefore(h, f, level, base, 512) == PagesUnder(h, f, level, base)
  {
    hide Walk;
    forall v: nat | Up(v, level) == base ensures Up(v, level - 1) < base * 512 + 512 {
    }
  }

  lemma ThroughNothing(h: Heap, f: nat, level: nat, base: nat, j: nat)
    requires 1 <= level <= 4 && f in h && j < 512 && !h[f][j].flags.present
    ensures PagesThrough(h, f, level, base, j) == {}
  {
    forall v: nat | Up(v, level - 1) == base * 512 + j ensures Walk(h, f, level, v).NoLeaf? {
      assert Index(v, level) == j;
    }
  }

  lemma ThroughTable(h: Heap, f: nat, level: nat, base: nat, j: nat)
    requires 2 <= level <= 4 && f in h && j < 512 && IsTablePtr(h[f][j], level)
    ensures PagesThrough(h, f, level, base, j) == PagesUnder(h, h[f][j].frame, level - 1, base * 512 + j)
    ensures forall v | v in PagesThrough(h, f, level, base, j) :: Walk(h, f, level, v) == Walk(h, h[f][j].frame, level - 1, v)
  {
    forall v: nat | Up(v, level - 1) == base * 512 + j
      ensures Walk(h, f, level, v) == Walk(h, h[f][j].frame, level - 1, v)
    {
      assert Index(v, level) == j;
    }
  }

  /** The first page of the leaf in slot `j`. */
  function LeafStart(level: nat, base: nat, j: nat): nat {
    (base * 512 + j) * Span(level)
  }

  lemma LeafStartUp(level: nat, base: nat, j: nat)
    requires 1 <= level <= 3 && base < Prefixes(level) && j < 512
    ensures Low(LeafStart(level, base, j), level) == 0
    ensures Up(LeafStart(level, base, j), level - 1) == base * 512 + j
    ensures LeafStart(level, base, j) + Span(level) <= PAGES
  {
    var k := base * 512 + j;
    if level == 2 {
      assert k * 512 / 512 == k && k * 512 % 512 == 0;
      assert Up(k * 512, 1) == k * 512 / 512;
    } else if level == 3 {
      assert k * 262144 / 512 == k * 512 && k * 512 / 512 == k && k * 262144 % 262144 == 0;
      UpTwice(k * 262144);
    }
  }

  lemma ThroughLeafAt(h: Heap, f: nat, level: nat, base: nat, j: nat, v: nat)
    requires 1 <= level <= 3 && f in h && j < 512 && IsLeaf(h[f][j], level) && base < Prefixes(level)
    ensures Up(v, level - 1) == base * 512 + j <==> Within(v, LeafStart(level, base, j), Span(level))
    ensures Up(v, level - 1) == base * 512 + j ==> Walk(h, f, level, v) == Leaf(level, h[f][j])
  {
    LeafStartUp(level, base, j);
    LeafRange(level, LeafStart(level, base, j), v);
    if Up(v, level - 1) == base * 512 + j {
      assert Index(v, level) == j;
    }
  }

  lemma ThroughLeaf(h: Heap, f: nat, level: nat, base: nat, j: nat)
    requires 1 <= level <= 3 && f in h && j < 512 && IsLeaf(h[f][j], level) && base < Prefixes(level)
    ensures |PagesThrough(h, f, level, base, j)| == Span(level)
    ensures LeafStart(level, base, j) in PagesThrough(h, f, level, base, j)
    ensures forall v | v in PagesThrough(h, f, level, base, j) :: Walk(h, f, level, v) == Leaf(level, h[f][j])
  {
    hide Walk, Up, LeafStart, Prefixes;
    var s := LeafStart(level, base, j);
    LeafStartUp(level, base, j);
    forall v: nat | v < PAGES
      ensures v in PagesThrough(h, f, level, base, j) <==> Within(v, s, Span(level))
      ensures v in PagesThrough(h, f, level, base, j) ==> Walk(h, f, level, v) == Leaf(level, h[f][j])
    {
      ThroughLeafAt(h, f, level, base, j, v);
    }
    assert Within(s, s, Span(level));
    assert PagesThrough(h, f, level, base, j) == Frames(s, Span(level));
    FramesCount(s, Span(level));
  }

  /** From the root: the pages of the directory's space. */
  lemma UnderRoot(h: Heap, root: nat)
    ensures PagesUnder(h, root, 4, 0) == SpaceOf(h, root).Keys
  {
    forall v: nat | v < PAGES ensures Up(v, 4) == 0 {
      UpTop(v);
    }
  }

  /** What validation finds: every leaf in order, and the counter equal to the number of pages. */
  ghost predicate Validates(h: Heap, root: nat, counter: nat) {
    LeavesOk(h, root) && counter == |SpaceOf(h, root)|
  }

  /** The same, byte by byte: no entry is both copy-on-write and writable, no 4K entry carries the PAGE_SIZE
      flag, and every page begins at a multiple of its size. */
  ghost predicate InOrder(h: Heap, root: nat) {
    forall b: nat | b < 0x1_0000_0000_0000 && Resolve(h, root, b).Some? ::
      EntryOk(Resolve(h, root, b).value.0, Resolve(h, root, b).value.1)
  }

  ghost predicate EntryOk(e: Entry, size: nat)
    requires size > 0
  {
    && !(e.flags.cow && e.flags.writable)
    && (size == 0x1000 ==> !e.flags.large)
    && e.frame * 0x1000 % size == 0
  }

  lemma EntryIsLeaf(leaf: Leaf)
    requires leaf.Leaf? && 1 <= leaf.level <= 3
    ensures EntryOk(leaf.entry, Span(leaf.level) * 4096) <==> LeafOk(leaf)
  {
    PagesInBytes(leaf.entry.frame);
    assert leaf.entry.frame * 0x1000 % 0x1000 == 0;
  }

  lemma OrderOnBytes(h: Heap, root: nat)
    ensures InOrder(h, root) <==> LeavesOk(h, root)
  {
    hide Walk, Resolve, EntryOk, LeafOk;
    forall b: nat | b < 0x1_0000_0000_0000
      ensures Resolve(h, root, b).Some? <==> Walk(h, root, 4, b / 4096).Leaf?
      ensures Resolve(h, root, b).Some? ==>
                (EntryOk(Resolve(h, root, b).value.0, Resolve(h, root, b).value.1) <==> LeafOk(Walk(h, root, 4, b / 4096)))
    {
      ResolveIsWalk(h, root, b);
      if Walk(h, root, 4, b / 4096).Leaf? {
        EntryIsLeaf(Walk(h, root, 4, b / 4096));
      }
    }
    if InOrder(h, root) {
      forall v: nat | v < PAGES && Walk(h, root, 4, v).Leaf? ensures LeafOk(Walk(h, root, 4, v)) {
        assert v * 4096 / 4096 == v && Resolve(h, root, v * 4096).Some?;
      }
    }
  }

  ghost predicate LeavesOk(h: Heap, root: nat) {
    forall v: nat | v < PAGES && Walk(h, root, 4, v).Leaf? :: LeafOk(Walk(h, root, 4, v))
  }
}
