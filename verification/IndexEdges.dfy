/** The edges of the index: every parent lists exactly the nodes of the level below that lie in its range. */
module IndexEdges {
  import opened Arithmetic
  import opened Moments
  import opened Layouts
  import opened Index

  /** The nodes of a kind that begin in [from, to), in list order. */
  function Within(nodes: seq<Node>, kind: NodeKind, from: int, to: int): seq<Node>
  {
    if nodes == [] then []
    else
      var n := nodes[|nodes| - 1];
      Within(nodes[..|nodes| - 1], kind, from, to) + (if n.kind == kind && from <= n.offset < to then [n] else [])
  }

  /** Where a node's range ends. */
  function EndOf(n: Node): int
  {
    n.offset + n.sig.n
  }

  /** One level over `size` bytes: numbered nodes of `w` bytes, contiguous from 0 to the size. */
  ghost predicate Tiled(nodes: seq<Node>, size: nat, w: nat, kind: NodeKind)
    requires 0 < w
  {
    && |nodes| == CeilDiv(size, w)
    && forall j :: 0 <= j < |nodes| ==> TileAt(nodes[j], size, w, kind, j)
  }

  ghost predicate TileAt(node: Node, size: nat, w: nat, kind: NodeKind, j: nat)
  {
    && node.id == Id(kind, j + 1) && node.kind == kind
    && node.offset == j * w && node.sig.n == GroupEnd(j, w, size) - j * w
  }

  /** The level below a parent's kind. */
  function ChildKind(kind: NodeKind): NodeKind
  {
    if kind == Block then Micro else if kind == Page then Block else Page
  }

  /** A MICRO has no children; a parent's children and moments are those of the nodes below it in its range. */
  ghost predicate Linked(nodes: seq<Node>, n: Node)
  {
    if n.kind == Micro then n.children == []
    else
      var children := Within(nodes, ChildKind(n.kind), n.offset, EndOf(n));
      n.children == IdsIn(children) && n.sig == CombineAll(SigsIn(children))
  }

  // ---- Selecting from a level ----

  lemma {:induction false} WithinConcat(a: seq<Node>, b: seq<Node>, kind: NodeKind, from: int, to: int)
    ensures Within(a + b, kind, from, to) == Within(a, kind, from, to) + Within(b, kind, from, to)
  {
    if b == [] {
      assert a + b == a;
    } else {
      assert (a + b)[..|a + b| - 1] == a + b[..|b| - 1];
      WithinConcat(a, b[..|b| - 1], kind, from, to);
    }
  }

  lemma {:induction false} WithinOther(nodes: seq<Node>, kind: NodeKind, from: int, to: int)
    requires forall j :: 0 <= j < |nodes| ==> nodes[j].kind != kind
    ensures Within(nodes, kind, from, to) == []
  {
    if nodes != [] {
      WithinOther(nodes[..|nodes| - 1], kind, from, to);
    }
  }

  function AtMost(k: nat, n: nat): nat
  {
    if k <= n then k else n
  }

  ghost predicate Selects(nodes: seq<Node>, kind: NodeKind, from: int, to: int, a: nat, b: nat)
  {
    forall j :: 0 <= j < |nodes| ==> nodes[j].kind == kind && (from <= nodes[j].offset < to <==> a <= j < b)
  }

  /** If the range holds the nodes from `a` to `b`, selecting gives that run of the list. */
  lemma {:induction false} WithinRun(nodes: seq<Node>, kind: NodeKind, from: int, to: int, a: nat, b: nat)
    requires a <= b && Selects(nodes, kind, from, to, a, b)
    ensures Within(nodes, kind, from, to) == nodes[AtMost(a, |nodes|)..AtMost(b, |nodes|)]
  {
    if nodes != [] {
      var front := nodes[..|nodes| - 1];
      WithinRun(front, kind, from, to, a, b);
      RunOfFront(nodes, a, b);
    }
  }

  lemma RunOfFront(nodes: seq<Node>, a: nat, b: nat)
    requires nodes != [] && a <= b
    ensures var (n, front) := (|nodes| - 1, nodes[..|nodes| - 1]);
            nodes[AtMost(a, |nodes|)..AtMost(b, |nodes|)] ==
            front[AtMost(a, n)..AtMost(b, n)] + (if a <= n < b then [nodes[n]] else [])
  {
  }

  /** In a tiled level, the nodes of group `j` are those that begin in the group's range. */
  lemma WithinGroup(nodes: seq<Node>, size: nat, w: nat, kind: NodeKind, f: nat, j: nat)
    requires 0 < w && 0 < f && Tiled(nodes, size, w, kind) && j < CeilDiv(|nodes|, f)
    ensures 0 < w * f && j < CeilDiv(size, w * f)
    ensures Within(nodes, kind, j * (w * f), GroupEnd(j, w * f, size)) == GroupOf(nodes, f, j)
  {
    hide CeilDiv, GroupEnd, Tiled, Within, Selects;
    TiledCount(nodes, size, w, kind);
    CeilDivNested(size, w, f);
    GroupRange(j, f, |nodes|);
    SameEnd(j, w, f, size);
    StartOfGroup(j, w, f);
    var (a, b) := (j * f, GroupEnd(j, f, |nodes|));
    var (from, to) := (a * w, GroupEnd(b - 1, w, size));
    RangeSelects(nodes, size, w, kind, a, b);
    WithinRun(nodes, kind, from, to, a, b);
  }

  lemma TiledCount(nodes: seq<Node>, size: nat, w: nat, kind: NodeKind)
    requires 0 < w && Tiled(nodes, size, w, kind)
    ensures |nodes| == CeilDiv(size, w)
  {
  }

  lemma StartOfGroup(j: nat, w: nat, f: nat)
    ensures j * (w * f) == (j * f) * w
  {
    MulAssociates(j, f, w);
    assert f * w == w * f;
  }

  lemma RangeSelects(nodes: seq<Node>, size: nat, w: nat, kind: NodeKind, a: nat, b: nat)
    requires 0 < w && Tiled(nodes, size, w, kind) && a < b <= |nodes|
    ensures Selects(nodes, kind, a * w, GroupEnd(b - 1, w, size), a, b)
  {
    hide CeilDiv, GroupEnd;
    GroupRange(b - 1, w, size);
    forall i | 0 <= i < |nodes|
      ensures nodes[i].kind == kind && (a * w <= nodes[i].offset < GroupEnd(b - 1, w, size) <==> a <= i < b)
    {
      assert TileAt(nodes[i], size, w, kind, i);
      GroupRange(i, w, size);
      RangeEnd(b, w, size);
      InRun(i, a, b, w, size, GroupEnd(b - 1, w, size));
    }
  }

  lemma RangeEnd(b: nat, w: nat, size: nat)
    requires b > 0
    ensures GroupEnd(b - 1, w, size) == if b * w <= size then b * w else size
  {
  }

  lemma InRun(i: nat, a: nat, b: nat, w: nat, size: nat, to: nat)
    requires 0 < w && a < b && (b - 1) * w < to && i * w < size
    requires to == if b * w <= size then b * w else size
    ensures a * w <= i * w < to <==> a <= i < b
  {
    if i < a {
      MulMonotone(i + 1, a, w, w);
      assert (i + 1) * w == i * w + w;
    } else {
      MulMonotone(a, i, w, w);
    }
    if i < b {
      MulMonotone(i, b - 1, w, w);
    } else {
      MulMonotone(b, i, w, w);
    }
  }

  // ---- Lengths add up ----

  lemma {:induction false} RunLength(nodes: seq<Node>, size: nat, w: nat, kind: NodeKind, a: nat, b: nat)
    requires 0 < w && Tiled(nodes, size, w, kind) && a <= b <= |nodes|
    ensures CombineAll(SigsIn(nodes[a..b])).n == if a == b then 0 else GroupEnd(b - 1, w, size) - a * w
    decreases b - a
  {
    hide CombineAll, CeilDiv;
    if a == b {
      NoSigs(nodes, a);
    } else {
      RunLength(nodes, size, w, kind, a, b - 1);
      SigsSnoc(nodes, a, b);
      CombineSnoc(SigsIn(nodes[a..b - 1]), nodes[b - 1].sig);
      CombineLength(CombineAll(SigsIn(nodes[a..b - 1])), nodes[b - 1].sig);
      assert TileAt(nodes[b - 1], size, w, kind, b - 1);
      if a < b - 1 {
        GroupRange(b - 2, w, size);
      }
    }
  }

  lemma CombineLength(a: Sig, b: Sig)
    ensures Combine(a, b).n == a.n + b.n
  {
  }

  // ---- Grouping keeps a level tiled and links it to the one below ----

  lemma ParentTiles(children: seq<Node>, size: nat, w: nat, kind: NodeKind, parentKind: NodeKind, f: nat, j: nat)
    requires 0 < w && 0 < f && Tiled(children, size, w, kind) && j < CeilDiv(|children|, f)
    ensures 0 < w * f && TileAt(Parent(children, parentKind, f, j), size, w * f, parentKind, j)
    ensures var p := Parent(children, parentKind, f, j);
            var below := Within(children, kind, p.offset, EndOf(p));
            p.children == IdsIn(below) && p.sig == CombineAll(SigsIn(below))
  {
    hide CombineAll, CeilDiv, GroupEnd, Within;
    CeilDivNested(size, w, f);
    WithinGroup(children, size, w, kind, f, j);
    GroupRange(j, f, |children|);
    RunLength(children, size, w, kind, j * f, GroupEnd(j, f, |children|));
    SameEnd(j, w, f, size);
    assert TileAt(children[j * f], size, w, kind, j * f);
    StartOfGroup(j, w, f);
  }

  lemma GroupTiles(children: seq<Node>, size: nat, w: nat, kind: NodeKind, parentKind: NodeKind, f: nat)
    requires 0 < w && 0 < f && Tiled(children, size, w, kind)
    ensures 0 < w * f && Tiled(Group(children, parentKind, f), size, w * f, parentKind)
  {
    hide CeilDiv, TileAt;
    CeilDivNested(size, w, f);
    var parents := Group(children, parentKind, f);
    forall j | 0 <= j < |parents|
      ensures TileAt(parents[j], size, w * f, parentKind, j)
    {
      ParentTiles(children, size, w, kind, parentKind, f, j);
    }
  }

  /** All nodes of a level tile the size, so the root lists them all. */
  lemma AllWithin(nodes: seq<Node>, size: nat, w: nat, kind: NodeKind)
    requires 0 < w && Tiled(nodes, size, w, kind)
    ensures CombineAll(SigsIn(nodes)).n == size && Within(nodes, kind, 0, size) == nodes
  {
    hide CombineAll, CeilDiv, GroupEnd, Within;
    var m := |nodes|;
    RunLength(nodes, size, w, kind, 0, m);
    assert nodes[0..m] == nodes;
    CeilDivBounds(size, w);
    if m > 0 {
      GroupRange(m - 1, w, size);
      RangeSelects(nodes, size, w, kind, 0, m);
    }
    WithinRun(nodes, kind, 0, size, 0, m);
  }

  // ---- The whole list of nodes ----

  ghost predicate OfKind(nodes: seq<Node>, kind: NodeKind)
  {
    forall j :: 0 <= j < |nodes| ==> nodes[j].kind == kind
  }

  lemma TiledKind(nodes: seq<Node>, size: nat, w: nat, kind: NodeKind)
    requires 0 < w && Tiled(nodes, size, w, kind)
    ensures OfKind(nodes, kind)
  {
    hide CeilDiv;
    forall j | 0 <= j < |nodes|
      ensures nodes[j].kind == kind
    {
      assert TileAt(nodes[j], size, w, kind, j);
    }
  }

  /** Selecting from MICROs, BLOCKs, PAGEs and a DOC selects from one of the levels. */
  lemma WithinLevels(micros: seq<Node>, blocks: seq<Node>, pages: seq<Node>, root: Node, from: int, to: int)
    requires OfKind(micros, Micro) && OfKind(blocks, Block) && OfKind(pages, Page) && root.kind == Doc
    ensures var nodes := micros + blocks + pages + [root];
            && Within(nodes, Micro, from, to) == Within(micros, Micro, from, to)
            && Within(nodes, Block, from, to) == Within(blocks, Block, from, to)
            && Within(nodes, Page, from, to) == Within(pages, Page, from, to)
  {
    hide Within;
    LevelOf(micros, blocks, pages, root, Micro, from, to);
    LevelOf(micros, blocks, pages, root, Block, from, to);
    LevelOf(micros, blocks, pages, root, Page, from, to);
    WithinOther(micros, Block, from, to);
    WithinOther(micros, Page, from, to);
    WithinOther(blocks, Micro, from, to);
    WithinOther(blocks, Page, from, to);
    WithinOther(pages, Micro, from, to);
    WithinOther(pages, Block, from, to);
  }

  lemma LevelOf(micros: seq<Node>, blocks: seq<Node>, pages: seq<Node>, root: Node, kind: NodeKind, from: int, to: int)
    requires root.kind != kind
    ensures Within(micros + blocks + pages + [root], kind, from, to) ==
            Within(micros, kind, from, to) + Within(blocks, kind, from, to) + Within(pages, kind, from, to)
  {
    hide Within;
    WithinConcat(micros + blocks + pages, [root], kind, from, to);
    WithinConcat(micros + blocks, pages, kind, from, to);
    WithinConcat(micros, blocks, kind, from, to);
    WithinOther([root], kind, from, to);
  }

  /**
   The index built over MICROs that tile the size: every level tiles the size, the root spans it, and
   every parent has the children and moments of the nodes below it in its range.
   */
  lemma BuildIsLinked(layout: Layout, micros: seq<Node>, size: nat)
    requires layout.Valid() && Tiled(micros, size, layout.Width(0), Micro)
    requires forall j :: 0 <= j < |micros| ==> micros[j].children == []
    ensures Tiled(BlocksOf(layout, micros), size, layout.Width(1), Block)
    ensures Tiled(PagesOf(layout, micros), size, layout.Width(2), Page)
    ensures RootOf(layout, micros).offset == 0 && RootOf(layout, micros).sig.n == size
    ensures forall n :: n in Build(layout, micros) ==> Linked(Build(layout, micros), n)
  {
    hide CeilDiv, CombineAll, Tiled, Group, Within, Layout.Capacity, Layout.Width;
    WidthSteps(layout);
    var (blocks, pages, root) := (BlocksOf(layout, micros), PagesOf(layout, micros), RootOf(layout, micros));
    GroupTiles(micros, size, layout.Width(0), Micro, Block, layout.microsPerBlock);
    GroupTiles(blocks, size, layout.Width(1), Block, Page, layout.blocksPerPage);
    AllWithin(pages, size, layout.Width(2), Page);
    TiledKind(micros, size, layout.Width(0), Micro);
    TiledKind(blocks, size, layout.Width(1), Block);
    TiledKind(pages, size, layout.Width(2), Page);
    var nodes := Build(layout, micros);
    forall n | n in nodes
      ensures Linked(nodes, n)
    {
      WithinLevels(micros, blocks, pages, root, n.offset, EndOf(n));
      if n in blocks {
        ParentIsLinked(micros, size, layout.Width(0), Micro, Block, layout.microsPerBlock, n);
      } else if n in pages {
        ParentIsLinked(blocks, size, layout.Width(1), Block, Page, layout.blocksPerPage, n);
      } else if n in micros {
        var j :| 0 <= j < |micros| && micros[j] == n;
      }
    }
  }

  lemma WidthSteps(layout: Layout)
    requires layout.Valid()
    ensures layout.Width(0) == layout.microBytes
    ensures layout.Width(1) == layout.Width(0) * layout.microsPerBlock
    ensures layout.Width(2) == layout.Width(1) * layout.blocksPerPage
  {
  }

  lemma ParentIsLinked(children: seq<Node>, size: nat, w: nat, kind: NodeKind, parentKind: NodeKind, f: nat, n: Node)
    requires 0 < w && 0 < f && Tiled(children, size, w, kind) && n in Group(children, parentKind, f)
    ensures n.kind == parentKind
    ensures var below := Within(children, kind, n.offset, EndOf(n));
            n.children == IdsIn(below) && n.sig == CombineAll(SigsIn(below))
  {
    hide CeilDiv, CombineAll, Tiled, Within;
    var parents := Group(children, parentKind, f);
    var j :| 0 <= j < |parents| && parents[j] == n;
    ParentTiles(children, size, w, kind, parentKind, f, j);
  }

  /** The same equations over the same MICROs have one solution: the list that building gives. */
  lemma LinkedIsBuilt(layout: Layout, micros: seq<Node>, blocks: seq<Node>, pages: seq<Node>, root: Node, size: nat)
    requires layout.Valid() && Tiled(micros, size, layout.Width(0), Micro)
    requires Tiled(blocks, size, layout.Width(1), Block) && Tiled(pages, size, layout.Width(2), Page)
    requires root.id == ROOT && root.kind == Doc && root.offset == 0 && root.sig.n == size
    requires var nodes := micros + blocks + pages + [root]; forall n :: n in nodes ==> Linked(nodes, n)
    ensures micros + blocks + pages + [root] == Build(layout, micros)
  {
    hide CeilDiv, CombineAll, Tiled, Group, Within, Layout.Capacity, Layout.Width;
    var nodes := micros + blocks + pages + [root];
    WidthSteps(layout);
    TiledKind(micros, size, layout.Width(0), Micro);
    TiledKind(blocks, size, layout.Width(1), Block);
    TiledKind(pages, size, layout.Width(2), Page);
    forall n | n in blocks || n in pages || n == root
      ensures n.kind != Micro
      ensures var level := if n.kind == Block then micros else if n.kind == Page then blocks else pages;
              var below := Within(level, ChildKind(n.kind), n.offset, EndOf(n));
              n.children == IdsIn(below) && n.sig == CombineAll(SigsIn(below))
    {
      WithinLevels(micros, blocks, pages, root, n.offset, EndOf(n));
      KindOf(blocks, Block, n);
      KindOf(pages, Page, n);
      assert Linked(nodes, n);
    }
    LevelIsGroup(micros, blocks, size, layout.Width(0), Micro, Block, layout.microsPerBlock);
    LevelIsGroup(blocks, pages, size, layout.Width(1), Block, Page, layout.blocksPerPage);
    AllWithin(pages, size, layout.Width(2), Page);
    assert root == RootOf(layout, micros);
  }

  lemma KindOf(nodes: seq<Node>, kind: NodeKind, n: Node)
    requires OfKind(nodes, kind)
    ensures n in nodes ==> n.kind == kind
  {
  }

  lemma LevelIsGroup(children: seq<Node>, parents: seq<Node>, size: nat, w: nat, kind: NodeKind, parentKind: NodeKind,
                     f: nat)
    requires 0 < w && 0 < f && 0 < w * f
    requires Tiled(children, size, w, kind) && Tiled(parents, size, w * f, parentKind)
    requires forall n :: n in parents ==>
                           var below := Within(children, kind, n.offset, EndOf(n));
                           n.children == IdsIn(below) && n.sig == CombineAll(SigsIn(below))
    ensures parents == Group(children, parentKind, f)
  {
    hide CeilDiv, CombineAll, Within, TileAt;
    CeilDivNested(size, w, f);
    forall j | 0 <= j < |parents|
      ensures parents[j] == Parent(children, parentKind, f, j)
    {
      assert parents[j] in parents;
      ParentTiles(children, size, w, kind, parentKind, f, j);
      SameTile(parents[j], Parent(children, parentKind, f, j), size, w * f, parentKind, j);
    }
  }

  lemma SameTile(a: Node, b: Node, size: nat, w: nat, kind: NodeKind, j: nat)
    requires TileAt(a, size, w, kind, j) && TileAt(b, size, w, kind, j)
    ensures a.id == b.id && a.kind == b.kind && a.offset == b.offset && a.sig.n == b.sig.n
  {
  }
}
