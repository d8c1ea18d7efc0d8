/** The version 1 index: nodes over byte ranges, built bottom-up by grouping. */
module Index {
  import opened Arithmetic
  import opened Moments
  import opened Layouts

  datatype NodeKind = Micro | Block | Page | Doc | Other(text: string)

  /** The text "KIND:number". */
  datatype Id = Id(kind: NodeKind, number: int)

  datatype Node = Node(id: Id, kind: NodeKind, offset: int, sig: Sig, children: seq<Id>)

  datatype Hierarchy = Hierarchy(layout: Layout, root: Id, nodes: seq<Node>)

  const ROOT := Id(Doc, 1)

  /** core.make_node. */
  function MakeNode(kind: NodeKind, number: int, offset: int, sig: Sig, children: seq<Id>): Node
  {
    Node(Id(kind, number), kind, offset, sig, children)
  }

  function SigsIn(nodes: seq<Node>): (r: seq<Sig>)
    ensures |r| == |nodes|
  {
    seq(|nodes|, i requires 0 <= i < |nodes| => nodes[i].sig)
  }

  function IdsIn(nodes: seq<Node>): (r: seq<Id>)
    ensures |r| == |nodes|
  {
    seq(|nodes|, i requires 0 <= i < |nodes| => nodes[i].id)
  }

  // ---- Grouping ----

  /** Items of a list cut into groups of `w`: the bounds of group `j`. */
  function GroupEnd(j: nat, w: nat, n: nat): (e: nat)
    ensures e <= n
  {
    if (j + 1) * w <= n then (j + 1) * w else n
  }

  lemma GroupRange(j: nat, w: nat, n: nat)
    requires 0 < w && j < CeilDiv(n, w)
    ensures j * w < GroupEnd(j, w, n) <= n
    ensures GroupEnd(j, w, n) - j * w <= w
    ensures j + 1 < CeilDiv(n, w) ==> GroupEnd(j, w, n) == (j + 1) * w
    ensures j + 1 == CeilDiv(n, w) ==> GroupEnd(j, w, n) == n
  {
    CeilDivBounds(n, w);
    var q := CeilDiv(n, w);
    MulMonotone(j, q - 1, w, w);
    assert (j + 1) * w == j * w + w;
    if j + 1 < q {
      MulMonotone(j + 1, q - 1, w, w);
    }
  }

  /** Group `j` of a list. */
  function GroupOf<T>(items: seq<T>, w: nat, j: nat): (g: seq<T>)
    requires 0 < w && j < CeilDiv(|items|, w)
    ensures |g| > 0
  {
    GroupRange(j, w, |items|);
    items[j * w..GroupEnd(j, w, |items|)]
  }

  function Parent(children: seq<Node>, kind: NodeKind, fanout: nat, j: nat): Node
    requires 0 < fanout && j < CeilDiv(|children|, fanout)
  {
    var group := GroupOf(children, fanout, j);
    MakeNode(kind, j + 1, group[0].offset, CombineAll(SigsIn(group)), IdsIn(group))
  }

  /** A parent takes the next `fanout` children, or all that are left. */
  lemma ParentMeans(children: seq<Node>, kind: NodeKind, fanout: nat, j: nat)
    requires 0 < fanout && j < CeilDiv(|children|, fanout)
    ensures j * fanout < |children|
    ensures var p := Parent(children, kind, fanout, j);
            && p.id == Id(kind, j + 1) && p.kind == kind && p.offset == children[j * fanout].offset
            && |p.children| == (if (j + 1) * fanout <= |children| then fanout else |children| - j * fanout)
            && forall i :: 0 <= i < |p.children| ==>
                             j * fanout + i < |children| && p.children[i] == children[j * fanout + i].id
  {
    hide CeilDiv, CombineAll;
    GroupRange(j, fanout, |children|);
    assert (j + 1) * fanout == j * fanout + fanout;
  }

  /** All parents, in order. */
  function Group(children: seq<Node>, kind: NodeKind, fanout: nat): (r: seq<Node>)
    requires 0 < fanout
    ensures |r| == CeilDiv(|children|, fanout)
  {
    seq(CeilDiv(|children|, fanout), j requires 0 <= j < CeilDiv(|children|, fanout) =>
      Parent(children, kind, fanout, j))
  }

  lemma MorePossible(count: nat, fanout: nat, n: nat)
    requires 0 < fanout
    ensures count * fanout < n <==> count < CeilDiv(n, fanout)
  {
    CeilDivBounds(n, fanout);
    var q := CeilDiv(n, fanout);
    if count < q {
      MulMonotone(count, q - 1, fanout, fanout);
    } else {
      MulMonotone(q, count, fanout, fanout);
    }
  }

  /** core.group_nodes. */
  method GroupNodes(children: seq<Node>, kind: NodeKind, fanout: nat) returns (parents: seq<Node>)
    requires 0 < fanout
    ensures parents == Group(children, kind, fanout)
  {
    hide CeilDiv, CombineAll;
    parents := [];
    var start := 0;
    CeilDivBounds(|children|, fanout);
    while start < |children|
      invariant start == |parents| * fanout
      invariant |parents| <= CeilDiv(|children|, fanout)
      invariant forall j :: 0 <= j < |parents| ==> parents[j] == Parent(children, kind, fanout, j)
      decreases |children| - start
    {
      MorePossible(|parents|, fanout, |children|);
      GroupRange(|parents|, fanout, |children|);
      assert (|parents| + 1) * fanout == start + fanout;
      var end := if start + fanout <= |children| then start + fanout else |children|;
      var group := children[start..end];
      assert group == GroupOf(children, fanout, |parents|);
      var mathState := Concatenate(SigsIn(group));
      parents := parents + [MakeNode(kind, |parents| + 1, group[0].offset, mathState, IdsIn(group))];
      start := start + fanout;
    }
    MorePossible(|parents|, fanout, |children|);
  }

  // ---- The hierarchy over given MICRO nodes ----

  function BlocksOf(layout: Layout, micros: seq<Node>): seq<Node>
    requires layout.Valid()
  {
    Group(micros, Block, layout.microsPerBlock)
  }

  function PagesOf(layout: Layout, micros: seq<Node>): seq<Node>
    requires layout.Valid()
  {
    Group(BlocksOf(layout, micros), Page, layout.blocksPerPage)
  }

  function RootOf(layout: Layout, micros: seq<Node>): Node
    requires layout.Valid()
  {
    var pages := PagesOf(layout, micros);
    MakeNode(Doc, 1, 0, CombineAll(SigsIn(pages)), IdsIn(pages))
  }

  /** MICROs, BLOCKs, PAGEs, DOC. */
  function Build(layout: Layout, micros: seq<Node>): seq<Node>
    requires layout.Valid()
  {
    micros + BlocksOf(layout, micros) + PagesOf(layout, micros) + [RootOf(layout, micros)]
  }

  /** The steps that analyze_file and validate_hierarchy share. */
  method BuildNodes(layout: Layout, micros: seq<Node>) returns (nodes: seq<Node>)
    requires layout.Valid()
    ensures nodes == Build(layout, micros)
  {
    var blocks := GroupNodes(micros, Block, layout.microsPerBlock);
    var pages := GroupNodes(blocks, Page, layout.blocksPerPage);
    var mathState := Concatenate(SigsIn(pages));
    nodes := micros + blocks + pages + [MakeNode(Doc, 1, 0, mathState, IdsIn(pages))];
  }

  /** The node count that the size alone determines. */
  function NodeCount(layout: Layout, size: nat): nat
    requires layout.Valid()
  {
    var micros := CeilDiv(size, layout.microBytes);
    var blocks := CeilDiv(micros, layout.microsPerBlock);
    var pages := CeilDiv(blocks, layout.blocksPerPage);
    micros + blocks + pages + 1
  }

  // ---- The index agrees with the data ----

  /** The MICRO nodes of data, as analyze_file collects them. */
  function MicrosOf(layout: Layout, data: seq<Byte>): (r: seq<Node>)
    requires layout.Valid()
    ensures |r| == CeilDiv(|data|, layout.microBytes)
  {
    var w := layout.microBytes;
    seq(CeilDiv(|data|, w), j requires 0 <= j < CeilDiv(|data|, w) =>
      MakeNode(Micro, j + 1, j * w, SigOf(GroupOf(data, w, j)), []))
  }

  /** One level over the data: nodes of `w` bytes, numbered, tiling it, each with its range's signature. */
  ghost predicate Covers(nodes: seq<Node>, data: seq<Byte>, w: nat, kind: NodeKind)
    requires 0 < w
  {
    && |nodes| == CeilDiv(|data|, w)
    && forall j :: 0 <= j < |nodes| ==> NodeAgrees(nodes[j], data, w, kind, j)
  }

  ghost predicate NodeAgrees(node: Node, data: seq<Byte>, w: nat, kind: NodeKind, j: nat)
    requires 0 < w && j < CeilDiv(|data|, w)
  {
    && node.id == Id(kind, j + 1) && node.kind == kind
    && node.offset == j * w
    && node.sig == SigOf(GroupOf(data, w, j))
  }

  /** The nodes of a level are contiguous and end where the data ends. */
  lemma LevelTiles(nodes: seq<Node>, data: seq<Byte>, w: nat, kind: NodeKind, j: nat)
    requires 0 < w && Covers(nodes, data, w, kind) && j < |nodes|
    ensures 0 <= nodes[j].offset && 0 < nodes[j].sig.n && nodes[j].offset + nodes[j].sig.n <= |data|
    ensures nodes[j].sig == SigOf(data[nodes[j].offset..nodes[j].offset + nodes[j].sig.n])
    ensures j == 0 ==> nodes[j].offset == 0
    ensures nodes[j].offset + nodes[j].sig.n == if j + 1 < |nodes| then nodes[j + 1].offset else |data|
  {
    assert NodeAgrees(nodes[j], data, w, kind, j);
    GroupRange(j, w, |data|);
    if j + 1 < |nodes| {
      assert NodeAgrees(nodes[j + 1], data, w, kind, j + 1);
    }
  }

  /** A run of nodes combines to the signature of the bytes they cover. */
  lemma {:induction false} CombineRun(nodes: seq<Node>, data: seq<Byte>, w: nat, kind: NodeKind, a: nat, b: nat)
    requires 0 < w && Covers(nodes, data, w, kind) && a <= b <= |nodes|
    ensures a * w <= |data| || a == b
    ensures a < b ==> a * w < GroupEnd(b - 1, w, |data|)
    ensures CombineAll(SigsIn(nodes[a..b])) ==
            if a == b then ZERO_SIG else SigOf(data[a * w..GroupEnd(b - 1, w, |data|)])
    decreases b - a
  {
    hide CombineAll, Combine, SigOf, CeilDiv;
    if a == b {
      NoSigs(nodes, a);
    } else {
      CombineRun(nodes, data, w, kind, a, b - 1);
      GroupRange(a, w, |data|);
      GroupRange(b - 1, w, |data|);
      assert NodeAgrees(nodes[b - 1], data, w, kind, b - 1);
      var last := GroupOf(data, w, b - 1);
      SigsSnoc(nodes, a, b);
      CombineSnoc(SigsIn(nodes[a..b - 1]), nodes[b - 1].sig);
      if a == b - 1 {
        CombineUnit(SigOf(last));
      } else {
        GroupRange(b - 2, w, |data|);
        MulMonotone(a, b - 1, w, w);
        SigOfConcat(data[a * w..(b - 1) * w], last);
        assert data[a * w..(b - 1) * w] + last == data[a * w..GroupEnd(b - 1, w, |data|)];
      }
    }
  }

  lemma NoSigs(nodes: seq<Node>, a: nat)
    requires a <= |nodes|
    ensures CombineAll(SigsIn(nodes[a..a])) == ZERO_SIG
  {
  }

  lemma SigsSnoc(nodes: seq<Node>, a: nat, b: nat)
    requires a < b <= |nodes|
    ensures SigsIn(nodes[a..b]) == SigsIn(nodes[a..b - 1]) + [nodes[b - 1].sig]
  {
  }

  lemma CombineSnoc(sigs: seq<Sig>, s: Sig)
    ensures CombineAll(sigs + [s]) == Combine(CombineAll(sigs), s)
  {
    assert (sigs + [s])[..|sigs|] == sigs;
  }

  /** Grouping `f` children of `w` bytes gives parents of `w * f` bytes that agree with the data. */
  lemma GroupCovers(children: seq<Node>, data: seq<Byte>, w: nat, kind: NodeKind, parentKind: NodeKind, f: nat)
    requires 0 < w && 0 < f && Covers(children, data, w, kind)
    ensures 0 < w * f
    ensures Covers(Group(children, parentKind, f), data, w * f, parentKind)
  {
    hide CombineAll, SigOf, CeilDiv;
    var n := |data|;
    var m := |children|;
    CeilDivNested(n, w, f);
    var parents := Group(children, parentKind, f);
    forall j | 0 <= j < |parents|
      ensures NodeAgrees(parents[j], data, w * f, parentKind, j)
    {
      ParentAgrees(children, data, w, kind, parentKind, f, j);
    }
  }

  lemma ParentAgrees(children: seq<Node>, data: seq<Byte>, w: nat, kind: NodeKind, parentKind: NodeKind, f: nat, j: nat)
    requires 0 < w && 0 < f && Covers(children, data, w, kind) && j < CeilDiv(|children|, f)
    ensures 0 < w * f && j < CeilDiv(|data|, w * f)
    ensures NodeAgrees(Parent(children, parentKind, f, j), data, w * f, parentKind, j)
  {
    hide CombineAll, SigOf, CeilDiv;
    var n := |data|;
    var m := |children|;
    CeilDivNested(n, w, f);
    GroupRange(j, f, m);
    GroupRange(j, w * f, n);
    var (a, b) := (j * f, GroupEnd(j, f, m));
    CombineRun(children, data, w, kind, a, b);
    assert NodeAgrees(children[a], data, w, kind, a);
    MulAssociates(j, f, w);
    assert f * w == w * f;
    GroupRange(b - 1, w, n);
    GroupRange(a, w, n);
    SameEnd(j, w, f, n);
  }

  /** The end of the last child of a parent is the end of the parent. */
  lemma SameEnd(j: nat, w: nat, f: nat, n: nat)
    requires 0 < w && 0 < f && j < CeilDiv(CeilDiv(n, w), f)
    ensures GroupEnd(j, f, CeilDiv(n, w)) > 0
    ensures GroupEnd(GroupEnd(j, f, CeilDiv(n, w)) - 1, w, n) == GroupEnd(j, w * f, n)
  {
    hide CeilDiv;
    var m := CeilDiv(n, w);
    GroupRange(j, f, m);
    CeilDivBounds(n, w);
    var b := GroupEnd(j, f, m);
    GroupRange(b - 1, w, n);
    MulAssociates(j + 1, f, w);
    assert f * w == w * f;
    if (j + 1) * f < m {
      MulMonotone((j + 1) * f, m - 1, w, w);
    } else {
      MulMonotone(m, (j + 1) * f, w, w);
    }
  }

  lemma MicrosCover(layout: Layout, data: seq<Byte>)
    requires layout.Valid()
    ensures Covers(MicrosOf(layout, data), data, layout.microBytes, Micro)
  {
  }

  /** The root of nodes that cover the data carries the signature of all the data. */
  lemma RootCovers(nodes: seq<Node>, data: seq<Byte>, w: nat, kind: NodeKind)
    requires 0 < w && Covers(nodes, data, w, kind)
    ensures CombineAll(SigsIn(nodes)) == SigOf(data)
  {
    hide CombineAll, SigOf, CeilDiv;
    CombineRun(nodes, data, w, kind, 0, |nodes|);
    assert nodes[0..|nodes|] == nodes;
    CeilDivBounds(|data|, w);
    if |nodes| == 0 {
      EmptySig();
    } else {
      GroupRange(|nodes| - 1, w, |data|);
      assert data[0..|data|] == data;
    }
  }

  lemma EmptySig()
    ensures SigOf([]) == ZERO_SIG
  {
  }

  /**
   Every level of the index over any data tiles the data, and every node carries the signature of
   its own range of bytes; the root carries that of the whole.
   */
  lemma IndexAgrees(layout: Layout, data: seq<Byte>)
    requires layout.Valid()
    ensures var micros := MicrosOf(layout, data);
            && Covers(micros, data, layout.Width(0), Micro)
            && Covers(BlocksOf(layout, micros), data, layout.Width(1), Block)
            && Covers(PagesOf(layout, micros), data, layout.Width(2), Page)
            && RootOf(layout, micros).sig == SigOf(data)
  {
    hide CombineAll, SigOf, CeilDiv, Group, Covers;
    var micros := MicrosOf(layout, data);
    MicrosCover(layout, data);
    GroupCovers(micros, data, layout.microBytes, Micro, Block, layout.microsPerBlock);
    GroupCovers(BlocksOf(layout, micros), data, layout.Width(1), Block, Page, layout.blocksPerPage);
    RootCovers(PagesOf(layout, micros), data, layout.Width(2), Page);
  }

  /** The preflight count is the number of nodes that come out. */
  lemma NodeCountIsExact(layout: Layout, micros: seq<Node>, size: nat)
    requires layout.Valid() && |micros| == CeilDiv(size, layout.microBytes)
    ensures |Build(layout, micros)| == NodeCount(layout, size)
  {
  }
}
