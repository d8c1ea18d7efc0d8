/** analyze_file, validate_hierarchy, validate_document and verify_source: the metadata document. */
module Document {
  import opened Wrappers
  import opened Arithmetic
  import opened Moments
  import opened MomentBounds
  import opened Clusters
  import opened Streams
  import opened Layouts
  import opened Container
  import opened Index
  import opened IndexEdges

  /** SMALL (no hierarchy) or LARGE, with the digest of the source. */
  datatype Metadata = Metadata(size: int, sha256: seq<Byte>, fingerprint: (int, int), histogram: seq<int>,
                               large: Option<Hierarchy>)

  /** The document of a source: a definition by the data alone. */
  function MetadataOf(hash: seq<Byte> -> seq<Byte>, data: seq<Byte>, layout: Option<Layout>): Metadata
    requires layout.Some? ==> layout.value.Valid()
  {
    Metadata(|data|, hash(data), (|data|, Weight(data)), Histogram(data),
             if layout.Some? then Some(HierarchyOf(layout.value, data)) else None)
  }

  function HierarchyOf(layout: Layout, data: seq<Byte>): Hierarchy
    requires layout.Valid()
  {
    Hierarchy(layout, ROOT, Build(layout, MicrosOf(layout, data)))
  }

  /** When analyze_file completes: the file is stable and the node budget admits the hierarchy. */
  predicate Analyzable(data: seq<Byte>, statSize: nat, layout: Option<Layout>, maxNodes: int)
    requires layout.Some? ==> layout.value.Valid()
  {
    && maxNodes >= 1 && statSize == |data|
    && (layout.Some? ==> NodeCount(layout.value, statSize) <= maxNodes)
  }

  /** The MICRO nodes collected after `length` bytes. */
  ghost predicate Collected(layout: Layout, data: seq<Byte>, length: nat, micros: seq<Node>)
    requires layout.Valid()
  {
    && length <= |data|
    && (length == |data| || length == |micros| * layout.microBytes)
    && |micros| <= CeilDiv(|data|, layout.microBytes)
    && (length == |data| ==> |micros| == CeilDiv(|data|, layout.microBytes))
    && forall j :: 0 <= j < |micros| ==>
                     micros[j] == MakeNode(Micro, j + 1, j * layout.microBytes,
                                           SigOf(GroupOf(data, layout.microBytes, j)), [])
  }

  lemma CollectedStart(layout: Layout, data: seq<Byte>)
    requires layout.Valid()
    ensures Collected(layout, data, 0, [])
  {
    CeilDivBounds(|data|, layout.microBytes);
  }

  lemma CollectedStep(layout: Layout, data: seq<Byte>, length: nat, micros: seq<Node>, chunk: seq<Byte>,
                      rest: seq<Byte>)
    requires layout.Valid() && Collected(layout, data, length, micros) && length < |data|
    requires data[length..] == chunk + rest && chunk != []
    requires |chunk| == layout.microBytes || (|chunk| < layout.microBytes && rest == [])
    ensures Collected(layout, data, length + |chunk|,
                      micros + [MakeNode(Micro, |micros| + 1, length, SigOf(chunk), [])])
    ensures |micros| < CeilDiv(|data|, layout.microBytes)
  {
    hide CeilDiv, SigOf;
    var w := layout.microBytes;
    var k := |micros|;
    MorePossible(k, w, |data|);
    GroupRange(k, w, |data|);
    assert (k + 1) * w == k * w + w;
    assert data[length..][..|chunk|] == chunk;
    assert |data| == length + |chunk| + |rest|;
    assert GroupOf(data, w, k) == chunk;
    MorePossible(k + 1, w, |data|);
  }

  lemma CollectedEnd(layout: Layout, data: seq<Byte>, micros: seq<Node>)
    requires layout.Valid() && Collected(layout, data, |data|, micros)
    ensures micros == MicrosOf(layout, data)
  {
  }

  /** The state of the read loop of analyze_file after `length` bytes. */
  ghost predicate Scanned(data: seq<Byte>, layout: Option<Layout>, length: nat, histogram: seq<nat>, micros: seq<Node>)
    requires layout.Some? ==> layout.value.Valid()
  {
    && length <= |data| && histogram == Histogram(data[..length])
    && (layout.Some? ==> Collected(layout.value, data, length, micros))
  }

  lemma ScannedStart(data: seq<Byte>, layout: Option<Layout>, zeros: seq<nat>)
    requires layout.Some? ==> layout.value.Valid()
    requires |zeros| == 16 && forall i :: 0 <= i < 16 ==> zeros[i] == 0
    ensures Scanned(data, layout, 0, zeros, [])
  {
    hide Collected;
    ZeroHistogram(zeros);
    assert data[..0] == [];
    if layout.Some? {
      CollectedStart(layout.value, data);
    }
  }

  /** The source has been read up to `length`. */
  ghost predicate At(source: ByteStream, data: seq<Byte>, length: nat)
    reads source
  {
    source.Valid() && length <= |data| && source.Rest() == data[length..]
  }

  method ReadNext(source: ByteStream, ghost data: seq<Byte>, ghost length: nat, size: nat)
    returns (chunk: seq<Byte>, ghost rest: seq<Byte>)
    requires At(source, data, length) && size > 0
    modifies source
    ensures At(source, data, length + |chunk|) && length + |chunk| <= |data|
    ensures data[length..] == chunk + rest && (|chunk| == size || (|chunk| < size && rest == []))
    ensures chunk == [] ==> length == |data|
  {
    chunk := source.Read(size);
    rest := source.Rest();
    assert |data| == length + |chunk| + |rest|;
    assert data[length..][|chunk|..] == rest;
  }

  /** The invariant of the read loop. */
  ghost predicate Scanning(source: ByteStream, data: seq<Byte>, layout: Option<Layout>, length: nat,
                           histogram: seq<nat>, micros: seq<Node>, more: bool)
    requires layout.Some? ==> layout.value.Valid()
    reads source
  {
    && At(source, data, length) && (!more ==> length == |data|)
    && Scanned(data, layout, length, histogram, micros)
  }

  /** The read loop of analyze_file. */
  method Scan(data: seq<Byte>, layout: Option<Layout>, maxNodes: int)
    returns (r: Result<(nat, seq<nat>, seq<Node>)>)
    requires layout.Some? ==> layout.value.Valid()
    ensures r.ValueError? ==> layout.Some? && NodeCount(layout.value, |data|) > maxNodes
    ensures r.Ok? ==> r.value.0 == |data| && Scanned(data, layout, |data|, r.value.1, r.value.2)
  {
    hide Scanned, At, NodeCount, Layout.Capacity, Layout.Valid, CeilDiv, SigOf, Histogram, Collected;
    var source := new ByteStream(data);
    var micros: seq<Node> := [];
    var histogram: seq<nat> := seq(16, _ => 0);
    var length := 0;
    ScannedStart(data, layout, histogram);
    AtStart(source, data);
    var more := true;
    while more
      invariant Scanning(source, data, layout, length, histogram, micros, more)
      decreases |data| - length, more
    {
      AtWithin(source, data, length);
      var chunk, rest := ReadNext(source, data, length, ReadSize(layout));
      if chunk == [] {
        more := false;
      } else {
        var next := ScanChunk(data, layout, maxNodes, length, histogram, micros, chunk, rest);
        if next.ValueError? {
          return ValueError;
        }
        histogram, micros := next.value.0, next.value.1;
        length := length + |chunk|;
      }
    }
    r := Ok((length, histogram, micros));
  }

  lemma AtStart(source: ByteStream, data: seq<Byte>)
    requires source.Valid() && source.Rest() == data
    ensures At(source, data, 0)
  {
  }

  lemma AtWithin(source: ByteStream, data: seq<Byte>, length: nat)
    requires At(source, data, length)
    ensures length <= |data|
  {
  }

  function ReadSize(layout: Option<Layout>): (n: nat)
    requires layout.Some? ==> layout.value.Valid()
    ensures n > 0
  {
    if layout.Some? then layout.value.microBytes else 65536
  }

  /** One pass of the read loop. */
  method ScanChunk(ghost data: seq<Byte>, layout: Option<Layout>, maxNodes: int, length: nat,
                   histogram: seq<nat>, micros: seq<Node>, chunk: seq<Byte>, ghost rest: seq<Byte>)
    returns (r: Result<(seq<nat>, seq<Node>)>)
    requires layout.Some? ==> layout.value.Valid()
    requires Scanned(data, layout, length, histogram, micros)
    requires data[length..] == chunk + rest && chunk != []
    requires |chunk| == ReadSize(layout) || (|chunk| < ReadSize(layout) && rest == [])
    ensures r.ValueError? ==> layout.Some? && NodeCount(layout.value, |data|) > maxNodes
    ensures r.Ok? ==> Scanned(data, layout, length + |chunk|, r.value.0, r.value.1)
  {
    hide CeilDiv, SigOf, Histogram, Collected, NodeCount, Layout.Capacity, Layout.Valid;
    assert |data| == length + |chunk| + |rest|;
    assert data[..length] + chunk == data[..length + |chunk|];
    var h := AddToHistogram(histogram, data[..length], chunk);
    if layout.None? {
      return Ok((h, micros));
    }
    CollectedStep(layout.value, data, length, micros, chunk, rest);
    if |micros| >= maxNodes - 1 {
      BudgetSuffices(layout.value, data);
      return ValueError;
    }
    var mathState := Signature(chunk);
    r := Ok((h, micros + [MakeNode(Micro, |micros| + 1, length, mathState, [])]));
  }

  predicate KnownMode(mode: string)
  {
    mode == "SMALL" || mode == "LARGE"
  }

  /** The layout a mode uses: none in SMALL. */
  function LayoutFor(mode: string, layout: Layout): Option<Layout>
  {
    if mode == "LARGE" then Some(layout) else None
  }

  /** The edges, kind by kind. */
  lemma EdgesOf(nodes: seq<Node>, n: Node)
    requires Linked(nodes, n)
    ensures n.kind == Micro ==> n.children == []
    ensures n.kind == Block ==> n.children == IdsIn(Within(nodes, Micro, n.offset, EndOf(n)))
    ensures n.kind == Page ==> n.children == IdsIn(Within(nodes, Block, n.offset, EndOf(n)))
    ensures n.kind == Doc ==> n.children == IdsIn(Within(nodes, Page, n.offset, EndOf(n)))
  {
  }

  /** The hierarchy of a source lists, for every parent, the nodes of the level below in its range. */
  lemma HierarchyEdges(layout: Layout, data: seq<Byte>)
    requires layout.Valid()
    ensures var nodes := HierarchyOf(layout, data).nodes;
            forall n :: n in nodes ==>
                          && (n.kind == Micro ==> n.children == [])
                          && (n.kind == Block ==> n.children == IdsIn(Within(nodes, Micro, n.offset, EndOf(n))))
                          && (n.kind == Page ==> n.children == IdsIn(Within(nodes, Block, n.offset, EndOf(n))))
                          && (n.kind == Doc ==> n.children == IdsIn(Within(nodes, Page, n.offset, EndOf(n))))
  {
    hide CeilDiv, Linked, Within, IdsIn, Build, MicrosOf, Layout.Capacity, Layout.Width, Tiled;
    var nodes := HierarchyOf(layout, data).nodes;
    MicrosTiled(layout, data);
    BuildIsLinked(layout, MicrosOf(layout, data), |data|);
    forall n | n in nodes
      ensures && (n.kind == Micro ==> n.children == [])
              && (n.kind == Block ==> n.children == IdsIn(Within(nodes, Micro, n.offset, EndOf(n))))
              && (n.kind == Page ==> n.children == IdsIn(Within(nodes, Block, n.offset, EndOf(n))))
              && (n.kind == Doc ==> n.children == IdsIn(Within(nodes, Page, n.offset, EndOf(n))))
    {
      EdgesOf(nodes, n);
    }
  }

  lemma LengthIsEnd(data: seq<Byte>, w: nat, j: nat)
    requires 0 < w && j < CeilDiv(|data|, w)
    ensures |GroupOf(data, w, j)| == GroupEnd(j, w, |data|) - j * w
  {
    hide CeilDiv, GroupEnd;
    GroupRange(j, w, |data|);
  }

  lemma MicrosTiled(layout: Layout, data: seq<Byte>)
    requires layout.Valid()
    ensures Tiled(MicrosOf(layout, data), |data|, layout.Width(0), Micro)
    ensures forall j :: 0 <= j < |MicrosOf(layout, data)| ==> MicrosOf(layout, data)[j].children == []
  {
    hide CeilDiv, SigOf, Layout.Capacity, GroupOf, GroupEnd;
    var (w, micros) := (layout.microBytes, MicrosOf(layout, data));
    forall j | 0 <= j < |micros|
      ensures TileAt(micros[j], |data|, w, Micro, j) && micros[j].children == []
    {
      LengthIsEnd(data, w, j);
      SigLength(GroupOf(data, w, j));
    }
  }

  /** The preflight checks admit an input exactly if the hierarchy built from it stays within the budget. */
  lemma AnalyzableMeans(data: seq<Byte>, statSize: nat, mode: string, layout: Layout, maxNodes: int)
    requires layout.Valid()
    ensures KnownMode(mode) && Analyzable(data, statSize, LayoutFor(mode, layout), maxNodes) <==>
            && (mode == "SMALL" || mode == "LARGE") && statSize == |data| && maxNodes >= 1
            && (mode == "LARGE" ==> |HierarchyOf(layout, data).nodes| <= maxNodes)
  {
    hide CeilDiv, NodeCount, Build, MicrosOf;
    NodeCountIsExact(layout, MicrosOf(layout, data), |data|);
    assert CeilDiv(|data|, layout.microBytes) == |MicrosOf(layout, data)|;
  }

  /** core.analyze_file, with what stat says before and after reading. */
  method AnalyzeFile(hash: seq<Byte> -> seq<Byte>, data: seq<Byte>, before: Stat, after: Stat, mode: string,
                     layout: Layout,
                     maxNodes: int)
    returns (r: Result<Metadata>)
    requires layout.Valid()
    ensures r.Ok? <==>
            && (mode == "SMALL" || mode == "LARGE") && before == after && before.size == |data| && maxNodes >= 1
            && (mode == "LARGE" ==> |HierarchyOf(layout, data).nodes| <= maxNodes)
    ensures r.Ok? ==> r.value == MetadataOf(hash, data, LayoutFor(mode, layout))
    ensures r.Ok? ==>
              && r.value.size == r.value.fingerprint.0 == |data| && r.value.sha256 == hash(data)
              && (r.value.large.Some? <==> mode == "LARGE")
              && (r.value.large.Some? ==>
                    r.value.large.value.layout == layout && r.value.large.value.root == Id(Doc, 1))
    ensures r.Ok? && r.value.large.Some? ==>
              var nodes := r.value.large.value.nodes;
              forall n :: n in nodes ==>
                            && (n.kind == Micro ==> n.children == [])
                            && (n.kind == Block ==> n.children == IdsIn(Within(nodes, Micro, n.offset, EndOf(n))))
                            && (n.kind == Page ==> n.children == IdsIn(Within(nodes, Block, n.offset, EndOf(n))))
                            && (n.kind == Doc ==> n.children == IdsIn(Within(nodes, Page, n.offset, EndOf(n))))
  {
    hide Within, IdsIn, CeilDiv, SigOf, Weight, Histogram, Collected, Build, MicrosOf, NodeCount, Layout.Capacity,
      Layout.Valid;
    AnalyzableMeans(data, before.size, mode, layout, maxNodes);
    HierarchyEdges(layout, data);
    if !KnownMode(mode) {
      return ValueError;
    }
    if maxNodes < 1 {
      return ValueError;
    }
    if mode == "LARGE" && NodeCount(layout, before.size) > maxNodes {
      return ValueError;
    }
    var scan := Scan(data, LayoutFor(mode, layout), maxNodes);
    if scan.ValueError? {
      return ValueError;
    }
    var (length, histogram, micros) := scan.value;
    if before != after || length != before.size {
      return ValueError;
    }
    assert data[..length] == data;
    FingerprintOfHistogram(data);
    var hierarchy := None;
    if mode == "LARGE" {
      CollectedEnd(layout, data, micros);
      var nodes := BuildNodes(layout, micros);
      NodeCountIsExact(layout, micros, |data|);
      if |nodes| > maxNodes {
        return ValueError;
      }
      hierarchy := Some(Hierarchy(layout, ROOT, nodes));
    }
    r := Ok(Metadata(length, hash(data), (length, WeightedSum(histogram)), histogram, hierarchy));
  }

  lemma ZeroHistogram(zeros: seq<nat>)
    requires |zeros| == 16 && forall i :: 0 <= i < 16 ==> zeros[i] == 0
    ensures Histogram([]) == zeros
  {
  }

  /** The budget that admits all nodes admits every MICRO on the way. */
  lemma BudgetSuffices(layout: Layout, data: seq<Byte>)
    requires layout.Valid()
    ensures CeilDiv(|data|, layout.microBytes) <= NodeCount(layout, |data|) - 1
  {
  }

  // ---- validate_hierarchy ----

  /** natural: at most 128 decimal digits. */
  predicate Decimal(x: int)
  {
    0 <= x < Pow(10, 128)
  }

  /** validate_signature and the offset check. */
  ghost predicate NodeInBounds(node: Node)
  {
    && Decimal(node.sig.n) && Decimal(node.sig.p0) && Decimal(node.sig.p1) && Decimal(node.sig.p2)
    && Decimal(node.sig.p3)
    && WithinBounds(node.sig) && Decimal(node.offset)
  }

  /** The node that position `i` of a size must hold, given its moments. */
  function ExpectedMicro(layout: Layout, size: int, i: nat, sig: Sig): Node
  {
    var offset := i * layout.microBytes;
    var length := if layout.microBytes <= size - offset then layout.microBytes else size - offset;
    MakeNode(Micro, i + 1, offset, Sig(length, sig.p0, sig.p1, sig.p2, sig.p3), [])
  }

  /** The first nodes are MICROs that tile the declared size. */
  ghost predicate MicrosTile(layout: Layout, size: nat, micros: seq<Node>)
    requires layout.Valid()
  {
    && |micros| == CeilDiv(size, layout.microBytes)
    && forall i :: 0 <= i < |micros| ==> micros[i] == ExpectedMicro(layout, size, i, micros[i].sig)
  }

  /**
   The accepted hierarchies: nodes within the numeric bounds, the first ones MICROs tiling the size,
   and the list is exactly what building from those MICROs gives.
   */
  ghost predicate ValidHierarchy(h: Hierarchy, size: nat)
  {
    && h.layout.Valid() && h.root == ROOT
    && (forall i :: 0 <= i < |h.nodes| ==> NodeInBounds(h.nodes[i]))
    && CeilDiv(size, h.layout.microBytes) <= |h.nodes|
    && var micros := h.nodes[..CeilDiv(size, h.layout.microBytes)];
    && MicrosTile(h.layout, size, micros)
    && h.nodes == Build(h.layout, micros)
  }

  function MicrosIn(nodes: seq<Node>): seq<Node>
  {
    if nodes == [] then []
    else MicrosIn(nodes[..|nodes| - 1]) + (if nodes[|nodes| - 1].kind == Micro then [nodes[|nodes| - 1]] else [])
  }

  lemma {:induction false} MicrosInRun(nodes: seq<Node>, k: nat, i: nat)
    requires k <= |nodes| && i <= |nodes|
    requires forall j :: 0 <= j < |nodes| ==> (nodes[j].kind == Micro <==> j < k)
    ensures MicrosIn(nodes[..i]) == nodes[..if i < k then i else k]
  {
    if i != 0 {
      MicrosInRun(nodes, k, i - 1);
      assert nodes[..i][..i - 1] == nodes[..i - 1];
    }
  }

  /** In a built list exactly the leading nodes are MICROs. */
  lemma KindsInBuild(layout: Layout, micros: seq<Node>)
    requires layout.Valid() && forall i :: 0 <= i < |micros| ==> micros[i].kind == Micro
    ensures var nodes := Build(layout, micros);
            forall j :: 0 <= j < |nodes| ==> (nodes[j].kind == Micro <==> j < |micros|)
  {
    hide CeilDiv, CombineAll;
  }

  /** What a valid hierarchy forces of the nodes seen so far. */
  lemma ValidForces(h: Hierarchy, size: nat, i: nat)
    requires ValidHierarchy(h, size) && i <= |h.nodes|
    ensures var k := CeilDiv(size, h.layout.microBytes);
            && MicrosIn(h.nodes[..i]) == h.nodes[..if i < k then i else k]
            && (i < |h.nodes| && h.nodes[i].kind == Micro ==> i < k)
  {
    hide CeilDiv, Build, NodeInBounds;
    var k := CeilDiv(size, h.layout.microBytes);
    KindsInBuild(h.layout, h.nodes[..k]);
    MicrosInRun(h.nodes, k, i);
  }

  /** The checks on one MICRO node fail only if the hierarchy is not valid. */
  lemma BadMicro(h: Hierarchy, size: nat, i: nat)
    requires h.layout.Valid() && i < |h.nodes| && h.nodes[i].kind == Micro
    requires var n := |MicrosIn(h.nodes[..i])|;
             size <= n * h.layout.microBytes || h.nodes[i] != ExpectedMicro(h.layout, size, n, h.nodes[i].sig)
    ensures !ValidHierarchy(h, size)
  {
    hide CeilDiv, Build, NodeInBounds;
    if ValidHierarchy(h, size) {
      ValidForces(h, size, i);
      MorePossible(i, h.layout.microBytes, size);
    }
  }

  // ---- What acceptance means, without building ----

  /**
   A hierarchy is coherent when its nodes are in bounds and consist of a level of MICROs, BLOCKs and
   PAGEs that each tile the size, and a DOC over all of it, every parent having exactly the children and
   the moments of the nodes below it in its range.
   */
  ghost predicate Coherent(h: Hierarchy, size: nat)
  {
    && h.layout.Valid() && h.root == ROOT
    && (forall i :: 0 <= i < |h.nodes| ==> NodeInBounds(h.nodes[i]))
    && exists micros, blocks, pages, root :: Levels(h, size, micros, blocks, pages, root)
  }

  ghost predicate Levels(h: Hierarchy, size: nat, micros: seq<Node>, blocks: seq<Node>, pages: seq<Node>, root: Node)
    requires h.layout.Valid()
  {
    && h.nodes == micros + blocks + pages + [root]
    && Tiled(micros, size, h.layout.Width(0), Micro) && Tiled(blocks, size, h.layout.Width(1), Block)
    && Tiled(pages, size, h.layout.Width(2), Page)
    && root.id == ROOT && root.kind == Doc && root.offset == 0 && root.sig.n == size
    && forall n :: n in h.nodes ==> Linked(h.nodes, n)
  }

  lemma ExpectedIsTile(layout: Layout, size: nat, micros: seq<Node>)
    requires layout.Valid()
    ensures MicrosTile(layout, size, micros) <==>
            Tiled(micros, size, layout.Width(0), Micro) && forall j :: 0 <= j < |micros| ==> micros[j].children == []
  {
    hide CeilDiv, Layout.Capacity;
    var w := layout.microBytes;
    forall i | 0 <= i < |micros|
      ensures micros[i] == ExpectedMicro(layout, size, i, micros[i].sig) <==>
              TileAt(micros[i], size, w, Micro, i) && micros[i].children == []
    {
      assert (i + 1) * w == i * w + w;
    }
  }

  lemma ValidIsCoherent(h: Hierarchy, size: nat)
    requires ValidHierarchy(h, size)
    ensures Coherent(h, size)
  {
    hide CeilDiv, MicrosTile, Tiled, NodeInBounds, Build, Linked, Layout.Capacity, Layout.Width;
    var layout := h.layout;
    var micros := h.nodes[..CeilDiv(size, layout.microBytes)];
    ExpectedIsTile(layout, size, micros);
    BuildIsLinked(layout, micros, size);
    BuildIs(layout, micros);
    assert Levels(h, size, micros, BlocksOf(layout, micros), PagesOf(layout, micros), RootOf(layout, micros));
  }

  lemma BuildIs(layout: Layout, micros: seq<Node>)
    requires layout.Valid()
    ensures Build(layout, micros) ==
            micros + BlocksOf(layout, micros) + PagesOf(layout, micros) + [RootOf(layout, micros)]
    ensures RootOf(layout, micros).id == ROOT && RootOf(layout, micros).kind == Doc
  {
  }

  lemma CoherentIsValid(h: Hierarchy, size: nat)
    requires Coherent(h, size)
    ensures ValidHierarchy(h, size)
  {
    hide CeilDiv, MicrosTile, NodeInBounds, Build, Linked, Layout.Capacity, Layout.Valid, TileAt;
    var layout := h.layout;
    var micros: seq<Node>, blocks: seq<Node>, pages: seq<Node>, root: Node :|
      Levels(h, size, micros, blocks, pages, root);
    LinkedIsBuilt(layout, micros, blocks, pages, root, size);
    assert |micros| == CeilDiv(size, layout.microBytes);
    assert h.nodes[..|micros|] == micros;
    TiledKind(micros, size, layout.Width(0), Micro);
    forall j | 0 <= j < |micros|
      ensures micros[j].children == []
    {
      assert micros[j] in h.nodes;
      MicroIsLeaf(h.nodes, micros[j]);
    }
    ExpectedIsTile(layout, size, micros);
  }

  lemma MicroIsLeaf(nodes: seq<Node>, n: Node)
    requires Linked(nodes, n) && n.kind == Micro
    ensures n.children == []
  {
  }

  /** Acceptance is coherence: both directions. */
  lemma ValidIff(h: Hierarchy, size: nat)
    ensures ValidHierarchy(h, size) <==> Coherent(h, size)
  {
    hide ValidHierarchy, Coherent;
    if ValidHierarchy(h, size) {
      ValidIsCoherent(h, size);
    }
    if Coherent(h, size) {
      CoherentIsValid(h, size);
    }
  }

  /** What holds of every node of an accepted hierarchy. */
  lemma CoherentMeans(h: Hierarchy, size: nat)
    requires Coherent(h, size)
    ensures h.root == Id(Doc, 1) && h.nodes != []
    ensures var last := h.nodes[|h.nodes| - 1]; last.id == Id(Doc, 1) && last.offset == 0 && last.sig.n == size
    ensures forall n :: n in h.nodes ==>
                          && (n.kind == Micro ==> n.children == [])
                          && (n.kind == Block ==> n.children == IdsIn(Within(h.nodes, Micro, n.offset, EndOf(n))))
                          && (n.kind == Page ==> n.children == IdsIn(Within(h.nodes, Block, n.offset, EndOf(n))))
                          && (n.kind == Doc ==> n.children == IdsIn(Within(h.nodes, Page, n.offset, EndOf(n))))
    ensures forall n :: n in h.nodes ==>
                          && 0 <= n.sig.n < Pow(10, 128) && 0 <= n.offset < Pow(10, 128)
                          && 0 <= n.sig.p0 <= n.sig.p1 <= n.sig.p2 <= n.sig.p3 < Pow(10, 128)
                          && Below(n.sig, SigOf(Saturated(n.sig.n)))
  {
    hide CeilDiv, Linked, Layout.Capacity, Layout.Valid, Tiled, Within, NodeInBounds, SigOf, Pow;
    var micros: seq<Node>, blocks: seq<Node>, pages: seq<Node>, root: Node :|
      Levels(h, size, micros, blocks, pages, root);
    forall n | n in h.nodes
      ensures && (n.kind == Micro ==> n.children == [])
              && (n.kind == Block ==> n.children == IdsIn(Within(h.nodes, Micro, n.offset, EndOf(n))))
              && (n.kind == Page ==> n.children == IdsIn(Within(h.nodes, Block, n.offset, EndOf(n))))
              && (n.kind == Doc ==> n.children == IdsIn(Within(h.nodes, Page, n.offset, EndOf(n))))
    {
      EdgesOf(h.nodes, n);
    }
    forall n | n in h.nodes
      ensures 0 <= n.sig.n < Pow(10, 128) && 0 <= n.offset < Pow(10, 128)
      ensures 0 <= n.sig.p0 <= n.sig.p1 <= n.sig.p2 <= n.sig.p3 < Pow(10, 128)
      ensures Below(n.sig, SigOf(Saturated(n.sig.n)))
    {
      BoundsOf(n);
    }
  }

  lemma BoundsOf(n: Node)
    requires NodeInBounds(n)
    ensures 0 <= n.sig.n < Pow(10, 128) && 0 <= n.offset < Pow(10, 128)
    ensures 0 <= n.sig.p0 <= n.sig.p1 <= n.sig.p2 <= n.sig.p3 < Pow(10, 128)
    ensures Below(n.sig, SigOf(Saturated(n.sig.n)))
  {
    hide WithinBounds, Pow, SigOf;
    BoundsBySaturated(n.sig);
  }

  /** format.validate_hierarchy. */
  method ValidateHierarchy(h: Hierarchy, size: nat) returns (r: Result<()>)
    ensures r.Ok? <==> ValidHierarchy(h, size)
    ensures r.Ok? <==> Coherent(h, size)
    ensures r.Ok? ==>
              forall n :: n in h.nodes ==>
                            && (n.kind == Micro ==> n.children == [])
                            && (n.kind == Block ==> n.children == IdsIn(Within(h.nodes, Micro, n.offset, EndOf(n))))
                            && (n.kind == Page ==> n.children == IdsIn(Within(h.nodes, Block, n.offset, EndOf(n))))
                            && (n.kind == Doc ==> n.children == IdsIn(Within(h.nodes, Page, n.offset, EndOf(n))))
  {
    hide CeilDiv, Build, Pow, WithinBounds, Layout.Capacity, Coherent, Within, IdsIn;
    ValidIff(h, size);
    if Coherent(h, size) {
      CoherentMeans(h, size);
    }
    if !h.layout.Valid() {
      return ValueError;
    }
    var layout := h.layout;
    if h.nodes == [] {
      EmptyIsInvalid(h, size);
      return ValueError;
    }
    var micros: seq<Node> := [];
    var i := 0;
    while i < |h.nodes|
      invariant 0 <= i <= |h.nodes|
      invariant micros == MicrosIn(h.nodes[..i]) && |micros| <= i
      invariant forall j :: 0 <= j < i ==> NodeInBounds(h.nodes[j])
      invariant forall j :: 0 <= j < |micros| ==> micros[j] == ExpectedMicro(layout, size, j, micros[j].sig)
    {
      var node := h.nodes[i];
      var inBounds := CheckNode(node);
      if !inBounds {
        return ValueError;
      }
      assert h.nodes[..i + 1][..i] == h.nodes[..i];
      if node.kind == Micro {
        if size <= |micros| * layout.microBytes || node != ExpectedMicro(layout, size, |micros|, node.sig) {
          BadMicro(h, size, i);
          return ValueError;
        }
        micros := micros + [node];
      }
      i := i + 1;
    }
    assert h.nodes[..i] == h.nodes;
    if ValidHierarchy(h, size) {
      ValidForces(h, size, i);
    }
    if |micros| != CeilDiv(size, layout.microBytes) {
      return ValueError;
    }
    var built := BuildNodes(layout, micros);
    BuildKeepsMicros(layout, micros);
    if h.root != ROOT || h.nodes != built {
      return ValueError;
    }
    r := Ok(());
  }

  lemma EmptyIsInvalid(h: Hierarchy, size: nat)
    requires h.nodes == []
    ensures !ValidHierarchy(h, size)
  {
  }

  lemma BuildKeepsMicros(layout: Layout, micros: seq<Node>)
    requires layout.Valid()
    ensures |micros| < |Build(layout, micros)| && Build(layout, micros)[..|micros|] == micros
  {
  }

  /** validate_signature and natural(offset) on one node. */
  method CheckNode(node: Node) returns (ok: bool)
    ensures ok <==> NodeInBounds(node)
  {
    var s := node.sig;
    if !(Decimal(s.n) && Decimal(s.p0) && Decimal(s.p1) && Decimal(s.p2) && Decimal(s.p3)) {
      return false;
    }
    var n := s.n;
    var powerSums := [n, n * (n + 1) / 2, n * (n + 1) * (2 * n + 1) / 6, (n * (n + 1) / 2) * (n * (n + 1) / 2)];
    var moments := [s.p0, s.p1, s.p2, s.p3];
    var k := 0;
    while k < 4
      invariant 0 <= k <= 4
      invariant forall j :: 0 <= j < k ==> s.P(j) <= 255 * PowerSum(j, n)
    {
      assert moments[k] == s.P(k) && powerSums[k] == PowerSum(k, n);
      if moments[k] > 255 * powerSums[k] {
        return false;
      }
      k := k + 1;
    }
    ok := s.p0 <= s.p1 <= s.p2 <= s.p3 && Decimal(node.offset);
  }

  /** Layout, size and the MICRO signatures determine an accepted hierarchy completely. */
  lemma ValidIsDetermined(h: Hierarchy, h': Hierarchy, size: nat)
    requires ValidHierarchy(h, size) && ValidHierarchy(h', size) && h.layout == h'.layout
    requires forall i :: 0 <= i < CeilDiv(size, h.layout.microBytes) ==> h.nodes[i].sig == h'.nodes[i].sig
    ensures h == h'
  {
    hide CeilDiv, Build, NodeInBounds, ExpectedMicro;
    var k := CeilDiv(size, h.layout.microBytes);
    var (m, m') := (h.nodes[..k], h'.nodes[..k]);
    forall i | 0 <= i < k
      ensures m[i] == m'[i]
    {
      assert m[i] == ExpectedMicro(h.layout, size, i, m[i].sig);
      assert m'[i] == ExpectedMicro(h.layout, size, i, m'[i].sig);
    }
    assert m == m';
  }

  lemma DecimalBelow(x: int)
    requires 0 <= x < Pow(2, 260)
    ensures Decimal(x)
  {
    PowPow(2, 3, 128);
    PowMonotone(2, 260, 384);
    PowBaseMonotone(8, 10, 128);
    assert Pow(2, 3) == 8;
  }

  lemma SigInBounds(data: seq<Byte>)
    requires |data| < Pow(2, 63)
    ensures var s := SigOf(data);
            && WithinBounds(s)
            && Decimal(s.n) && Decimal(s.p0) && Decimal(s.p1) && Decimal(s.p2) && Decimal(s.p3)
  {
    hide Decimal;
    SigOfWithinBounds(data);
    var s := SigOf(data);
    BoundedMagnitude(s);
    DecimalBelow(s.n);
    DecimalBelow(s.p0);
    DecimalBelow(s.p1);
    DecimalBelow(s.p2);
    DecimalBelow(s.p3);
  }

  lemma LevelInBounds(nodes: seq<Node>, data: seq<Byte>, w: nat, kind: NodeKind)
    requires 0 < w && |data| < Pow(2, 63) && Covers(nodes, data, w, kind)
    ensures forall i :: 0 <= i < |nodes| ==> NodeInBounds(nodes[i])
  {
    forall i | 0 <= i < |nodes|
      ensures NodeInBounds(nodes[i])
    {
      hide CeilDiv, SigOf, Decimal, WithinBounds, Covers, Pow;
      LevelTiles(nodes, data, w, kind, i);
      SigInBounds(data[nodes[i].offset..nodes[i].offset + nodes[i].sig.n]);
      PowMonotone(2, 63, 260);
      DecimalBelow(nodes[i].offset);
    }
  }

  /** The index of any data below 2^63 bytes passes validation. */
  lemma AnalysisIsValid(layout: Layout, data: seq<Byte>)
    requires layout.Valid() && |data| < Pow(2, 63)
    ensures ValidHierarchy(HierarchyOf(layout, data), |data|)
  {
    hide CeilDiv, SigOf, NodeInBounds, Covers, Group, CombineAll, Pow, Layout.Capacity, GroupOf;
    var micros := MicrosOf(layout, data);
    IndexAgrees(layout, data);
    LevelInBounds(micros, data, layout.Width(0), Micro);
    LevelInBounds(BlocksOf(layout, micros), data, layout.Width(1), Block);
    LevelInBounds(PagesOf(layout, micros), data, layout.Width(2), Page);
    RootInBounds(layout, data);
    BuildKeepsMicros(layout, micros);
    forall i | 0 <= i < |micros|
      ensures micros[i] == ExpectedMicro(layout, |data|, i, micros[i].sig)
    {
      MicroIsExpected(layout, data, i);
    }
  }

  lemma RootInBounds(layout: Layout, data: seq<Byte>)
    requires layout.Valid() && |data| < Pow(2, 63)
    ensures NodeInBounds(RootOf(layout, MicrosOf(layout, data)))
  {
    hide SigOf, CombineAll, WithinBounds, Covers;
    IndexAgrees(layout, data);
    SigInBounds(data);
    PowPositive(10, 128);
  }

  lemma MicroIsExpected(layout: Layout, data: seq<Byte>, i: nat)
    requires layout.Valid() && i < CeilDiv(|data|, layout.microBytes)
    ensures MicrosOf(layout, data)[i] == ExpectedMicro(layout, |data|, i, MicrosOf(layout, data)[i].sig)
  {
    hide CeilDiv, SigOf, Layout.Capacity, GroupOf;
    var w := layout.microBytes;
    LengthOfGroup(data, w, i);
    SigLength(GroupOf(data, w, i));
  }

  lemma LengthOfGroup(data: seq<Byte>, w: nat, i: nat)
    requires 0 < w && i < CeilDiv(|data|, w)
    ensures |GroupOf(data, w, i)| == if w <= |data| - i * w then w else |data| - i * w
  {
    hide CeilDiv;
    GroupRange(i, w, |data|);
    assert (i + 1) * w == i * w + w;
  }

  lemma SigLength(data: seq<Byte>)
    ensures SigOf(data).n == |data|
  {
  }

  // ---- Documents ----

  /** The numeric part of validate_document. */
  ghost predicate ValidMetadata(doc: Metadata)
  {
    && Decimal(doc.size) && Decimal(doc.fingerprint.0) && Decimal(doc.fingerprint.1)
    && |doc.histogram| == 16 && (forall i :: 0 <= i < 16 ==> Decimal(doc.histogram[i]))
    && doc.fingerprint.0 == doc.size && Sum(doc.histogram) == doc.size
    && doc.fingerprint.1 == WeightedSum(doc.histogram)
    && (doc.large.Some? ==> ValidHierarchy(doc.large.value, doc.size))
  }

  /** The numeric part of format.validate_document. */
  method ValidateMetadata(doc: Metadata) returns (ok: bool)
    ensures ok <==> ValidMetadata(doc)
    ensures ok ==>
              var h := doc.histogram;
              && |h| == 16
              && doc.size == doc.fingerprint.0
              && doc.size == h[0] + h[1] + h[2] + h[3] + h[4] + h[5] + h[6] + h[7]
                             + h[8] + h[9] + h[10] + h[11] + h[12] + h[13] + h[14] + h[15]
              && doc.fingerprint.1 ==
                 h[0] + 2 * h[1] + 3 * h[2] + 4 * h[3] + 5 * h[4] + 6 * h[5] + 7 * h[6] + 8 * h[7]
                 + 9 * h[8] + 10 * h[9] + 11 * h[10] + 12 * h[11] + 13 * h[12] + 14 * h[13] + 15 * h[14] + 16 * h[15]
  {
    hide Pow, ValidHierarchy, Sum, WeightedSum;
    if !(Decimal(doc.size) && Decimal(doc.fingerprint.0) && Decimal(doc.fingerprint.1) && |doc.histogram| == 16) {
      return false;
    }
    var i := 0;
    while i < 16
      invariant 0 <= i <= 16 && forall j :: 0 <= j < i ==> Decimal(doc.histogram[j])
    {
      if !Decimal(doc.histogram[i]) {
        return false;
      }
      i := i + 1;
    }
    SumsOfSixteen(doc.histogram);
    if doc.fingerprint.0 != doc.size || Sum(doc.histogram) != doc.size
       || doc.fingerprint.1 != WeightedSum(doc.histogram) {
      return false;
    }
    if doc.large.Some? {
      var hierarchy := ValidateHierarchy(doc.large.value, doc.size);
      return hierarchy.Ok?;
    }
    ok := true;
  }

  function LayoutOf(doc: Metadata): Option<Layout>
  {
    if doc.large.Some? then Some(doc.large.value.layout) else None
  }

  const PROFILE := "raw-byte-pair-or-msb-v1"
  const PROVENANCE := Provenance("@luqmanwah", "chatgpt:6a99b94e-9758-83ec-8246-c2290888ad53", "2026-09-17",
                                 "smtyx-python/0.1.0")

  /** The whole document: the analysis of a source, and what is declared around it. */
  datatype MetadataFile = MetadataFile(format: string, version: int, profile: string, mode: string, name: string,
                                       body: Metadata, route: Option<Route>, metadataOnly: bool,
                                       rawDecodeSupported: bool, provenance: Provenance)

  /** The document of a source. */
  function FileOf(w: World, name: string, data: seq<Byte>, mode: string, layout: Layout, route: Option<Route>)
    : MetadataFile
    requires layout.Valid()
  {
    MetadataFile("SMTYX-METADATA", 1, PROFILE, mode, name, MetadataOf(w.hash, data, LayoutFor(mode, layout)), route,
                 true, false, PROVENANCE)
  }

  predicate RouteFits(w: World, route: Option<Route>, contentHash: seq<Byte>)
  {
    (route.Some? ==> w.routeValid(route.value)) && w.RouteMatches(route, contentHash)
  }

  /** The documents validate_document returns. */
  ghost predicate ValidDocument(w: World, doc: MetadataFile)
  {
    && doc.format == "SMTYX-METADATA" && doc.version == 1 && doc.profile == PROFILE && KnownMode(doc.mode)
    && doc.metadataOnly && !doc.rawDecodeSupported && doc.provenance == PROVENANCE
    && doc.name != "" && |doc.body.sha256| == 32
    && ValidMetadata(doc.body)
    && (doc.mode == "LARGE" <==> doc.body.large.Some?)
    && RouteFits(w, doc.route, doc.body.sha256)
  }

  /** format.validate_document. */
  method ValidateDocument(w: World, doc: MetadataFile) returns (ok: bool)
    ensures ok <==> ValidDocument(w, doc)
    ensures ok <==>
            && doc.format == "SMTYX-METADATA" && doc.version == 1 && doc.profile == "raw-byte-pair-or-msb-v1"
            && doc.metadataOnly && !doc.rawDecodeSupported && doc.provenance == PROVENANCE
            && doc.name != "" && |doc.body.sha256| == 32
            && ((doc.mode == "LARGE" && doc.body.large.Some?) || (doc.mode == "SMALL" && doc.body.large.None?))
            && ValidMetadata(doc.body)
            && (doc.route.Some? ==> w.routeValid(doc.route.value))
            && (doc.route.Some? && doc.route.value.entryClass == "FILE" ==> doc.route.value.sha256 == doc.body.sha256)
  {
    hide ValidMetadata, PROVENANCE;
    if doc.format != "SMTYX-METADATA" || doc.version != 1 {
      return false;
    }
    if doc.profile != PROFILE || !KnownMode(doc.mode) {
      return false;
    }
    if !doc.metadataOnly || doc.rawDecodeSupported || doc.provenance != PROVENANCE {
      return false;
    }
    if doc.name == "" || |doc.body.sha256| != 32 {
      return false;
    }
    var numbers := ValidateMetadata(doc.body);
    if !numbers || (doc.mode == "LARGE") != doc.body.large.Some? {
      return false;
    }
    if doc.route.Some? {
      if !w.routeValid(doc.route.value) {
        return false;
      }
      if doc.route.value.entryClass == "FILE" && doc.route.value.sha256 != doc.body.sha256 {
        return false;
      }
    }
    ok := true;
  }

  /** format.encode, up to writing the file. */
  method Encode(w: World, name: string, data: seq<Byte>, before: Stat, after: Stat, mode: string, layout: Layout,
                route: Option<Route>, maxNodes: int)
    returns (r: Result<MetadataFile>)
    requires layout.Valid()
    ensures r.Ok? <==>
            && KnownMode(mode) && before == after && Analyzable(data, before.size, LayoutFor(mode, layout), maxNodes)
            && ValidDocument(w, FileOf(w, name, data, mode, layout, route))
    ensures r.Ok? ==> r.value == FileOf(w, name, data, mode, layout, route)
    ensures r.Ok? ==>
              && r.value.name == name && r.value.route == route && r.value.mode == mode
              && r.value.body == MetadataOf(w.hash, data, if mode == "LARGE" then Some(layout) else None)
  {
    hide ValidDocument, MetadataOf, Analyzable;
    AnalyzableMeans(data, before.size, mode, layout, maxNodes);
    var analysis := AnalyzeFile(w.hash, data, before, after, mode, layout, maxNodes);
    if analysis.ValueError? {
      return ValueError;
    }
    var doc := MetadataFile("SMTYX-METADATA", 1, PROFILE, mode, name, analysis.value, route, true, false, PROVENANCE);
    var valid := ValidateDocument(w, doc);
    if !valid {
      return ValueError;
    }
    r := Ok(doc);
  }

  /**
   format.verify_source: true exactly when the document is valid and its analysis is that of the source.
   The node budget taken from the document never rejects the right source.
   */
  method VerifySource(w: World, doc: MetadataFile, source: seq<Byte>, before: Stat, after: Stat)
    returns (verified: bool)
    ensures verified <==>
            && ValidDocument(w, doc)
            && before == after && before.size == |source|
            && (doc.body.large.Some? ==> doc.body.large.value.layout.Valid())
            && doc.body == MetadataOf(w.hash, source, LayoutOf(doc.body))
  {
    hide ValidHierarchy, ValidMetadata, CeilDiv, SigOf, Weight, Histogram, Build, MicrosOf, Pow, RouteFits;
    var valid := ValidateDocument(w, doc);
    if !valid {
      return false;
    }
    if doc.body.large.Some? {
      ValidHasLayout(doc.body);
    }
    var layout := if doc.body.large.Some? then doc.body.large.value.layout else Layout(32, 4, 32);
    var maxNodes := if doc.body.large.Some? then |doc.body.large.value.nodes| else 1;
    AnalyzableMeans(source, before.size, doc.mode, layout, maxNodes);
    var actual := AnalyzeFile(w.hash, source, before, after, doc.mode, layout, maxNodes);
    assert LayoutFor(doc.mode, layout) == LayoutOf(doc.body);
    if doc.body == MetadataOf(w.hash, source, LayoutOf(doc.body)) {
      BudgetOfDocument(w.hash, source, LayoutOf(doc.body));
    }
    if actual.ValueError? || actual.value != doc.body {
      return false;
    }
    verified := true;
  }

  /** A document written for a source verifies against that source. */
  method EncodeThenVerify(w: World, name: string, data: seq<Byte>, before: Stat, after: Stat, mode: string,
                          layout: Layout, route: Option<Route>, maxNodes: int)
    returns (verified: bool)
    requires layout.Valid() && w.Faithful() && |data| < Pow(2, 63)
    requires (mode == "SMALL" || mode == "LARGE") && before == after && before.size == |data| && maxNodes >= 1
    requires mode == "LARGE" ==> |HierarchyOf(layout, data).nodes| <= maxNodes
    ensures verified <==>
            && name != "" && (route.Some? ==> w.routeValid(route.value))
            && (route.Some? && route.value.entryClass == "FILE" ==> route.value.sha256 == w.hash(data))
  {
    hide Analyzable, ValidDocument, Build, Pow, Weight, Histogram;
    AnalyzableMeans(data, before.size, mode, layout, maxNodes);
    DocumentIsValid(w, name, data, mode, layout, route);
    var doc := Encode(w, name, data, before, after, mode, layout, route, maxNodes);
    if doc.ValueError? {
      return false;
    }
    AnalyzedSize(data, before.size, LayoutFor(mode, layout), maxNodes);
    verified := VerifySource(w, doc.value, data, before, after);
  }

  lemma AnalyzedSize(data: seq<Byte>, statSize: nat, layout: Option<Layout>, maxNodes: int)
    requires (layout.Some? ==> layout.value.Valid()) && Analyzable(data, statSize, layout, maxNodes)
    ensures statSize == |data|
  {
  }

  lemma ValidHasLayout(doc: Metadata)
    requires ValidMetadata(doc) && doc.large.Some?
    ensures doc.large.value.layout.Valid()
  {
  }

  lemma BudgetOfDocument(hash: seq<Byte> -> seq<Byte>, data: seq<Byte>, layout: Option<Layout>)
    requires layout.Some? ==> layout.value.Valid()
    ensures var doc := MetadataOf(hash, data, layout);
            Analyzable(data, |data|, layout, if doc.large.Some? then |doc.large.value.nodes| else 1)
  {
    if layout.Some? {
      NodeCountIsExact(layout.value, MicrosOf(layout.value, data), |data|);
    }
  }

  /** The document of a source below 2^63 bytes is valid exactly when the name and the route are. */
  lemma DocumentIsValid(w: World, name: string, data: seq<Byte>, mode: string, layout: Layout, route: Option<Route>)
    requires w.Faithful() && layout.Valid() && |data| < Pow(2, 63) && KnownMode(mode)
    ensures ValidDocument(w, FileOf(w, name, data, mode, layout, route)) <==>
            && name != "" && (route.Some? ==> w.routeValid(route.value))
            && (route.Some? && route.value.entryClass == "FILE" ==> route.value.sha256 == w.hash(data))
  {
    hide ValidMetadata, MetadataOf, PROFILE, PROVENANCE, Pow;
    MetadataIsValid(w.hash, data, LayoutFor(mode, layout));
    MetadataParts(w.hash, data, LayoutFor(mode, layout));
  }

  lemma MetadataParts(hash: seq<Byte> -> seq<Byte>, data: seq<Byte>, layout: Option<Layout>)
    requires layout.Some? ==> layout.value.Valid()
    ensures MetadataOf(hash, data, layout).sha256 == hash(data)
    ensures MetadataOf(hash, data, layout).large.Some? == layout.Some?
  {
  }

  /** The analysis of every source below 2^63 bytes passes the numeric checks. */
  lemma MetadataIsValid(hash: seq<Byte> -> seq<Byte>, data: seq<Byte>, layout: Option<Layout>)
    requires (layout.Some? ==> layout.value.Valid()) && |data| < Pow(2, 63)
    ensures ValidMetadata(MetadataOf(hash, data, layout))
  {
    hide ValidHierarchy, CeilDiv, SigOf, Weight, Histogram, Build, MicrosOf, Sum, WeightedSum, Pow, HierarchyOf;
    FingerprintOfHistogram(data);
    PowMonotone(2, 63, 260);
    PowMonotone(2, 68, 260);
    DecimalBelow(|data|);
    WeightBound(data);
    DecimalBelow(Weight(data));
    forall i | 0 <= i < 16
      ensures Decimal(Histogram(data)[i])
    {
      CountBound(data, i);
      DecimalBelow(Histogram(data)[i]);
    }
    if layout.Some? {
      AnalysisIsValid(layout.value, data);
      HierarchyOfLayout(layout.value, data);
    }
  }

  lemma HierarchyOfLayout(layout: Layout, data: seq<Byte>)
    requires layout.Valid()
    ensures HierarchyOf(layout, data).layout == layout
  {
  }

  lemma {:induction false} CountBound(data: seq<Byte>, s: State)
    ensures Histogram(data)[s] == CountState(data, s) <= |data|
  {
    if data != [] {
      CountBound(data[..|data| - 1], s);
    }
  }

  lemma {:induction false} WeightBound(data: seq<Byte>)
    ensures |data| <= Weight(data) <= 16 * |data|
    ensures |data| < Pow(2, 63) ==> Weight(data) < Pow(2, 68)
  {
    PowAdd(2, 4, 63);
    PowMonotone(2, 67, 68);
    if data != [] {
      WeightBound(data[..|data| - 1]);
    }
  }
}
