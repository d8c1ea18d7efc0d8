/** encode_exact: one method per loop of the source, each proved against the container definition. */
module ExactEncode {
  import opened Wrappers
  import opened Arithmetic
  import opened Moments
  import opened Clusters
  import opened Streams
  import opened Varint
  import opened MicroCodec
  import opened MicroMethods
  import opened Layouts
  import opened Container
  import opened Records

  // ---- Node counts ----

  /** The counts after `n` more bytes whose nodes up to `level` are complete. */
  function Counted(c: Counts, layout: Layout, level: nat, n: nat): Counts
    requires layout.Valid() && level < 3
  {
    Counts(c.micro + CeilDiv(n, layout.Width(0)),
           c.block + (if level >= 1 then CeilDiv(n, layout.Width(1)) else 0),
           c.page + (if level >= 2 then CeilDiv(n, layout.Width(2)) else 0),
           c.doc)
  }

  lemma CeilDivAligned(k: nat, w: nat, r: nat)
    requires 0 < w
    ensures CeilDiv(k * w + r, w) == CeilDiv(k * w, w) + CeilDiv(r, w)
  {
    CeilDivSplit(k, w, r);
    CeilDivSplit(k, w, 0);
    CeilDivBounds(0, w);
  }

  lemma CeilDivZero(w: nat)
    requires 0 < w
    ensures CeilDiv(0, w) == 0
  {
    CeilDivBounds(0, w);
  }

  lemma CeilDivOne(n: nat, w: nat)
    requires 1 <= n <= w
    ensures CeilDiv(n, w) == 1
  {
    CeilDivUnique(n, w, 1);
  }

  /** Full nodes of a level consist of full nodes of the levels below. */
  lemma WidthsNest(layout: Layout, j: nat)
    requires layout.Valid()
    ensures j * layout.Width(1) == (j * layout.microsPerBlock) * layout.Width(0)
    ensures j * layout.Width(2) == (j * layout.blocksPerPage) * layout.Width(1)
  {
    MulAssociates(j, layout.microsPerBlock, layout.microBytes);
    MulAssociates(j, layout.blocksPerPage, layout.microBytes * layout.microsPerBlock);
    assert layout.Width(1) == layout.microsPerBlock * layout.microBytes;
    assert layout.Width(2) == layout.blocksPerPage * (layout.microBytes * layout.microsPerBlock);
  }

  lemma CountedNone(c: Counts, layout: Layout, level: nat)
    requires layout.Valid() && level < 3
    ensures Counted(c, layout, level, 0) == c
  {
    CeilDivZero(layout.Width(0));
    CeilDivZero(layout.Width(1));
    CeilDivZero(layout.Width(2));
  }

  /** Counting resumes at a node boundary. */
  lemma CountedAligned(c: Counts, layout: Layout, level: nat, j: nat, r: nat)
    requires layout.Valid() && level < 3
    ensures Counted(Counted(c, layout, level, j * layout.Width(level)), layout, level, r) ==
            Counted(c, layout, level, j * layout.Width(level) + r)
  {
    hide CeilDiv, Layout.Width;
    if level == 0 {
      CeilDivAligned(j, layout.Width(0), r);
    } else if level == 1 {
      WidthsNest(layout, j);
      CeilDivAligned(j, layout.Width(1), r);
      CeilDivAligned(j * layout.microsPerBlock, layout.Width(0), r);
    } else {
      WidthsNest(layout, j);
      WidthsNest(layout, j * layout.blocksPerPage);
      CeilDivAligned(j, layout.Width(2), r);
      CeilDivAligned(j * layout.blocksPerPage, layout.Width(1), r);
      CeilDivAligned(j * layout.blocksPerPage * layout.microsPerBlock, layout.Width(0), r);
    }
  }

  /** Closing a node adds it to the count of its level. */
  lemma CountedCloses(c: Counts, layout: Layout, level: nat, n: nat)
    requires layout.Valid() && 1 <= level < 3 && 1 <= n <= layout.Width(level)
    ensures level == 1 ==> Counted(c, layout, 1, n) == Counted(c, layout, 0, n).(block := c.block + 1)
    ensures level == 2 ==> Counted(c, layout, 2, n) == Counted(c, layout, 1, n).(page := c.page + 1)
  {
    CeilDivOne(n, layout.Width(level));
  }

  // ---- Loop progress ----

  /** The bytes covered when a `range(start, start + n, w)` loop has advanced by `done`. */
  function Covered(done: nat, n: nat): nat
  {
    if done <= n then done else n
  }

  /** `done` is a whole number of steps. */
  predicate Steps(done: nat, w: nat)
    requires 0 < w
  {
    done % w == 0
  }

  lemma StepsAre(done: nat, w: nat)
    requires 0 < w && Steps(done, w)
    ensures done == (done / w) * w
  {
  }

  lemma OneMoreStep(done: nat, w: nat)
    requires 0 < w
    ensures Steps(0, w)
    ensures Steps(done, w) ==> Steps(done + w, w)
  {
    DivModUnique(0, w, 0);
    if Steps(done, w) {
      StepsAre(done, w);
      assert (done / w + 1) * w == done + w;
      DivModUnique(done / w + 1, w, 0);
    }
  }

  lemma TakeMore(s: seq<Byte>, a: nat, b: nat)
    requires a + b <= |s|
    ensures s[..a + b] == s[..a] + s[a..][..b]
    ensures s[a..][b..] == s[a + b..]
  {
  }

  /** Writing the frame of a node whose children are already written. */
  lemma CloseUnit(layout: Layout, level: nat, data: seq<Byte>)
    requires layout.Valid() && 1 <= level <= 3 && |data| < Pow(2, 63)
    ensures Natural(SigOf(data)) && SigFits(SigOf(data)) && |SigBytes(SigOf(data))| <= MAX_RECORD
    ensures Unit(layout, level, data) ==
            Children(layout, level, data) + Frame(Kind(level), SigBytes(SigOf(data)))
  {
    NodePayloadLength(data);
    SigOfFits(data);
  }

  // ---- What a loop has achieved, as a relation between states ----

  /** The state the encoder's loops work on: unread input, container so far, bytes counted, node counts. */
  datatype Snapshot = Snapshot(rest: seq<Byte>, stream: seq<Byte>, digest: seq<Byte>, counts: Counts)

  ghost function Snap(original: ByteStream, writer: RecordWriter, stats: Statistics): Snapshot
    requires original.Valid()
    reads original, writer, stats
  {
    Snapshot(original.Rest(), writer.stream, stats.digest, stats.counts)
  }

  /** The effect of writing one complete node over the next `n` input bytes. */
  ghost predicate Wrote(layout: Layout, level: nat, before: Snapshot, after: Snapshot, n: nat, math: Sig)
    requires layout.Valid() && level < 3
  {
    && n <= |before.rest|
    && var data := before.rest[..n];
    && after.rest == before.rest[n..]
    && after.stream == before.stream + Unit(layout, level, data)
    && after.digest == before.digest + data
    && after.counts == Counted(before.counts, layout, level, n)
    && math == SigOf(data)
  }

  /** The same for the children a loop has written when it has advanced by `done` in a node of `n` bytes. */
  ghost predicate Progress(layout: Layout, level: nat, before: Snapshot, now: Snapshot, done: nat, n: nat, math: Sig)
    requires layout.Valid() && 1 <= level <= 3
  {
    && Steps(done, layout.Width(level - 1))
    && var c := Covered(done, n);
    && c <= |before.rest|
    && var data := before.rest[..c];
    && now.rest == before.rest[c..]
    && now.stream == before.stream + Children(layout, level, data)
    && now.digest == before.digest + data
    && now.counts == Counted(before.counts, layout, level - 1, c)
    && math == SigOf(data)
  }

  lemma ProgressStart(layout: Layout, level: nat, s: Snapshot, n: nat)
    requires layout.Valid() && 1 <= level <= 3
    ensures Progress(layout, level, s, s, 0, n, ZERO_SIG)
  {
    hide Counted, Layout.Width, Steps;
    OneMoreStep(0, layout.Width(level - 1));
    CountedNone(s.counts, layout, level - 1);
    assert s.rest[..0] == [] && s.rest[0..] == s.rest;
    assert s.stream + [] == s.stream && s.digest + [] == s.digest;
  }

  /** The length of the next child. */
  function NextLength(w: nat, left: nat): nat
  {
    if w <= left then w else left
  }

  /** One more child: its signature is folded in with concatenate, its records follow the earlier ones. */
  lemma ProgressStep(layout: Layout, level: nat, before: Snapshot, now: Snapshot, next: Snapshot,
                     done: nat, n: nat, math: Sig, child: Sig)
    requires layout.Valid() && 1 <= level <= 3 && done < n
    requires Progress(layout, level, before, now, done, n, math)
    requires Wrote(layout, level - 1, now, next, NextLength(layout.Width(level - 1), n - done), child)
    ensures Progress(layout, level, before, next, done + layout.Width(level - 1), n, Combine(math, child))
  {
    hide Unit, Children, SigOf, Combine, Layout.Width, Counted, Steps;
    var w := layout.Width(level - 1);
    var length := NextLength(w, n - done);
    OneMoreStep(done, w);
    StepsAre(done, w);
    var (data, chunk) := (before.rest[..done], now.rest[..length]);
    TakeMore(before.rest, done, length);
    ChildrenSnoc(layout, level, done / w, data, chunk);
    SigOfConcat(data, chunk);
    CountedAligned(before.counts, layout, level - 1, done / w, length);
    assert next.stream == before.stream + (Children(layout, level, data) + Unit(layout, level - 1, chunk));
    assert next.digest == before.digest + (data + chunk);
  }

  /** The input ends inside the next child exactly when it ends inside the node, at the latest. */
  lemma ProgressStuck(layout: Layout, level: nat, before: Snapshot, now: Snapshot, done: nat, n: nat, math: Sig)
    requires layout.Valid() && 1 <= level <= 3 && done < n
    requires Progress(layout, level, before, now, done, n, math)
    ensures |now.rest| == |before.rest| - done
  {
  }

  /** All children are written: the node's own record and count complete it. */
  lemma ProgressEnd(layout: Layout, level: nat, before: Snapshot, now: Snapshot, done: nat, n: nat, math: Sig)
    requires layout.Exact() && 1 <= level < 3 && SizeAt(layout, level, n) && n <= done
    requires Progress(layout, level, before, now, done, n, math)
    ensures Natural(math) && SigFits(math) && |SigBytes(math)| <= MAX_RECORD && n <= |before.rest|
    ensures var closed := now.(stream := now.stream + Frame(Kind(level), SigBytes(math)));
            && (level == 1 ==>
                  Wrote(layout, 1, before, closed.(counts := now.counts.(block := now.counts.block + 1)), n, math))
            && (level == 2 ==>
                  Wrote(layout, 2, before, closed.(counts := now.counts.(page := now.counts.page + 1)), n, math))
  {
    hide Children, SigOf, Layout.Width, Frame, SigBytes, SigFits;
    SizeIsSmall(layout, level, n);
    CloseUnit(layout, level, before.rest[..n]);
    CountedCloses(before.counts, layout, level, n);
    CountedKeeps(before.counts, layout, n);
  }

  lemma CountedKeeps(c: Counts, layout: Layout, n: nat)
    requires layout.Valid()
    ensures Counted(c, layout, 0, n).block == c.block && Counted(c, layout, 1, n).page == c.page
  {
  }

  lemma CombinePair(a: Sig, b: Sig)
    ensures CombineAll([a, b]) == Combine(a, b)
  {
    assert [a, b][..1] == [a];
    assert [a][..0] == [];
    CombineUnit(a);
    assert CombineAll([a]) == Combine(CombineAll([]), a);
  }

  lemma ChildSize(layout: Layout, level: nat, left: nat)
    requires layout.Valid() && 1 <= level <= 3 && 1 <= left
    ensures SizeAt(layout, level - 1, NextLength(layout.Width(level - 1), left))
    ensures 1 <= NextLength(layout.Width(level - 1), left) <= left
  {
  }

  lemma ExactIsValid(layout: Layout)
    requires layout.Exact()
    ensures layout.Valid()
  {
  }

  /** concatenate([math, child]). */
  method Fold(math: Sig, child: Sig) returns (r: Sig)
    ensures r == Combine(math, child)
  {
    r := Concatenate([math, child]);
    CombinePair(math, child);
  }

  /** What each loop keeps: the objects are in order, and the children written so far are accounted for. */
  ghost predicate Encoding(layout: Layout, level: nat, before: Snapshot, original: ByteStream, writer: RecordWriter,
                           stats: Statistics, done: nat, n: nat, math: Sig)
    requires layout.Valid() && 1 <= level <= 3
    reads original, writer, stats
  {
    && original.Valid() && writer.Synced() && stats.Consistent()
    && Progress(layout, level, before, Snap(original, writer, stats), done, n, math)
  }

  // ---- The loops ----

  /** The body of the innermost loop: one MICRO record. */
  method EncodeChunk(original: ByteStream, writer: RecordWriter, stats: Statistics, layout: Layout, length: nat)
    returns (r: Result<Sig>)
    requires layout.Exact() && SizeAt(layout, 0, length)
    requires original.Valid() && writer.Synced() && stats.Consistent()
    modifies original, writer, stats
    ensures original.Valid() && writer.Synced() && stats.Consistent() && stats.root == old(stats.root)
    ensures r.Ok? <==> length <= |old(original.Rest())|
    ensures r.Ok? ==>
              Wrote(layout, 0, old(Snap(original, writer, stats)), Snap(original, writer, stats), length, r.value)
  {
    hide MicroPayload, SigOf, Histogram, Frame, CeilDiv;
    ghost var all := original.Rest();
    var data := original.Read(length);
    if |data| != length {
      return ValueError;
    }
    assert data == all[..length];
    var micro := EncodeMicro(data);
    MicroPayloadLength(data);
    var written := writer.Record(77, micro.value.0);
    stats.Update(data);
    CeilDivOne(length, layout.Width(0));
    r := Ok(micro.value.1);
  }

  /** One pass of the inner loop. */
  method NextMicro(original: ByteStream, writer: RecordWriter, stats: Statistics, layout: Layout,
                   ghost start: Snapshot, done: nat, n: nat, blockMath: Sig)
    returns (r: Result<Sig>)
    requires layout.Exact() && done < n
    requires Encoding(layout, 1, start, original, writer, stats, done, n, blockMath)
    modifies original, writer, stats
    ensures original.Valid() && writer.Synced() && stats.Consistent() && stats.root == old(stats.root)
    ensures r.ValueError? ==> |start.rest| < n
    ensures r.Ok? ==>
              Encoding(layout, 1, start, original, writer, stats, done + layout.Width(0), n, r.value)
  {
    hide Progress, Wrote, Steps, Counted, CeilDiv, Covered, NextLength, Unit, Children, SigOf, Combine, Layout.Width,
      Layout.Capacity, Layout.Exact, Layout.Valid, SizeAt, Histogram;
    ExactIsValid(layout);
    ghost var now := Snap(original, writer, stats);
    var length := NextLength(layout.Width(0), n - done);
    ProgressStuck(layout, 1, start, now, done, n, blockMath);
    ChildSize(layout, 1, n - done);
    var child := EncodeChunk(original, writer, stats, layout, length);
    if child.ValueError? {
      return ValueError;
    }
    ProgressStep(layout, 1, start, now, Snap(original, writer, stats), done, n, blockMath, child.value);
    var folded := Fold(blockMath, child.value);
    r := Ok(folded);
  }

  /** The inner loop: the MICRO records of one block, and the block's own record. */
  method EncodeBlock(original: ByteStream, writer: RecordWriter, stats: Statistics,
                     layout: Layout, blockStart: nat, blockEnd: nat)
    returns (r: Result<Sig>)
    requires layout.Exact() && blockStart < blockEnd && SizeAt(layout, 1, blockEnd - blockStart)
    requires original.Valid() && writer.Synced() && stats.Consistent()
    modifies original, writer, stats
    ensures original.Valid() && writer.Synced() && stats.Consistent() && stats.root == old(stats.root)
    ensures r.Ok? <==> blockEnd - blockStart <= |old(original.Rest())|
    ensures r.Ok? ==> Wrote(layout, 1, old(Snap(original, writer, stats)), Snap(original, writer, stats),
                            blockEnd - blockStart, r.value)
  {
    hide Progress, Wrote, Steps, Counted, CeilDiv, Covered, NextLength, Unit, Children, SigOf, SigBytes, SigFits,
      Layout.Width, Layout.Capacity, Frame, Histogram, Layout.Exact, Layout.Valid, SizeAt;
    ExactIsValid(layout);
    ghost var start := Snap(original, writer, stats);
    var n := blockEnd - blockStart;
    var microStart := blockStart;
    var blockMath := ZERO_SIG;
    ProgressStart(layout, 1, start, n);
    while microStart < blockEnd
      invariant blockStart <= microStart
      invariant stats.root == old(stats.root)
      invariant Encoding(layout, 1, start, original, writer, stats, microStart - blockStart, n, blockMath)
      decreases blockEnd - microStart
    {
      var next := NextMicro(original, writer, stats, layout, start, microStart - blockStart, n, blockMath);
      if next.ValueError? {
        return ValueError;
      }
      blockMath := next.value;
      microStart := microStart + layout.Width(0);
    }
    ProgressEnd(layout, 1, start, Snap(original, writer, stats), microStart - blockStart, n, blockMath);
    var encoded := EncodeSignature(blockMath);
    var closed := writer.Record(66, encoded.value);
    stats.counts := stats.counts.(block := stats.counts.block + 1);
    r := Ok(blockMath);
  }

  /** One pass of the middle loop. */
  method NextBlock(original: ByteStream, writer: RecordWriter, stats: Statistics, layout: Layout,
                   ghost start: Snapshot, blockStart: nat, pageStart: nat, pageEnd: nat, pageMath: Sig)
    returns (r: Result<Sig>)
    requires layout.Exact() && pageStart <= blockStart < pageEnd
    requires Encoding(layout, 2, start, original, writer, stats, blockStart - pageStart,
                      pageEnd - pageStart, pageMath)
    modifies original, writer, stats
    ensures original.Valid() && writer.Synced() && stats.Consistent() && stats.root == old(stats.root)
    ensures r.ValueError? ==> |start.rest| < pageEnd - pageStart
    ensures r.Ok? ==>
              Encoding(layout, 2, start, original, writer, stats, blockStart - pageStart + layout.Width(1),
                       pageEnd - pageStart, r.value)
  {
    hide Progress, Wrote, Steps, Counted, CeilDiv, Covered, NextLength, Unit, Children, SigOf, Combine, Layout.Width,
      Layout.Capacity, Layout.Exact, Layout.Valid, SizeAt, Histogram;
    ExactIsValid(layout);
    ghost var now := Snap(original, writer, stats);
    var blockSize := layout.Width(1);
    var blockEnd := blockStart + NextLength(blockSize, pageEnd - blockStart);
    ProgressStuck(layout, 2, start, now, blockStart - pageStart, pageEnd - pageStart, pageMath);
    ChildSize(layout, 2, pageEnd - blockStart);
    var child := EncodeBlock(original, writer, stats, layout, blockStart, blockEnd);
    if child.ValueError? {
      return ValueError;
    }
    ProgressStep(layout, 2, start, now, Snap(original, writer, stats), blockStart - pageStart, pageEnd - pageStart,
                 pageMath, child.value);
    var folded := Fold(pageMath, child.value);
    r := Ok(folded);
  }

  /** The middle loop: the blocks of one page, and the page's own record. */
  method EncodePage(original: ByteStream, writer: RecordWriter, stats: Statistics,
                    layout: Layout, pageStart: nat, pageEnd: nat)
    returns (r: Result<Sig>)
    requires layout.Exact() && pageStart < pageEnd && SizeAt(layout, 2, pageEnd - pageStart)
    requires original.Valid() && writer.Synced() && stats.Consistent()
    modifies original, writer, stats
    ensures original.Valid() && writer.Synced() && stats.Consistent() && stats.root == old(stats.root)
    ensures r.Ok? <==> pageEnd - pageStart <= |old(original.Rest())|
    ensures r.Ok? ==> Wrote(layout, 2, old(Snap(original, writer, stats)), Snap(original, writer, stats),
                            pageEnd - pageStart, r.value)
  {
    hide Progress, Wrote, Steps, Counted, CeilDiv, Covered, NextLength, Unit, Children, SigOf, SigBytes, SigFits,
      Layout.Width, Layout.Capacity, Frame, Histogram, Layout.Exact, Layout.Valid, SizeAt;
    ExactIsValid(layout);
    ghost var start := Snap(original, writer, stats);
    ghost var n := pageEnd - pageStart;
    var blockStart := pageStart;
    var pageMath := ZERO_SIG;
    ProgressStart(layout, 2, start, n);
    while blockStart < pageEnd
      invariant pageStart <= blockStart
      invariant stats.root == old(stats.root)
      invariant Encoding(layout, 2, start, original, writer, stats, blockStart - pageStart, n, pageMath)
      decreases pageEnd - blockStart
    {
      var next := NextBlock(original, writer, stats, layout, start, blockStart, pageStart, pageEnd, pageMath);
      if next.ValueError? {
        return ValueError;
      }
      pageMath := next.value;
      blockStart := blockStart + layout.Width(1);
    }
    ProgressEnd(layout, 2, start, Snap(original, writer, stats), blockStart - pageStart, n, pageMath);
    var encoded := EncodeSignature(pageMath);
    var closed := writer.Record(80, encoded.value);
    stats.counts := stats.counts.(page := stats.counts.page + 1);
    r := Ok(pageMath);
  }

  /** One pass of the outer loop: a page, folded into the root. */
  method NextPage(original: ByteStream, writer: RecordWriter, stats: Statistics, layout: Layout,
                  ghost start: Snapshot, pageStart: nat, size: nat)
    returns (r: Result<()>)
    requires layout.Exact() && pageStart < size
    requires Encoding(layout, 3, start, original, writer, stats, pageStart, size, stats.root)
    modifies original, writer, stats
    ensures original.Valid() && writer.Synced() && stats.Consistent()
    ensures r.ValueError? ==> |start.rest| < size
    ensures r.Ok? ==>
              Encoding(layout, 3, start, original, writer, stats, pageStart + layout.Width(2), size, stats.root)
  {
    hide Progress, Wrote, Steps, Counted, CeilDiv, Covered, NextLength, Unit, Children, SigOf, Combine, Layout.Width,
      Layout.Capacity, Layout.Exact, Layout.Valid, SizeAt, Histogram;
    ExactIsValid(layout);
    ghost var now := Snap(original, writer, stats);
    var pageSize := layout.Width(2);
    var pageEnd := pageStart + NextLength(pageSize, size - pageStart);
    ProgressStuck(layout, 3, start, now, pageStart, size, stats.root);
    ChildSize(layout, 3, size - pageStart);
    var child := EncodePage(original, writer, stats, layout, pageStart, pageEnd);
    if child.ValueError? {
      return ValueError;
    }
    ProgressStep(layout, 3, start, now, Snap(original, writer, stats), pageStart, size, stats.root, child.value);
    stats.root := Fold(stats.root, child.value);
    r := Ok(());
  }

  /** The outer loop and the DOC record: the whole body of the container. */
  method EncodeBody(original: ByteStream, writer: RecordWriter, stats: Statistics, layout: Layout, size: nat)
    returns (r: Result<()>)
    requires layout.Exact() && SizeAt(layout, 3, size)
    requires original.Valid() && writer.Synced() && stats.Consistent()
    requires stats.digest == [] && stats.counts == Counts(0, 0, 0, 1) && stats.root == ZERO_SIG
    modifies original, writer, stats
    ensures original.Valid() && writer.Synced() && stats.Consistent()
    ensures r.Ok? <==> size == |old(original.Rest())|
    ensures r.Ok? ==>
              var data := old(original.Rest());
              && writer.stream == old(writer.stream) + Unit(layout, 3, data)
              && stats.digest == data && stats.root == SigOf(data)
              && stats.counts == Counted(Counts(0, 0, 0, 1), layout, 2, |data|)
  {
    hide Progress, Steps, Counted, CeilDiv, Covered, Unit, Children, SigOf, SigBytes, SigFits, Layout.Width,
      Layout.Capacity, Frame, Histogram, Layout.Exact, Layout.Valid, SizeAt;
    ExactIsValid(layout);
    ghost var start := Snap(original, writer, stats);
    var pageStart := 0;
    ProgressStart(layout, 3, start, size);
    while pageStart < size
      invariant 0 <= pageStart
      invariant Encoding(layout, 3, start, original, writer, stats, pageStart, size, stats.root)
      decreases size - pageStart
    {
      var next := NextPage(original, writer, stats, layout, start, pageStart, size);
      if next.ValueError? {
        return ValueError;
      }
      pageStart := pageStart + layout.Width(2);
    }
    DocEnd(layout, start, Snap(original, writer, stats), pageStart, size, stats.root);
    var more := original.Read(1);
    if more != [] {
      return ValueError;
    }
    assert start.rest[..size] == start.rest;
    var encoded := EncodeSignature(stats.root);
    var closed := writer.Record(68, encoded.value);
    r := Ok(());
  }

  lemma DocEnd(layout: Layout, before: Snapshot, now: Snapshot, done: nat, n: nat, math: Sig)
    requires layout.Exact() && SizeAt(layout, 3, n) && n <= done
    requires Progress(layout, 3, before, now, done, n, math)
    ensures Natural(math) && SigFits(math) && |SigBytes(math)| <= MAX_RECORD && n <= |before.rest|
    ensures now.stream + Frame(68, SigBytes(math)) == before.stream + Unit(layout, 3, before.rest[..n])
    ensures now.rest == before.rest[n..] && now.digest == before.digest + before.rest[..n]
    ensures now.counts == Counted(before.counts, layout, 2, n) && math == SigOf(before.rest[..n])
  {
    hide Children, SigOf, Layout.Width, Frame, SigBytes, SigFits;
    SizeIsSmall(layout, 3, n);
    CloseUnit(layout, 3, before.rest[..n]);
  }

  // ---- The whole encoder ----

  function HeaderFor(name: string, layout: Layout, size: int, route: Option<Route>): Header
  {
    Header("SMTYX-EXACT", 2, "cluster-ternary-msb-v1", "LARGE", layout, name, size, route, EXACT_PROVENANCE)
  }

  /** When encoding completes: every other case raises ValueError. */
  ghost predicate Encodable(w: World, source: seq<Byte>, before: Stat, after: Stat, name: string, layout: Layout,
                            route: Option<Route>)
  {
    && w.ValidHeader(HeaderFor(name, layout, before.size, route))
    && before == after && before.size == |source|
    && |w.printHeader(HeaderFor(name, layout, before.size, route))| <= MAX_RECORD
    && |w.printFooter(FooterOf(w, source, layout))| <= MAX_RECORD
    && w.RouteMatches(route, w.hash(source))
  }

  /** The completing inputs, condition by condition. A route counts with its content only if it names a FILE. */
  lemma EncodableMeans(w: World, source: seq<Byte>, before: Stat, after: Stat, name: string, layout: Layout,
                       route: Option<Route>)
    ensures Encodable(w, source, before, after, name, layout, route) <==>
            && before == after && before.size == |source| < Pow(2, 63)
            && name != "" && layout.Exact()
            && (route.Some? ==> w.routeValid(route.value))
            && (route.Some? && route.value.entryClass == "FILE" ==> route.value.sha256 == w.hash(source))
            && |w.printHeader(Header("SMTYX-EXACT", 2, "cluster-ternary-msb-v1", "LARGE", layout, name, |source|, route,
                                     EXACT_PROVENANCE))| <= MAX_RECORD
            && |w.printFooter(FooterOf(w, source, layout))| <= MAX_RECORD
  {
    hide FooterOf, Pow, Layout.Capacity;
  }

  /** The header that a container begins with. */
  lemma HeaderWritten(w: World, source: seq<Byte>, name: string, layout: Layout, route: Option<Route>,
                      footer: seq<Byte>)
    requires layout.Valid() && w.Faithful()
    ensures var h := w.printHeader(HeaderFor(name, layout, |source|, route));
            && MAGIC + Frame(72, h) <= Sealed(w, h, source, layout, footer)
            && w.parseHeader(h) == Some(Header("SMTYX-EXACT", 2, "cluster-ternary-msb-v1", "LARGE", layout, name,
                                               |source|, route, EXACT_PROVENANCE))
  {
    hide Unit, Frame;
    var h := w.printHeader(HeaderFor(name, layout, |source|, route));
    var rest := Unit(layout, 3, source) + Frame(70, footer);
    var trailer := END_MARK + w.hash(Sealable(h, source, layout, footer));
    assert Sealed(w, h, source, layout, footer) == (MAGIC + Frame(72, h)) + (rest + trailer);
    assert w.parseHeader(w.printHeader(HeaderFor(name, layout, |source|, route))) ==
           Some(HeaderFor(name, layout, |source|, route));
  }

  lemma HeaderAdmits(w: World, name: string, layout: Layout, size: nat, route: Option<Route>)
    requires w.ValidHeader(HeaderFor(name, layout, size, route))
    ensures layout.Exact() && layout.Valid() && SizeAt(layout, 3, size)
  {
  }

  lemma CountsOfBody(w: World, data: seq<Byte>, layout: Layout)
    requires layout.Valid()
    ensures FooterOf(w, data, layout) ==
            Footer(w.hash(data), (|data|, Weight(data)), Histogram(data),
                   Counted(Counts(0, 0, 0, 1), layout, 2, |data|), SigOf(data))
  {
  }

  /** "SMTYXEX2" with line ends and a control character in front; "END!" and the digest of all before behind. */
  lemma SealedEnds(w: World, h: seq<Byte>, source: seq<Byte>, layout: Layout, f: seq<Byte>)
    requires layout.Valid()
    ensures var c := Sealed(w, h, source, layout, f);
            && [83, 77, 84, 89, 88, 69, 88, 50, 13, 10, 26, 10] <= c
            && exists body :: c == body + ([69, 78, 68, 33] + w.hash(body))
  {
    hide Unit, Frame;
    var body := Sealable(h, source, layout, f);
    assert Sealed(w, h, source, layout, f) == body + ([69, 78, 68, 33] + w.hash(body));
    assert body == MAGIC + (Frame(72, h) + Unit(layout, 3, source) + Frame(70, f));
    assert Sealed(w, h, source, layout, f) ==
           MAGIC + ((Frame(72, h) + Unit(layout, 3, source) + Frame(70, f)) + ([69, 78, 68, 33] + w.hash(body)));
  }

  lemma SealedIs(w: World, h: seq<Byte>, source: seq<Byte>, layout: Layout, f: seq<Byte>, stream: seq<Byte>)
    requires layout.Valid()
    requires var body := MAGIC + Frame(72, h) + Unit(layout, 3, source) + Frame(70, f);
             stream == body + (END_MARK + w.hash(body))
    ensures stream == Sealed(w, h, source, layout, f)
  {
  }

  /** exact.encode_exact, from the opened source to the finished container. */
  method EncodeExact(w: World, source: seq<Byte>, before: Stat, after: Stat, name: string, layout: Layout,
                     route: Option<Route>)
    returns (r: Result<seq<Byte>>)
    ensures r.Ok? <==> Encodable(w, source, before, after, name, layout, route)
    ensures r.Ok? ==>
              r.value == Sealed(w, w.printHeader(HeaderFor(name, layout, |source|, route)), source, layout,
                                w.printFooter(FooterOf(w, source, layout)))
    ensures r.Ok? ==>
              && |source| < Pow(2, 63) && name != "" && layout.Exact()
              && (route.Some? && route.value.entryClass == "FILE" ==> route.value.sha256 == w.hash(source))
    ensures r.Ok? ==>
              && [83, 77, 84, 89, 88, 69, 88, 50, 13, 10, 26, 10] <= r.value
              && exists body :: r.value == body + ([69, 78, 68, 33] + w.hash(body))
    ensures r.Ok? && w.Faithful() ==>
              exists h :: MAGIC + Frame(72, h) <= r.value
                          && w.parseHeader(h) ==
                             Some(Header("SMTYX-EXACT", 2, "cluster-ternary-msb-v1", "LARGE", layout, name, |source|,
                                         route, EXACT_PROVENANCE))
  {
    hide Unit, Frame, SigOf, Histogram, Weight, Counted, Sealed, World.Faithful, World.ValidHeader,
      World.RouteMatches, HeaderFor, FooterOf, Pow, Layout.Exact, Layout.Valid, Layout.Capacity, Layout.Width, SizeAt;
    var header := HeaderFor(name, layout, before.size, route);
    if !w.ValidHeader(header) {
      return ValueError;
    }
    HeaderAdmits(w, name, layout, before.size, route);
    var original := new ByteStream(source);
    var stats := new Statistics();
    var writer := new RecordWriter();
    var h := w.printHeader(header);
    var begun := writer.Record(72, h);
    if begun.ValueError? {
      return ValueError;
    }
    var body := EncodeBody(original, writer, stats, layout, before.size);
    if body.ValueError? {
      return ValueError;
    }
    if before != after {
      return ValueError;
    }
    CountsOfBody(w, source, layout);
    var footer := stats.MakeFooter(w);
    if !w.RouteMatches(route, footer.sha256) {
      return ValueError;
    }
    var f := w.printFooter(footer);
    var closed := writer.Record(70, f);
    if closed.ValueError? {
      return ValueError;
    }
    writer.Finish(w);
    r := Ok(writer.stream);
    SealedIs(w, h, source, layout, f, writer.stream);
    SealedEnds(w, h, source, layout, f);
    EncodableMeans(w, source, before, after, name, layout, route);
    if w.Faithful() {
      HeaderWritten(w, source, name, layout, route, f);
    }
  }
}
