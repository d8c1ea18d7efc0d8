/** The streaming container (version 2) and the batch index (version 1) say the same about the data. */
module Agreement {
  import opened Wrappers
  import opened Arithmetic
  import opened Moments
  import opened Clusters
  import opened Varint
  import opened MicroCodec
  import opened Layouts
  import opened Container
  import opened Index
  import Document

  /** The signatures of consecutive groups of `w` bytes. */
  function GroupSigs(data: seq<Byte>, w: nat): (r: seq<Sig>)
    requires 0 < w
    ensures |r| == CeilDiv(|data|, w)
  {
    seq(CeilDiv(|data|, w), j requires 0 <= j < CeilDiv(|data|, w) => SigOf(GroupOf(data, w, j)))
  }

  /** The signatures a node's records carry for one level, in stream order (levels as in `Container.Unit`). */
  function UnitSigs(layout: Layout, level: nat, target: nat, data: seq<Byte>): seq<Sig>
    requires layout.Valid() && target <= level <= 3
    decreases level, |data|, 1
  {
    if level == target then [SigOf(data)] else ChildSigs(layout, level, target, data)
  }

  function ChildSigs(layout: Layout, level: nat, target: nat, data: seq<Byte>): seq<Sig>
    requires layout.Valid() && target < level <= 3
    decreases level, |data|, 0
  {
    if data == [] then []
    else
      var s := LastStart(|data|, layout.Width(level - 1));
      ChildSigs(layout, level, target, data[..s]) + UnitSigs(layout, level - 1, target, data[s..])
  }

  /** Cutting at a multiple of `w` cuts the list of groups. */
  lemma GroupSigsSplit(data: seq<Byte>, k: nat, w: nat)
    requires 0 < w && k * w <= |data|
    ensures GroupSigs(data, w) == GroupSigs(data[..k * w], w) + GroupSigs(data[k * w..], w)
  {
    hide CeilDiv, SigOf;
    var (a, b) := (data[..k * w], data[k * w..]);
    CeilDivSplit(k, w, 0);
    CeilDivSplit(k, w, |b|);
    CeilDivBounds(0, w);
    var q := CeilDiv(|data|, w);
    assert CeilDiv(|a|, w) == k && q == k + CeilDiv(|b|, w);
    forall j | 0 <= j < q
      ensures GroupSigs(data, w)[j] == (GroupSigs(a, w) + GroupSigs(b, w))[j]
    {
      if j < k {
        SameGroupLeft(data, k, w, j);
      } else {
        SameGroupRight(data, k, w, j);
      }
    }
  }

  lemma SameGroupLeft(data: seq<Byte>, k: nat, w: nat, j: nat)
    requires 0 < w && k * w <= |data| && j < k
    ensures j < CeilDiv(|data|, w) && j < CeilDiv(k * w, w)
    ensures GroupOf(data, w, j) == GroupOf(data[..k * w], w, j)
  {
    hide CeilDiv;
    MulMonotone(j + 1, k, w, w);
    assert (j + 1) * w == j * w + w;
    MorePossible(j, w, |data|);
    MorePossible(j, w, k * w);
    GroupRange(j, w, |data|);
    GroupRange(j, w, k * w);
  }

  /** The bounds of a group, counted from the start of group `k`. */
  lemma ShiftedBounds(n: nat, k: nat, w: nat, j: nat)
    requires 0 < w && k * w <= n && k <= j
    ensures (j - k) * w == j * w - k * w
    ensures GroupEnd(j - k, w, n - k * w) == GroupEnd(j, w, n) - k * w
  {
    MulMinus(j, k, w);
    MulMinus(j + 1, k, w);
  }

  lemma MulMinus(a: int, b: int, w: int)
    ensures (a - b) * w == a * w - b * w
  {
  }

  lemma SameGroupRight(data: seq<Byte>, k: nat, w: nat, j: nat)
    requires 0 < w && k * w <= |data| && k <= j < CeilDiv(|data|, w)
    ensures j - k < CeilDiv(|data| - k * w, w)
    ensures GroupOf(data, w, j) == GroupOf(data[k * w..], w, j - k)
  {
    hide CeilDiv, GroupEnd;
    var s := k * w;
    ShiftedBounds(|data|, k, w, j);
    GroupRange(j, w, |data|);
    MorePossible(j - k, w, |data| - s);
    GroupRange(j - k, w, |data| - s);
    SliceTwice(data, s, j * w, GroupEnd(j, w, |data|));
  }

  lemma SliceTwice(data: seq<Byte>, s: nat, a: nat, b: nat)
    requires s <= a <= b <= |data|
    ensures data[s..][a - s..b - s] == data[a..b]
  {
  }

  lemma OneGroup(data: seq<Byte>, w: nat)
    requires 1 <= |data| <= w
    ensures GroupSigs(data, w) == [SigOf(data)]
  {
    hide SigOf;
    CeilDivUnique(|data|, w, 1);
    GroupRange(0, w, |data|);
    assert data[0..|data|] == data;
  }

  lemma NoGroup(w: nat)
    requires 0 < w
    ensures GroupSigs([], w) == []
  {
    CeilDivBounds(0, w);
  }

  /** A multiple of a wider node is a multiple of a narrower one. */
  lemma WidthDivides(layout: Layout, target: nat, level: nat, j: nat) returns (k: nat)
    requires layout.Valid() && target <= level < 3
    ensures j * layout.Width(level) == k * layout.Width(target)
  {
    if target == level {
      k := j;
    } else if level == 1 {
      k := j * layout.microsPerBlock;
      Rearrange(j, layout.microBytes, layout.microsPerBlock);
    } else if target == 1 {
      k := j * layout.blocksPerPage;
      Rearrange(j, layout.microBytes * layout.microsPerBlock, layout.blocksPerPage);
    } else {
      k := j * layout.blocksPerPage * layout.microsPerBlock;
      Rearrange(j, layout.microBytes * layout.microsPerBlock, layout.blocksPerPage);
      Rearrange(j * layout.blocksPerPage, layout.microBytes, layout.microsPerBlock);
    }
  }

  lemma Rearrange(j: nat, a: nat, b: nat)
    ensures j * (a * b) == (j * b) * a
  {
    MulAssociates(j, b, a);
    assert a * b == b * a;
  }

  /** The records of a level are the consecutive groups of that level's width. */
  lemma {:induction false} UnitSigsAre(layout: Layout, level: nat, target: nat, data: seq<Byte>)
    requires layout.Valid() && target <= level < 3 && 1 <= |data| <= layout.Width(level)
    ensures UnitSigs(layout, level, target, data) == GroupSigs(data, layout.Width(target))
    decreases level, |data|, 1
  {
    hide GroupSigs, SigOf, CeilDiv, Layout.Width, Layout.Capacity;
    if level == target {
      OneGroup(data, layout.Width(level));
    } else {
      ChildSigsAre(layout, level, target, data);
    }
  }

  lemma {:induction false} ChildSigsAre(layout: Layout, level: nat, target: nat, data: seq<Byte>)
    requires layout.Valid() && target < level <= 3
    ensures ChildSigs(layout, level, target, data) == GroupSigs(data, layout.Width(target))
    decreases level, |data|, 0
  {
    hide GroupSigs, SigOf, CeilDiv, Layout.Width, Layout.Capacity, UnitSigs;
    if data == [] {
      NoGroup(layout.Width(target));
    } else {
      var w := layout.Width(level - 1);
      var s := LastStart(|data|, w);
      var k := WidthDivides(layout, target, level - 1, (|data| - 1) / w);
      ChildSigsAre(layout, level, target, data[..s]);
      UnitSigsAre(layout, level - 1, target, data[s..]);
      GroupSigsSplit(data, k, layout.Width(target));
    }
  }

  lemma CoveringSigs(nodes: seq<Node>, data: seq<Byte>, w: nat, kind: NodeKind)
    requires 0 < w && Covers(nodes, data, w, kind)
    ensures SigsIn(nodes) == GroupSigs(data, w)
  {
    hide CeilDiv, SigOf;
    forall j | 0 <= j < |nodes|
      ensures SigsIn(nodes)[j] == GroupSigs(data, w)[j]
    {
      assert NodeAgrees(nodes[j], data, w, kind, j);
    }
  }

  /** Level by level, the node signatures in stream order are those of the index. */
  lemma LevelSigsAgree(layout: Layout, data: seq<Byte>)
    requires layout.Valid()
    ensures var micros := MicrosOf(layout, data);
            && UnitSigs(layout, 3, 0, data) == SigsIn(micros)
            && UnitSigs(layout, 3, 1, data) == SigsIn(BlocksOf(layout, micros))
            && UnitSigs(layout, 3, 2, data) == SigsIn(PagesOf(layout, micros))
            && UnitSigs(layout, 3, 3, data) == [RootOf(layout, micros).sig]
  {
    hide GroupSigs, SigOf, CeilDiv, Layout.Width, Layout.Capacity, ChildSigs, Covers, MicrosOf, BlocksOf, PagesOf,
      RootOf;
    var micros := MicrosOf(layout, data);
    IndexAgrees(layout, data);
    ChildSigsAre(layout, 3, 0, data);
    ChildSigsAre(layout, 3, 1, data);
    ChildSigsAre(layout, 3, 2, data);
    CoveringSigs(micros, data, layout.Width(0), Micro);
    CoveringSigs(BlocksOf(layout, micros), data, layout.Width(1), Block);
    CoveringSigs(PagesOf(layout, micros), data, layout.Width(2), Page);
  }

  // ---- The records a reader finds in the bytes ----

  datatype Record = Record(kind: Byte, payload: seq<Byte>)

  /** Cut bytes into records by their length fields; None if they do not come out even. */
  function Split(s: seq<Byte>): Option<seq<Record>>
  {
    if s == [] then Some([])
    else if |s| < 5 || |s| < 5 + FromLe32(s[1..5]) then None
    else
      var end := 5 + FromLe32(s[1..5]);
      Prepend([Record(s[0], s[5..end])], Split(s[end..]))
  }

  function Prepend(records: seq<Record>, more: Option<seq<Record>>): Option<seq<Record>>
  {
    if more.Some? then Some(records + more.value) else None
  }

  /** The records of a container, between its magic and its trailer. */
  function RecordsIn(container: seq<Byte>): Option<seq<Record>>
  {
    if |container| < |MAGIC| + 36 then None else Split(container[|MAGIC|..|container| - 36])
  }

  /** The five integers a record begins with; behind them a MICRO has its masks, and other records nothing. */
  function SigIn(r: Record): Option<Sig>
  {
    match ReadLebs(r.payload, 5)
    case Ok((v, rest)) => if r.kind == 77 || rest == [] then Some(Sig(v[0], v[1], v[2], v[3], v[4])) else None
    case ValueError => None
  }

  /** What the records of one kind carry, in order. */
  function Carried(records: seq<Record>, kind: Byte): seq<Option<Sig>>
  {
    if records == [] then []
    else (if records[0].kind == kind then [SigIn(records[0])] else []) + Carried(records[1..], kind)
  }

  function Somes(sigs: seq<Sig>): (r: seq<Option<Sig>>)
    ensures |r| == |sigs|
  {
    seq(|sigs|, i requires 0 <= i < |sigs| => Some(sigs[i]))
  }

  lemma CarriedFirst(a: seq<Record>, kind: Byte)
    ensures a == [] ==> Carried(a, kind) == []
    ensures a != [] ==>
              Carried(a, kind) == (if a[0].kind == kind then [SigIn(a[0])] else []) + Carried(a[1..], kind)
  {
  }

  lemma {:induction false} CarriedConcat(a: seq<Record>, b: seq<Record>, kind: Byte)
    ensures Carried(a + b, kind) == Carried(a, kind) + Carried(b, kind)
  {
    hide SigIn, Carried;
    if a == [] {
      assert a + b == b;
      CarriedFirst([], kind);
    } else {
      assert (a + b)[1..] == a[1..] + b;
      CarriedConcat(a[1..], b, kind);
      CarriedFirst(a, kind);
      CarriedFirst(a + b, kind);
    }
  }

  lemma PrependTwice(a: seq<Record>, b: seq<Record>, more: Option<seq<Record>>)
    ensures Prepend(a, Prepend(b, more)) == Prepend(a + b, more)
  {
    if more.Some? {
      assert a + (b + more.value) == (a + b) + more.value;
    }
  }

  lemma PrependNothing(records: seq<Record>, more: Option<seq<Record>>)
    ensures Prepend([], more) == more
    ensures Prepend(records, Some([])) == Some(records)
  {
    if more.Some? {
      assert [] + more.value == more.value;
    }
    assert records + [] == records;
  }

  /** A frame is cut off as the record it frames. */
  lemma SplitFrame(kind: Byte, payload: seq<Byte>, rest: seq<Byte>)
    requires |payload| <= MAX_RECORD
    ensures Split(Frame(kind, payload) + rest) == Prepend([Record(kind, payload)], Split(rest))
  {
    hide Le32, FromLe32;
    var s := Frame(kind, payload) + rest;
    assert s[1..5] == Le32(|payload|);
    FromOfLe32(|payload|);
    assert s[5..5 + |payload|] == payload;
    assert s[5 + |payload|..] == rest;
  }

  /** A MICRO record carries the signature of its chunk. */
  lemma MicroCarries(data: seq<Byte>)
    requires |data| < Pow(2, 63)
    ensures SigIn(Record(77, MicroPayload(data))) == Some(SigOf(data))
  {
    hide SigOf, SigBytes, ReadLebs, Masks, States, BigEndian, Rank, RankWidth, Active, Fits;
    PayloadParts(data);
    SigOfFits(data);
    var rest := Masks(States(data)) + BigEndian(Rank(data), RankWidth(Active(States(data))));
    ReadSigIff(MicroPayload(data), SigOf(data), rest);
  }

  /** The record that closes a node carries the node's signature. */
  lemma CloseCarries(kind: Byte, data: seq<Byte>)
    requires |data| < Pow(2, 63)
    ensures Natural(SigOf(data)) && SigIn(Record(kind, SigBytes(SigOf(data)))) == Some(SigOf(data))
  {
    hide SigOf, SigBytes, ReadLebs, Fits;
    SigOfFits(data);
    assert SigBytes(SigOf(data)) + [] == SigBytes(SigOf(data));
    ReadSigIff(SigBytes(SigOf(data)), SigOf(data), []);
  }

  /** For every level, the records of its kind carry the signatures of that level's nodes under this one. */
  ghost predicate UnitCarried(layout: Layout, level: nat, data: seq<Byte>, records: seq<Record>)
    requires layout.Valid() && level <= 3
  {
    forall t: nat :: t <= 3 ==>
                       Carried(records, Container.Kind(t)) ==
                       if t <= level then Somes(UnitSigs(layout, level, t, data)) else []
  }

  ghost predicate ChildrenCarried(layout: Layout, level: nat, data: seq<Byte>, records: seq<Record>)
    requires layout.Valid() && 1 <= level <= 3
  {
    forall t: nat :: t <= 3 ==>
                       Carried(records, Container.Kind(t)) ==
                       if t < level then Somes(ChildSigs(layout, level, t, data)) else []
  }

  // ---- The order of the records ----

  /** Which record can stand directly before which: children before their parent, header first, footer last. */
  predicate Follows(before: Byte, after: Byte)
  {
    if after == 77 then before in {72, 77, 66, 80}
    else if after == 66 then before == 77
    else if after == 80 then before == 66
    else if after == 68 then before in {72, 80}
    else after == 70 && before == 68
  }

  ghost predicate Ordered(records: seq<Record>)
  {
    forall i :: 0 <= i < |records| - 1 ==> Follows(records[i].kind, records[i + 1].kind)
  }

  /** The records of the children of a node of a level: MICROs first, and a child of the next lower level last. */
  ghost predicate ChildrenOrdered(level: nat, records: seq<Record>)
    requires 1 <= level
  {
    && Ordered(records)
    && (records != [] ==> records[0].kind == 77 && records[|records| - 1].kind == Container.Kind(level - 1))
  }

  ghost predicate UnitOrdered(level: nat, records: seq<Record>)
  {
    && Ordered(records) && records != []
    && records[|records| - 1].kind == Container.Kind(level)
    && (records[0].kind == 77 || (level == 3 && |records| == 1))
  }

  lemma OrderedConcat(a: seq<Record>, b: seq<Record>)
    requires Ordered(a) && Ordered(b)
    requires a != [] && b != [] ==> Follows(a[|a| - 1].kind, b[0].kind)
    ensures Ordered(a + b)
  {
    forall i | 0 <= i < |a + b| - 1
      ensures Follows((a + b)[i].kind, (a + b)[i + 1].kind)
    {
      if i >= |a| {
        assert Follows(b[i - |a|].kind, b[i - |a| + 1].kind);
      }
    }
  }

  lemma CloseOrdered(level: nat, children: seq<Record>, last: seq<Record>)
    requires 1 <= level <= 3 && ChildrenOrdered(level, children) && (children == [] ==> level == 3)
    requires |last| == 1 && last[0].kind == Container.Kind(level)
    ensures UnitOrdered(level, children + last)
  {
    OrderedConcat(children, last);
  }

  lemma ChildOrdered(level: nat, earlier: seq<Record>, last: seq<Record>)
    requires 1 <= level <= 3 && ChildrenOrdered(level, earlier) && UnitOrdered(level - 1, last)
    ensures ChildrenOrdered(level, earlier + last) && earlier + last != []
  {
    OrderedConcat(earlier, last);
  }

  /** The bytes of a node are cut into its records, whatever follows. */
  lemma {:induction false} UnitSplits(layout: Layout, level: nat, data: seq<Byte>, rest: seq<Byte>)
    returns (mine: seq<Record>)
    requires layout.Exact() && level <= 3 && SizeAt(layout, level, |data|)
    ensures Split(Unit(layout, level, data) + rest) == Prepend(mine, Split(rest))
    ensures UnitCarried(layout, level, data, mine) && UnitOrdered(level, mine)
    decreases level, |data|, 1
  {
    hide SigOf, SigBytes, Frame, Split, SigIn, MicroPayload, ChildSigs, ChildrenOrdered;
    SizeIsSmall(layout, level, |data|);
    if level == 0 {
      MicroPayloadLength(data);
      SplitFrame(77, MicroPayload(data), rest);
      MicroCarries(data);
      mine := [Record(77, MicroPayload(data))];
      MicroCarriedFrom(layout, data, mine);
    } else {
      NodePayloadLength(data);
      var payload := SigBytes(SigOf(data));
      var close := Frame(Container.Kind(level), payload);
      var children := ChildrenSplit(layout, level, data, close + rest);
      SplitFrame(Container.Kind(level), payload, rest);
      CloseCarries(Container.Kind(level), data);
      var last := [Record(Container.Kind(level), payload)];
      PrependTwice(children, last, Split(rest));
      assert Unit(layout, level, data) + rest == Children(layout, level, data) + (close + rest);
      mine := children + last;
      UnitCarriedFrom(layout, level, data, children, last);
      CloseOrdered(level, children, last);
    }
  }

  lemma MicroCarriedFrom(layout: Layout, data: seq<Byte>, mine: seq<Record>)
    requires layout.Valid() && |mine| == 1 && mine[0].kind == 77 && SigIn(mine[0]) == Some(SigOf(data))
    ensures UnitCarried(layout, 0, data, mine)
  {
    hide SigOf, SigIn;
    forall t: nat | t <= 3
      ensures Carried(mine, Container.Kind(t)) == if t <= 0 then Somes(UnitSigs(layout, 0, t, data)) else []
    {
      assert Carried(mine[1..], Container.Kind(t)) == [];
    }
  }

  lemma UnitCarriedFrom(layout: Layout, level: nat, data: seq<Byte>, children: seq<Record>, last: seq<Record>)
    requires layout.Valid() && 1 <= level <= 3 && ChildrenCarried(layout, level, data, children)
    requires |last| == 1 && last[0].kind == Container.Kind(level) && SigIn(last[0]) == Some(SigOf(data))
    ensures UnitCarried(layout, level, data, children + last)
  {
    hide SigOf, SigIn, ChildSigs;
    forall t: nat | t <= 3
      ensures Carried(children + last, Container.Kind(t)) ==
              if t <= level then Somes(UnitSigs(layout, level, t, data)) else []
    {
      CarriedConcat(children, last, Container.Kind(t));
      assert Carried(last[1..], Container.Kind(t)) == [];
    }
  }

  /** One more child. */
  lemma ChildrenCarriedMore(layout: Layout, level: nat, data: seq<Byte>, earlier: seq<Record>, last: seq<Record>)
    requires layout.Valid() && 1 <= level <= 3 && data != []
    requires ChildrenCarried(layout, level, data[..LastStart(|data|, layout.Width(level - 1))], earlier)
    requires UnitCarried(layout, level - 1, data[LastStart(|data|, layout.Width(level - 1))..], last)
    ensures ChildrenCarried(layout, level, data, earlier + last)
  {
    hide SigOf, SigIn, UnitSigs, Layout.Width, Layout.Capacity, LastStart, Carried;
    var s := LastStart(|data|, layout.Width(level - 1));
    forall t: nat | t <= 3
      ensures Carried(earlier + last, Container.Kind(t)) ==
              if t < level then Somes(ChildSigs(layout, level, t, data)) else []
    {
      CarriedConcat(earlier, last, Container.Kind(t));
      if t < level {
        SomesConcat(ChildSigs(layout, level, t, data[..s]), UnitSigs(layout, level - 1, t, data[s..]));
      }
    }
  }

  lemma SomesConcat(a: seq<Sig>, b: seq<Sig>)
    ensures Somes(a + b) == Somes(a) + Somes(b)
  {
  }

  lemma NoChildrenCarried(layout: Layout, level: nat)
    requires layout.Valid() && 1 <= level <= 3
    ensures ChildrenCarried(layout, level, [], []) && ChildrenOrdered(level, [])
  {
  }

  lemma {:induction false} ChildrenSplit(layout: Layout, level: nat, data: seq<Byte>, rest: seq<Byte>)
    returns (mine: seq<Record>)
    requires layout.Exact() && 1 <= level <= 3 && |data| < Pow(2, 63)
    ensures Split(Children(layout, level, data) + rest) == Prepend(mine, Split(rest))
    ensures ChildrenCarried(layout, level, data, mine)
    ensures ChildrenOrdered(level, mine) && (mine == [] ==> data == [])
    decreases level, |data|, 0
  {
    hide UnitOrdered, ChildrenOrdered, SigOf, Split, Unit, Layout.Width, Layout.Capacity, Pow, Prepend,
      ChildrenCarried, UnitCarried;
    if data == [] {
      mine := [];
      assert [] + rest == rest;
      PrependNothing(mine, Split(rest));
      NoChildrenCarried(layout, level);
    } else {
      var s := LastStart(|data|, layout.Width(level - 1));
      var unit := Unit(layout, level - 1, data[s..]);
      var earlier := ChildrenSplit(layout, level, data[..s], unit + rest);
      var last := UnitSplits(layout, level - 1, data[s..], rest);
      PrependTwice(earlier, last, Split(rest));
      assert Children(layout, level, data) + rest == Children(layout, level, data[..s]) + (unit + rest);
      mine := earlier + last;
      ChildrenCarriedMore(layout, level, data, earlier, last);
      ChildOrdered(level, earlier, last);
    }
  }

  /**
   Streaming refines batch. Cutting the bytes of any container into records by their length fields
   gives a header, the body and a footer, and the signatures that the M, B, P and D records carry are
   those of the index's MICRO, BLOCK, PAGE and DOC nodes over the same data, in order. The records of
   children stand before the one of their parent.
   */
  lemma StreamingRefinesBatch(w: World, header: seq<Byte>, data: seq<Byte>, layout: Layout, footer: seq<Byte>)
    requires w.Faithful() && layout.Exact() && |data| < Pow(2, 63)
    requires |header| <= MAX_RECORD && |footer| <= MAX_RECORD
    ensures var records := RecordsIn(Sealed(w, header, data, layout, footer));
            var micros := MicrosOf(layout, data);
            && records.Some? && |records.value| >= 2
            && records.value[0] == Record(72, header) && records.value[|records.value| - 1] == Record(70, footer)
            && Carried(records.value, 77) == Somes(SigsIn(micros))
            && Carried(records.value, 66) == Somes(SigsIn(BlocksOf(layout, micros)))
            && Carried(records.value, 80) == Somes(SigsIn(PagesOf(layout, micros)))
            && Carried(records.value, 68) == Somes([RootOf(layout, micros).sig])
            && Ordered(records.value)
  {
    hide SigOf, Split, SigIn, Unit, UnitSigs, Layout.Width, Layout.Capacity, Pow, Frame, MicrosOf, BlocksOf, PagesOf,
      RootOf, Carried, Somes;
    var end := Frame(70, footer);
    var body := UnitSplits(layout, 3, data, end);
    var (first, last) := ([Record(72, header)], [Record(70, footer)]);
    BodyOfContainer(w, header, data, layout, footer);
    SplitFrame(72, header, Unit(layout, 3, data) + end);
    SplitFrame(70, footer, []);
    assert end + [] == end;
    SplitNothing();
    PrependTwice(body, last, Some([]));
    PrependTwice(first, body + last, Some([]));
    PrependNothing(first + (body + last), None);
    LevelSigsAgree(layout, data);
    OrderedConcat(body, last);
    OrderedConcat(first, body + last);
    forall t: nat | t <= 3
      ensures Carried(first + (body + last), Container.Kind(t)) == Somes(UnitSigs(layout, 3, t, data))
    {
      CarriedConcat(first, body + last, Container.Kind(t));
      CarriedConcat(body, last, Container.Kind(t));
      NotCarried(first[0], Container.Kind(t));
      NotCarried(last[0], Container.Kind(t));
    }
    assert Container.Kind(0) == 77 && Container.Kind(1) == 66 && Container.Kind(2) == 80 && Container.Kind(3) == 68;
  }

  lemma SplitNothing()
    ensures Split([]) == Some([])
  {
  }

  lemma NotCarried(r: Record, kind: Byte)
    requires r.kind != kind
    ensures Carried([r], kind) == []
  {
    assert [r][1..] == [];
  }

  lemma BodyOfContainer(w: World, header: seq<Byte>, data: seq<Byte>, layout: Layout, footer: seq<Byte>)
    requires w.Faithful() && layout.Valid()
    ensures RecordsIn(Sealed(w, header, data, layout, footer)) ==
            Split(Frame(72, header) + (Unit(layout, 3, data) + Frame(70, footer)))
  {
    hide Unit, Frame, Split;
    var inner := Frame(72, header) + (Unit(layout, 3, data) + Frame(70, footer));
    var container := Sealed(w, header, data, layout, footer);
    assert Sealable(header, data, layout, footer) == MAGIC + inner;
    assert container == MAGIC + inner + (END_MARK + w.hash(Sealable(header, data, layout, footer)));
    assert container[|MAGIC|..|container| - 36] == inner;
  }

  /** The footer and the document agree on fingerprint, histogram, counts and root. */
  lemma FooterAgreesWithDocument(w: World, layout: Layout, data: seq<Byte>)
    requires layout.Valid()
    ensures var (f, doc) := (FooterOf(w, data, layout), Document.MetadataOf(w.hash, data, Some(layout)));
            var micros := MicrosOf(layout, data);
            && f.sha256 == doc.sha256 && f.fingerprint == doc.fingerprint && f.histogram == doc.histogram
            && f.counts == Counts(|micros|, |BlocksOf(layout, micros)|, |PagesOf(layout, micros)|, 1)
            && f.counts.micro + f.counts.block + f.counts.page + f.counts.doc == |doc.large.value.nodes|
            && f.root == RootOf(layout, micros).sig
  {
    hide SigOf, CeilDiv, Weight, Histogram, CombineAll;
    IndexAgrees(layout, data);
  }
}
