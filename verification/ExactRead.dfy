/** read_exact, decode_exact and verify_exact: the reader accepts exactly the containers, and recovers their data. */
module ExactRead {
  import opened Wrappers
  import opened Arithmetic
  import opened Moments
  import opened Clusters
  import opened Varint
  import opened MicroCodec
  import opened MicroMethods
  import opened Layouts
  import opened Container
  import opened Records
  import opened ExactEncode

  /** The state the reader's loops work on: unread container, digested part, bytes sunk, node counts. */
  datatype ReadSnap = ReadSnap(rest: seq<Byte>, digest: seq<Byte>, written: seq<Byte>, counts: Counts)

  ghost function Look(reader: RecordReader, stats: Statistics, sink: Sink): ReadSnap
    requires reader.stream.Valid()
    reads reader, reader.stream, stats, sink
  {
    ReadSnap(reader.Rest(), reader.digest, sink.written, stats.counts)
  }

  /** All objects are in order, and the statistics are about the bytes handed to the sink. */
  ghost predicate Ready(reader: RecordReader, stats: Statistics, sink: Sink)
    reads reader, reader.stream, stats, sink, sink.original
  {
    && reader.Valid() && stats.Consistent() && sink.Valid()
    && stats.digest == sink.written
    && reader.stream != sink.original
  }

  /** The data recovered between two states. */
  ghost function Gained(before: ReadSnap, after: ReadSnap): seq<Byte>
  {
    if |before.written| <= |after.written| then after.written[|before.written|..] else []
  }

  /** The effect of reading one complete node of `n` bytes. */
  ghost predicate Took(layout: Layout, level: nat, before: ReadSnap, after: ReadSnap, n: nat, math: Sig)
    requires layout.Valid() && level < 3
  {
    && var data := Gained(before, after);
    && |data| == n
    && after.written == before.written + data
    && before.rest == Unit(layout, level, data) + after.rest
    && after.digest == before.digest + Unit(layout, level, data)
    && after.counts == Counted(before.counts, layout, level, n)
    && math == SigOf(data)
  }

  /** The same for the children a loop has read when it has advanced by `done` in a node of `n` bytes. */
  ghost predicate Reading(layout: Layout, level: nat, before: ReadSnap, now: ReadSnap, done: nat, n: nat, math: Sig)
    requires layout.Valid() && 1 <= level <= 3
  {
    && Steps(done, layout.Width(level - 1))
    && var data := Gained(before, now);
    && |data| == Covered(done, n)
    && now.written == before.written + data
    && before.rest == Children(layout, level, data) + now.rest
    && now.digest == before.digest + Children(layout, level, data)
    && now.counts == Counted(before.counts, layout, level - 1, |data|)
    && math == SigOf(data)
  }

  /** No data of `n` bytes has its node here in a form the sink would take. */
  ghost predicate NoUnit(layout: Layout, level: nat, n: nat, now: ReadSnap, sink: Sink)
    requires layout.Valid() && level <= 3
  {
    forall d: seq<Byte> | |d| == n && Unit(layout, level, d) <= now.rest :: !sink.Accepts(now.written + d)
  }

  // ---- Lemmas about the loops ----

  lemma PrefixSplit(p: seq<Byte>, s: seq<Byte>) returns (t: seq<Byte>)
    requires p <= s
    ensures s == p + t
  {
    t := s[|p|..];
  }

  /** The records of the children of `data` begin with those of its first `done` bytes, then the next child. */
  lemma {:induction false} ChildrenSplit(layout: Layout, level: nat, data: seq<Byte>, done: nat)
    returns (more: seq<Byte>)
    requires layout.Valid() && 1 <= level <= 3
    requires done < |data| && Steps(done, layout.Width(level - 1))
    ensures Children(layout, level, data) == Children(layout, level, data[..done]) + more
    ensures Unit(layout, level - 1, data[done..][..NextLength(layout.Width(level - 1), |data| - done)]) <= more
    decreases |data|
  {
    hide Unit, Layout.Width, Layout.Capacity, Layout.Valid, Steps, LastStart;
    var w := layout.Width(level - 1);
    var s := LastStart(|data|, w);
    LastStepAfter(done, |data|, w);
    var last := Unit(layout, level - 1, data[s..]);
    assert Children(layout, level, data) == Children(layout, level, data[..s]) + last;
    if s == done {
      more := last;
      assert data[done..][..|data| - done] == data[s..];
    } else {
      var inner := ChildrenSplit(layout, level, data[..s], done);
      SlicesAgree(data, s, done, w);
      more := inner + last;
    }
  }

  lemma SlicesAgree(data: seq<Byte>, s: nat, done: nat, w: nat)
    requires done + w <= s <= |data|
    ensures data[..s][..done] == data[..done]
    ensures data[..s][done..][..w] == data[done..][..w]
  {
  }

  /** The last child starts at `done` or at least one whole child later. */
  lemma LastStepAfter(done: nat, n: nat, w: nat)
    requires 0 < w && done < n && Steps(done, w)
    ensures (LastStart(n, w) == done && n - done <= w) || LastStart(n, w) >= done + w
  {
    StepsAre(done, w);
    var (j, k) := (done / w, (n - 1) / w);
    assert LastStart(n, w) == k * w;
    assert n - 1 == k * w + (n - 1) % w;
    assert (k + 1) * w == k * w + w;
    CancelLess(j, k + 1, w);
    if k > j {
      MulMonotone(j + 1, k, w, w);
      assert (j + 1) * w == j * w + w;
    }
  }

  lemma CancelLess(a: nat, b: nat, w: nat)
    requires a * w < b * w
    ensures a < b
  {
    if b <= a {
      MulMonotone(b, a, w, w);
    }
  }

  /** Any node that starts here agrees with what has been read and continues with the next child. */
  lemma NextChild(layout: Layout, level: nat, before: ReadSnap, now: ReadSnap, done: nat, n: nat, math: Sig,
                  d: seq<Byte>)
    requires layout.Exact() && 1 <= level <= 3 && done < n
    requires Reading(layout, level, before, now, done, n, math)
    requires |d| == n && Unit(layout, level, d) <= before.rest
    ensures d[..done] == Gained(before, now)
    ensures Unit(layout, level - 1, d[done..][..NextLength(layout.Width(level - 1), n - done)]) <= now.rest
  {
    hide Layout.Width, Layout.Capacity, Steps, Counted, SigOf, SigBytes, Frame, Children, NextLength, LastStart;
    NaturalSig(d);
    var data := Gained(before, now);
    var tail := PrefixSplit(Unit(layout, level, d), before.rest);
    var more := ChildrenSplit(layout, level, d, done);
    var frame := Frame(Kind(level), SigBytes(SigOf(d)));
    assert before.rest == Children(layout, level, d[..done]) + (more + frame + tail);
    ChildrenPrefixFree(layout, level, d[..done], data, more + frame + tail, now.rest);
  }

  lemma ReadingStart(layout: Layout, level: nat, s: ReadSnap, n: nat)
    requires layout.Valid() && 1 <= level <= 3
    ensures Reading(layout, level, s, s, 0, n, ZERO_SIG)
  {
    hide Counted, Layout.Width, Steps;
    OneMoreStep(0, layout.Width(level - 1));
    CountedNone(s.counts, layout, level - 1);
    assert Gained(s, s) == [];
    assert s.digest + [] == s.digest && s.written + [] == s.written && [] + s.rest == s.rest;
  }

  lemma GainedMore(before: ReadSnap, now: ReadSnap, next: ReadSnap)
    requires now.written == before.written + Gained(before, now) && next.written == now.written + Gained(now, next)
    ensures Gained(before, next) == Gained(before, now) + Gained(now, next)
    ensures next.written == before.written + Gained(before, next)
  {
  }

  lemma Regrouped(a: seq<Byte>, b: seq<Byte>, c: seq<Byte>)
    ensures a + (b + c) == (a + b) + c
  {
  }

  lemma ReadingStep(layout: Layout, level: nat, before: ReadSnap, now: ReadSnap, next: ReadSnap,
                    done: nat, n: nat, math: Sig, child: Sig)
    requires layout.Valid() && 1 <= level <= 3 && done < n
    requires Reading(layout, level, before, now, done, n, math)
    requires Took(layout, level - 1, now, next, NextLength(layout.Width(level - 1), n - done), child)
    ensures Reading(layout, level, before, next, done + layout.Width(level - 1), n, Combine(math, child))
  {
    hide Unit, Children, SigOf, Combine, Layout.Width, Counted, Steps, Gained;
    var w := layout.Width(level - 1);
    OneMoreStep(done, w);
    StepsAre(done, w);
    var (data, chunk) := (Gained(before, now), Gained(now, next));
    GainedMore(before, now, next);
    ChildrenSnoc(layout, level, done / w, data, chunk);
    SigOfConcat(data, chunk);
    CountedAligned(before.counts, layout, level - 1, done / w, |chunk|);
    var (c, u) := (Children(layout, level, data), Unit(layout, level - 1, chunk));
    Regrouped(c, u, next.rest);
    Regrouped(before.digest, c, u);
  }

  lemma ReadingEnd(layout: Layout, level: nat, before: ReadSnap, now: ReadSnap, done: nat, n: nat, math: Sig)
    requires layout.Exact() && 1 <= level <= 3 && SizeAt(layout, level, n) && n <= done
    requires Reading(layout, level, before, now, done, n, math)
    ensures SigFits(math) && Natural(math) && |SigBytes(math)| <= MAX_RECORD
    ensures var (data, f) := (Gained(before, now), Frame(Kind(level), SigBytes(math)));
            && |data| == n && math == SigOf(data) && now.written == before.written + data
            && Unit(layout, level, data) == Children(layout, level, data) + f
            && now.digest + f == before.digest + Unit(layout, level, data)
            && now.counts == Counted(before.counts, layout, level - 1, n)
            && forall rest :: now.rest == f + rest ==> before.rest == Unit(layout, level, data) + rest
  {
    hide Children, SigOf, Layout.Width, Layout.Capacity, Frame, SigBytes, SigFits, Steps, Counted;
    SizeIsSmall(layout, level, n);
    var data := Gained(before, now);
    CloseUnit(layout, level, data);
    var (c, f) := (Children(layout, level, data), Frame(Kind(level), SigBytes(math)));
    forall rest | now.rest == f + rest
      ensures before.rest == Unit(layout, level, data) + rest
    {
      assert c + (f + rest) == (c + f) + rest;
    }
    assert before.digest + c + f == before.digest + (c + f);
  }

  lemma WrittenPrefix(before: ReadSnap, now: ReadSnap, d: seq<Byte>, done: nat, chunk: seq<Byte>)
    requires before.written <= now.written && done + |chunk| <= |d|
    requires d[..done] == Gained(before, now) && chunk == d[done..][..|chunk|]
    ensures now.written + chunk <= before.written + d
  {
    assert now.written == before.written + d[..done];
    assert before.written + d == (now.written + chunk) + d[done + |chunk|..];
  }

  /** If the next child cannot be read, neither can the node. */
  lemma StuckAtChild(layout: Layout, level: nat, before: ReadSnap, now: ReadSnap, done: nat, n: nat, math: Sig,
                     sink: Sink)
    requires layout.Exact() && 1 <= level <= 3 && done < n
    requires Reading(layout, level, before, now, done, n, math)
    requires NoUnit(layout, level - 1, NextLength(layout.Width(level - 1), n - done), now, sink)
    ensures NoUnit(layout, level, n, before, sink)
  {
    hide Layout.Width, Layout.Capacity, Steps, Counted, SigOf, Children, Unit;
    forall d: seq<Byte> | |d| == n && Unit(layout, level, d) <= before.rest
      ensures !sink.Accepts(before.written + d)
    {
      NextChild(layout, level, before, now, done, n, math, d);
      var chunk := d[done..][..NextLength(layout.Width(level - 1), n - done)];
      assert !sink.Accepts(now.written + chunk);
      WrittenPrefix(before, now, d, done, chunk);
    }
  }

  /** If the node's own record is not next, the node cannot be read. */
  lemma StuckAtClose(layout: Layout, level: nat, before: ReadSnap, now: ReadSnap, done: nat, n: nat, math: Sig,
                     sink: Sink)
    requires layout.Exact() && 1 <= level <= 3 && SizeAt(layout, level, n) && n <= done
    requires Reading(layout, level, before, now, done, n, math)
    requires Natural(math) && !(Frame(Kind(level), SigBytes(math)) <= now.rest)
    ensures NoUnit(layout, level, n, before, sink)
  {
    hide Layout.Width, Layout.Capacity, Steps, Counted, SigOf, SigBytes, Frame, Children;
    forall d: seq<Byte> | |d| == n && Unit(layout, level, d) <= before.rest
      ensures false
    {
      NaturalSig(d);
      var tail := PrefixSplit(Unit(layout, level, d), before.rest);
      var f := Frame(Kind(level), SigBytes(SigOf(d)));
      assert before.rest == Children(layout, level, d) + (f + tail);
      ChildrenPrefixFree(layout, level, d, Gained(before, now), f + tail, now.rest);
    }
  }

  // ---- One MICRO ----

  lemma NoChunkWithoutRecord(layout: Layout, n: nat, now: ReadSnap, sink: Sink)
    requires layout.Exact() && SizeAt(layout, 0, n)
    requires forall p | |p| <= MAX_RECORD :: !(Frame(77, p) <= now.rest)
    ensures NoUnit(layout, 0, n, now, sink)
  {
    hide MicroPayload, Frame, Layout.Capacity;
    forall d: seq<Byte> | |d| == n && Unit(layout, 0, d) <= now.rest
      ensures false
    {
      SizeIsSmall(layout, 0, n);
      MicroPayloadLength(d);
    }
  }

  /** The record read is the only one there, so its payload decides which chunk there can be. */
  lemma OnlyChunk(layout: Layout, n: nat, now: ReadSnap, payload: seq<Byte>, rest: seq<Byte>, d: seq<Byte>)
    requires layout.Exact() && SizeAt(layout, 0, n) && |payload| <= MAX_RECORD
    requires now.rest == Frame(77, payload) + rest
    requires |d| == n && Unit(layout, 0, d) <= now.rest
    ensures DecodePayload(payload, n) == Ok(d)
  {
    hide MicroPayload, Frame, Layout.Capacity;
    SizeIsSmall(layout, 0, n);
    MicroPayloadLength(d);
    var tail := PrefixSplit(Frame(77, MicroPayload(d)), now.rest);
    FrameUnique(77, payload, MicroPayload(d), rest, tail);
    PayloadIsAccepted(n, d);
  }

  lemma NoChunkFor(layout: Layout, n: nat, now: ReadSnap, payload: seq<Byte>, rest: seq<Byte>, sink: Sink)
    requires layout.Exact() && SizeAt(layout, 0, n) && |payload| <= MAX_RECORD
    requires now.rest == Frame(77, payload) + rest
    requires DecodePayload(payload, n).Ok? ==> !sink.Accepts(now.written + DecodePayload(payload, n).value)
    ensures NoUnit(layout, 0, n, now, sink)
  {
    hide MicroPayload, Frame, DecodePayload, Layout.Capacity;
    forall d: seq<Byte> | |d| == n && Unit(layout, 0, d) <= now.rest
      ensures !sink.Accepts(now.written + d)
    {
      OnlyChunk(layout, n, now, payload, rest, d);
    }
  }

  lemma ChunkTaken(layout: Layout, n: nat, before: ReadSnap, after: ReadSnap, payload: seq<Byte>, data: seq<Byte>)
    requires layout.Exact() && SizeAt(layout, 0, n)
    requires DecodePayload(payload, n) == Ok(data)
    requires before.rest == Frame(77, payload) + after.rest && after.digest == before.digest + Frame(77, payload)
    requires after.written == before.written + data
    requires after.counts == before.counts.(micro := before.counts.micro + 1)
    ensures Took(layout, 0, before, after, n, SigOf(data))
  {
    hide SigOf, Frame, DecodePayload, MicroPayload, CeilDiv, Layout.Capacity;
    AcceptedIsPayload(payload, n, data);
    CeilDivOne(n, layout.Width(0));
    assert Gained(before, after) == data;
  }

  /** The body of the innermost loop. */
  method ReadChunk(reader: RecordReader, stats: Statistics, sink: Sink, layout: Layout, length: nat)
    returns (r: Result<Sig>)
    requires layout.Exact() && SizeAt(layout, 0, length) && Ready(reader, stats, sink)
    modifies reader, reader.stream, stats, sink, sink.original
    ensures stats.root == old(stats.root)
    ensures r.ValueError? ==> NoUnit(layout, 0, length, old(Look(reader, stats, sink)), sink)
    ensures r.Ok? ==> Ready(reader, stats, sink)
                      && Took(layout, 0, old(Look(reader, stats, sink)), Look(reader, stats, sink), length, r.value)
  {
    hide Layout.Exact, Layout.Valid, SizeAt, Frame, NoUnit, Took, DecodePayload, SigOf, Histogram;
    ghost var before := Look(reader, stats, sink);
    var payload := reader.Record(77);
    if payload.ValueError? {
      NoChunkWithoutRecord(layout, length, before, sink);
      return ValueError;
    }
    ghost var rest := reader.Rest();
    var decoded := DecodeMicro(payload.value, length);
    if decoded.ValueError? {
      NoChunkFor(layout, length, before, payload.value, rest, sink);
      return ValueError;
    }
    var data := decoded.value.0;
    stats.Update(data);
    var taken := sink.Write(data);
    if taken.ValueError? {
      NoChunkFor(layout, length, before, payload.value, rest, sink);
      return ValueError;
    }
    ChunkTaken(layout, length, before, Look(reader, stats, sink), payload.value, data);
    r := Ok(decoded.value.1);
  }

  /** One pass of the inner loop. */
  method ReadNextMicro(reader: RecordReader, stats: Statistics, sink: Sink, layout: Layout,
                       ghost start: ReadSnap, done: nat, n: nat, blockMath: Sig)
    returns (r: Result<Sig>)
    requires layout.Exact() && done < n && Ready(reader, stats, sink)
    requires Reading(layout, 1, start, Look(reader, stats, sink), done, n, blockMath)
    modifies reader, reader.stream, stats, sink, sink.original
    ensures stats.root == old(stats.root)
    ensures r.ValueError? ==> NoUnit(layout, 1, n, start, sink)
    ensures r.Ok? ==> Ready(reader, stats, sink)
                      && Reading(layout, 1, start, Look(reader, stats, sink), done + layout.Width(0), n, r.value)
  {
    hide Reading, Took, NoUnit, Steps, Counted, CeilDiv, Covered, NextLength, Unit, Children, SigOf, Combine,
      Layout.Width, Layout.Capacity, Layout.Exact, Layout.Valid, SizeAt, Histogram, Gained;
    ExactIsValid(layout);
    ghost var now := Look(reader, stats, sink);
    var length := NextLength(layout.Width(0), n - done);
    ChildSize(layout, 1, n - done);
    var child := ReadChunk(reader, stats, sink, layout, length);
    if child.ValueError? {
      StuckAtChild(layout, 1, start, now, done, n, blockMath, sink);
      return ValueError;
    }
    ReadingStep(layout, 1, start, now, Look(reader, stats, sink), done, n, blockMath, child.value);
    var folded := Fold(blockMath, child.value);
    r := Ok(folded);
  }

  // ---- A node's own record ----

  lemma NoCloseWithout(layout: Layout, level: nat, before: ReadSnap, now: ReadSnap, done: nat, n: nat, math: Sig,
                       sink: Sink)
    requires layout.Exact() && 1 <= level <= 3 && SizeAt(layout, level, n) && n <= done
    requires Reading(layout, level, before, now, done, n, math)
    requires forall p | |p| <= MAX_RECORD :: !(Frame(Kind(level), p) <= now.rest)
    ensures NoUnit(layout, level, n, before, sink)
  {
    hide Reading, NoUnit, Unit, Children, Layout.Width, Layout.Capacity, Steps, Counted, SigOf, SigBytes, SigFits,
      Frame;
    ReadingEnd(layout, level, before, now, done, n, math);
    StuckAtClose(layout, level, before, now, done, n, math, sink);
  }

  lemma NoCloseFor(layout: Layout, level: nat, before: ReadSnap, now: ReadSnap, done: nat, n: nat, math: Sig,
                   sink: Sink,
                   payload: seq<Byte>, rest: seq<Byte>)
    requires layout.Exact() && 1 <= level <= 3 && SizeAt(layout, level, n) && n <= done
    requires Reading(layout, level, before, now, done, n, math)
    requires |payload| <= MAX_RECORD && now.rest == Frame(Kind(level), payload) + rest
    requires SigFits(math) ==> payload != SigBytes(math)
    ensures NoUnit(layout, level, n, before, sink)
  {
    hide Reading, NoUnit, Unit, Children, Layout.Width, Layout.Capacity, Steps, Counted, SigOf, SigBytes, SigFits,
      Frame;
    ReadingEnd(layout, level, before, now, done, n, math);
    if Frame(Kind(level), SigBytes(math)) <= now.rest {
      var tail := PrefixSplit(Frame(Kind(level), SigBytes(math)), now.rest);
      FrameUnique(Kind(level), payload, SigBytes(math), rest, tail);
    }
    StuckAtClose(layout, level, before, now, done, n, math, sink);
  }

  lemma CloseTaken(layout: Layout, level: nat, before: ReadSnap, now: ReadSnap, after: ReadSnap, done: nat, n: nat,
                   math: Sig)
    requires layout.Exact() && 1 <= level < 3 && SizeAt(layout, level, n) && n <= done
    requires Reading(layout, level, before, now, done, n, math)
    requires Natural(math) && now.rest == Frame(Kind(level), SigBytes(math)) + after.rest
    requires after.digest == now.digest + Frame(Kind(level), SigBytes(math)) && after.written == now.written
    requires after.counts == if level == 1 then now.counts.(block := now.counts.block + 1)
                             else now.counts.(page := now.counts.page + 1)
    ensures Took(layout, level, before, after, n, math)
  {
    hide Unit, Children, Layout.Width, Layout.Capacity, Steps, Counted, SigOf, SigBytes, SigFits, Frame;
    ReadingEnd(layout, level, before, now, done, n, math);
    CountedCloses(before.counts, layout, level, n);
    CountedKeeps(before.counts, layout, n);
    assert Gained(before, after) == Gained(before, now);
  }

  /** decode_signature(reader.record(kind)) != math, for the record that closes a node. */
  method ReadClose(reader: RecordReader, stats: Statistics, sink: Sink, layout: Layout, level: nat,
                   ghost start: ReadSnap, ghost done: nat, ghost n: nat, math: Sig)
    returns (r: Result<()>)
    requires layout.Exact() && 1 <= level <= 3 && SizeAt(layout, level, n) && n <= done && Ready(reader, stats, sink)
    requires Reading(layout, level, start, Look(reader, stats, sink), done, n, math)
    modifies reader, reader.stream
    ensures r.ValueError? ==> NoUnit(layout, level, n, start, sink)
    ensures r.Ok? ==>
              && Ready(reader, stats, sink) && Natural(math)
              && old(reader.Rest()) == Frame(Kind(level), SigBytes(math)) + reader.Rest()
              && reader.digest == old(reader.digest) + Frame(Kind(level), SigBytes(math))
  {
    hide Reading, NoUnit, Unit, Children, Steps, Counted, CeilDiv, Covered, SigOf, SigBytes, SigFits, Natural,
      Layout.Width, Layout.Capacity, Layout.Exact, Layout.Valid, SizeAt, Histogram, Gained, Frame;
    ghost var now := Look(reader, stats, sink);
    var payload := reader.Record(Kind(level));
    if payload.ValueError? {
      NoCloseWithout(layout, level, start, now, done, n, math, sink);
      return ValueError;
    }
    var declared := DecodeSignature(payload.value);
    if declared != Ok(math) {
      NoCloseFor(layout, level, start, now, done, n, math, sink, payload.value, reader.Rest());
      return ValueError;
    }
    r := Ok(());
  }

  // ---- The loops ----

  /** The inner loop and the BLOCK record. */
  method ReadBlock(reader: RecordReader, stats: Statistics, sink: Sink, layout: Layout, blockStart: nat, blockEnd: nat)
    returns (r: Result<Sig>)
    requires layout.Exact() && blockStart < blockEnd && SizeAt(layout, 1, blockEnd - blockStart)
    requires Ready(reader, stats, sink)
    modifies reader, reader.stream, stats, sink, sink.original
    ensures stats.root == old(stats.root)
    ensures r.ValueError? ==> NoUnit(layout, 1, blockEnd - blockStart, old(Look(reader, stats, sink)), sink)
    ensures r.Ok? ==> Ready(reader, stats, sink)
                      && Took(layout, 1, old(Look(reader, stats, sink)), Look(reader, stats, sink),
                              blockEnd - blockStart, r.value)
  {
    hide Reading, Took, NoUnit, Unit, Children, Steps, Counted, CeilDiv, Covered, SigOf, SigBytes, SigFits,
      Layout.Width, Layout.Capacity, Layout.Exact, Layout.Valid, SizeAt, Histogram, Gained, Frame;
    ExactIsValid(layout);
    ghost var start := Look(reader, stats, sink);
    var n := blockEnd - blockStart;
    var microStart := blockStart;
    var blockMath := ZERO_SIG;
    ReadingStart(layout, 1, start, n);
    while microStart < blockEnd
      invariant blockStart <= microStart && Ready(reader, stats, sink) && stats.root == old(stats.root)
      invariant Reading(layout, 1, start, Look(reader, stats, sink), microStart - blockStart, n, blockMath)
      decreases blockEnd - microStart
    {
      var next := ReadNextMicro(reader, stats, sink, layout, start, microStart - blockStart, n, blockMath);
      if next.ValueError? {
        return ValueError;
      }
      blockMath := next.value;
      microStart := microStart + layout.Width(0);
    }
    ghost var now := Look(reader, stats, sink);
    var closed := ReadClose(reader, stats, sink, layout, 1, start, microStart - blockStart, n, blockMath);
    if closed.ValueError? {
      return ValueError;
    }
    stats.counts := stats.counts.(block := stats.counts.block + 1);
    CloseTaken(layout, 1, start, now, Look(reader, stats, sink), microStart - blockStart, n, blockMath);
    r := Ok(blockMath);
  }

  /** One pass of the middle loop. */
  method ReadNextBlock(reader: RecordReader, stats: Statistics, sink: Sink, layout: Layout,
                       ghost start: ReadSnap, blockStart: nat, pageStart: nat, pageEnd: nat, pageMath: Sig)
    returns (r: Result<Sig>)
    requires layout.Exact() && pageStart <= blockStart < pageEnd && Ready(reader, stats, sink)
    requires Reading(layout, 2, start, Look(reader, stats, sink), blockStart - pageStart, pageEnd - pageStart, pageMath)
    modifies reader, reader.stream, stats, sink, sink.original
    ensures stats.root == old(stats.root)
    ensures r.ValueError? ==> NoUnit(layout, 2, pageEnd - pageStart, start, sink)
    ensures r.Ok? ==> Ready(reader, stats, sink)
                      && Reading(layout, 2, start, Look(reader, stats, sink),
                                 blockStart - pageStart + layout.Width(1), pageEnd - pageStart, r.value)
  {
    hide Reading, Took, NoUnit, Steps, Counted, CeilDiv, Covered, NextLength, Unit, Children, SigOf, Combine,
      Layout.Width, Layout.Capacity, Layout.Exact, Layout.Valid, SizeAt, Histogram, Gained;
    ExactIsValid(layout);
    ghost var now := Look(reader, stats, sink);
    var blockEnd := blockStart + NextLength(layout.Width(1), pageEnd - blockStart);
    ChildSize(layout, 2, pageEnd - blockStart);
    var child := ReadBlock(reader, stats, sink, layout, blockStart, blockEnd);
    if child.ValueError? {
      StuckAtChild(layout, 2, start, now, blockStart - pageStart, pageEnd - pageStart, pageMath, sink);
      return ValueError;
    }
    ReadingStep(layout, 2, start, now, Look(reader, stats, sink), blockStart - pageStart, pageEnd - pageStart,
                pageMath, child.value);
    var folded := Fold(pageMath, child.value);
    r := Ok(folded);
  }

  /** The middle loop and the PAGE record. */
  method ReadPage(reader: RecordReader, stats: Statistics, sink: Sink, layout: Layout, pageStart: nat, pageEnd: nat)
    returns (r: Result<Sig>)
    requires layout.Exact() && pageStart < pageEnd && SizeAt(layout, 2, pageEnd - pageStart)
    requires Ready(reader, stats, sink)
    modifies reader, reader.stream, stats, sink, sink.original
    ensures stats.root == old(stats.root)
    ensures r.ValueError? ==> NoUnit(layout, 2, pageEnd - pageStart, old(Look(reader, stats, sink)), sink)
    ensures r.Ok? ==> Ready(reader, stats, sink)
                      && Took(layout, 2, old(Look(reader, stats, sink)), Look(reader, stats, sink),
                              pageEnd - pageStart, r.value)
  {
    hide Reading, Took, NoUnit, Unit, Children, Steps, Counted, CeilDiv, Covered, SigOf, SigBytes, SigFits,
      Layout.Width, Layout.Capacity, Layout.Exact, Layout.Valid, SizeAt, Histogram, Gained, Frame;
    ExactIsValid(layout);
    ghost var start := Look(reader, stats, sink);
    ghost var n := pageEnd - pageStart;
    var blockStart := pageStart;
    var pageMath := ZERO_SIG;
    ReadingStart(layout, 2, start, n);
    while blockStart < pageEnd
      invariant pageStart <= blockStart && Ready(reader, stats, sink) && stats.root == old(stats.root)
      invariant Reading(layout, 2, start, Look(reader, stats, sink), blockStart - pageStart, n, pageMath)
      decreases pageEnd - blockStart
    {
      var next := ReadNextBlock(reader, stats, sink, layout, start, blockStart, pageStart, pageEnd, pageMath);
      if next.ValueError? {
        return ValueError;
      }
      pageMath := next.value;
      blockStart := blockStart + layout.Width(1);
    }
    ghost var now := Look(reader, stats, sink);
    var closed := ReadClose(reader, stats, sink, layout, 2, start, blockStart - pageStart, n, pageMath);
    if closed.ValueError? {
      return ValueError;
    }
    stats.counts := stats.counts.(page := stats.counts.page + 1);
    CloseTaken(layout, 2, start, now, Look(reader, stats, sink), blockStart - pageStart, n, pageMath);
    r := Ok(pageMath);
  }

  /** One pass of the outer loop. */
  method ReadNextPage(reader: RecordReader, stats: Statistics, sink: Sink, layout: Layout,
                      ghost start: ReadSnap, pageStart: nat, size: nat)
    returns (r: Result<()>)
    requires layout.Exact() && pageStart < size && Ready(reader, stats, sink)
    requires Reading(layout, 3, start, Look(reader, stats, sink), pageStart, size, stats.root)
    modifies reader, reader.stream, stats, sink, sink.original
    ensures r.ValueError? ==> NoUnit(layout, 3, size, start, sink)
    ensures r.Ok? ==> Ready(reader, stats, sink)
                      && Reading(layout, 3, start, Look(reader, stats, sink), pageStart + layout.Width(2), size,
                                 stats.root)
  {
    hide Reading, Took, NoUnit, Steps, Counted, CeilDiv, Covered, NextLength, Unit, Children, SigOf, Combine,
      Layout.Width, Layout.Capacity, Layout.Exact, Layout.Valid, SizeAt, Histogram, Gained;
    ExactIsValid(layout);
    ghost var now := Look(reader, stats, sink);
    var pageEnd := pageStart + NextLength(layout.Width(2), size - pageStart);
    ChildSize(layout, 3, size - pageStart);
    var child := ReadPage(reader, stats, sink, layout, pageStart, pageEnd);
    if child.ValueError? {
      StuckAtChild(layout, 3, start, now, pageStart, size, stats.root, sink);
      return ValueError;
    }
    ReadingStep(layout, 3, start, now, Look(reader, stats, sink), pageStart, size, stats.root, child.value);
    stats.root := Fold(stats.root, child.value);
    r := Ok(());
  }

  /** The outer loop and the DOC record. */
  method ReadBody(reader: RecordReader, stats: Statistics, sink: Sink, layout: Layout, size: nat)
    returns (r: Result<()>)
    requires layout.Exact() && SizeAt(layout, 3, size) && Ready(reader, stats, sink)
    requires sink.written == [] && stats.counts == Counts(0, 0, 0, 1) && stats.root == ZERO_SIG
    modifies reader, reader.stream, stats, sink, sink.original
    ensures r.ValueError? ==> NoUnit(layout, 3, size, old(Look(reader, stats, sink)), sink)
    ensures r.Ok? ==>
              && Ready(reader, stats, sink)
              && |sink.written| == size && stats.root == SigOf(sink.written)
              && stats.counts == Counted(Counts(0, 0, 0, 1), layout, 2, size)
              && old(reader.Rest()) == Unit(layout, 3, sink.written) + reader.Rest()
              && reader.digest == old(reader.digest) + Unit(layout, 3, sink.written)
  {
    hide Reading, NoUnit, Unit, Children, Steps, Counted, CeilDiv, Covered, SigOf, SigBytes, SigFits, Layout.Width,
      Layout.Capacity, Layout.Exact, Layout.Valid, SizeAt, Histogram, Frame;
    ExactIsValid(layout);
    ghost var start := Look(reader, stats, sink);
    var pageStart := 0;
    ReadingStart(layout, 3, start, size);
    while pageStart < size
      invariant 0 <= pageStart && Ready(reader, stats, sink)
      invariant Reading(layout, 3, start, Look(reader, stats, sink), pageStart, size, stats.root)
      decreases size - pageStart
    {
      var next := ReadNextPage(reader, stats, sink, layout, start, pageStart, size);
      if next.ValueError? {
        return ValueError;
      }
      pageStart := pageStart + layout.Width(2);
    }
    ghost var now := Look(reader, stats, sink);
    ReadingEnd(layout, 3, start, now, pageStart, size, stats.root);
    var closed := ReadClose(reader, stats, sink, layout, 3, start, pageStart, size, stats.root);
    if closed.ValueError? {
      return ValueError;
    }
    assert Gained(start, now) == sink.written;
    r := Ok(());
  }
}
