/** The SMTYX-EXACT v2 container as a function of the header, the data, the layout and the footer. */
module Container {
  import opened Wrappers
  import opened Arithmetic
  import opened Moments
  import opened Clusters
  import opened Varint
  import opened MicroCodec
  import opened Layouts

  const MAGIC: seq<Byte> := [83, 77, 84, 89, 88, 69, 88, 50, 13, 10, 26, 10]
  const END_MARK: seq<Byte> := [69, 78, 68, 33]
  const MAX_RECORD: nat := 65536

  // ---- Header, footer and the parts of the world the codec calls ----

  datatype Provenance = Provenance(originator: string, designReference: string, freezeDate: string,
                                   implementation: string)

  const EXACT_PROVENANCE := Provenance("@luqmanwah", "chatgpt:6a99b94e-9758-83ec-8246-c2290888ad53",
                                       "2026-09-17", "smtyx-python/0.2.0")

  /** A route snapshot; only the class and digest of its entry matter here. */
  datatype Route = Route(entryClass: string, sha256: seq<Byte>, text: string)

  datatype Header = Header(format: string, version: int, profile: string, mode: string, layout: Layout,
                           name: string, size: int, route: Option<Route>, provenance: Provenance)

  datatype Counts = Counts(micro: nat, block: nat, page: nat, doc: nat)

  datatype Footer = Footer(sha256: seq<Byte>, fingerprint: (int, int), histogram: seq<nat>, counts: Counts, root: Sig)

  /** SHA-256, the JSON printer and parser, and route validation, about which only `Faithful` is known. */
  datatype World = World(hash: seq<Byte> -> seq<Byte>,
                         printHeader: Header -> seq<Byte>, parseHeader: seq<Byte> -> Option<Header>,
                         printFooter: Footer -> seq<Byte>, parseFooter: seq<Byte> -> Option<Footer>,
                         routeValid: Route -> bool) {
    ghost predicate Faithful() {
      && (forall s :: |hash(s)| == 32)
      && (forall h :: parseHeader(printHeader(h)) == Some(h))
      && (forall f :: parseFooter(printFooter(f)) == Some(f))
    }

    /** exact.validate_header. */
    predicate ValidHeader(h: Header) {
      && h.format == "SMTYX-EXACT" && h.version == 2 && h.profile == "cluster-ternary-msb-v1"
      && h.mode == "LARGE" && h.provenance == EXACT_PROVENANCE
      && h.layout.Exact()
      && h.name != ""
      && 0 <= h.size < Pow(2, 63)
      && (h.route.Some? ==> routeValid(h.route.value))
    }

    /** exact.check_file_route. */
    predicate RouteMatches(route: Option<Route>, contentHash: seq<Byte>) {
      route.Some? && route.value.entryClass == "FILE" ==> route.value.sha256 == contentHash
    }
  }

  /** What the footer must say about the data: nothing in it depends on how the data was chunked and folded. */
  function FooterOf(w: World, data: seq<Byte>, layout: Layout): Footer
    requires layout.Valid()
  {
    Footer(w.hash(data), (|data|, Weight(data)), Histogram(data),
           Counts(CeilDiv(|data|, layout.Width(0)), CeilDiv(|data|, layout.Width(1)),
                  CeilDiv(|data|, layout.Width(2)), 1),
           SigOf(data))
  }

  // ---- Records ----

  /** struct.pack("<I", n). */
  function Le32(n: nat): (r: seq<Byte>)
    ensures |r| == 4
  {
    [n % 256, n / 256 % 256, n / 65536 % 256, n / 16777216 % 256]
  }

  /** struct.unpack("<I", s). */
  function FromLe32(s: seq<Byte>): nat
    requires |s| == 4
  {
    var (a: int, b: int, c: int, d: int) := (s[0], s[1], s[2], s[3]);
    a + 256 * b + 65536 * c + 16777216 * d
  }

  lemma FromOfLe32(n: nat)
    requires n < 4294967296
    ensures FromLe32(Le32(n)) == n
  {
    assert n == n % 256 + 256 * (n / 256);
    assert n / 256 == n / 256 % 256 + 256 * (n / 65536);
    assert n / 65536 == n / 65536 % 256 + 256 * (n / 16777216);
  }

  lemma Le32OfFrom(s: seq<Byte>)
    requires |s| == 4
    ensures Le32(FromLe32(s)) == s
  {
    var n := FromLe32(s);
    var (a: int, b: int, c: int, d: int) := (s[0], s[1], s[2], s[3]);
    assert n / 256 == b + 256 * c + 65536 * d;
    assert n / 65536 == c + 256 * d;
    assert n / 16777216 == d;
  }

  function Frame(kind: Byte, payload: seq<Byte>): (r: seq<Byte>)
    ensures |r| == 5 + |payload|
  {
    [kind] + Le32(|payload|) + payload
  }

  /** A record: its kind, its length in four bytes, least significant first, and its payload. */
  lemma FrameMeans(kind: Byte, payload: seq<Byte>)
    requires |payload| <= MAX_RECORD
    ensures var f := Frame(kind, payload);
            && |f| == 5 + |payload| && f[0] == kind && f[5..] == payload
            && f[1] as int + 256 * f[2] as int + 65536 * f[3] as int == |payload| && f[4] == 0
  {
    var (f, n) := (Frame(kind, payload), |payload|);
    assert f[1..5] == Le32(n);
    assert f[1] == f[1..5][0] && f[2] == f[1..5][1] && f[3] == f[1..5][2] && f[4] == f[1..5][3];
    FromOfLe32(n);
  }

  /** A record is delimited by its own length: it cannot be read in two ways. */
  lemma FrameUnique(kind: Byte, p: seq<Byte>, q: seq<Byte>, s: seq<Byte>, t: seq<Byte>)
    requires |p| <= MAX_RECORD && |q| <= MAX_RECORD
    requires Frame(kind, p) + s == Frame(kind, q) + t
    ensures p == q && s == t
  {
    hide Le32, FromLe32;
    var x := Frame(kind, p) + s;
    assert x[1..5] == Le32(|p|);
    assert x[1..5] == Le32(|q|);
    FromOfLe32(|p|);
    FromOfLe32(|q|);
    assert x[5..5 + |p|] == p;
    assert x[5..5 + |q|] == q;
    assert x[5 + |p|..] == s;
    assert x[5 + |q|..] == t;
  }

  // ---- The body: every MICRO, BLOCK, PAGE and DOC, children before their parent ----

  function Kind(level: nat): Byte
  {
    if level == 0 then 77 else if level == 1 then 66 else if level == 2 then 80 else 68
  }

  /** Where the last group of at most `w` begins when `n` items are cut from the front. */
  function LastStart(n: nat, w: nat): (s: nat)
    requires 0 < n && 0 < w
    ensures s < n <= s + w
  {
    assert n - 1 == ((n - 1) / w) * w + (n - 1) % w;
    ((n - 1) / w) * w
  }

  lemma LastStartIs(j: nat, w: nat, r: nat)
    requires 0 < w && 1 <= r <= w
    ensures LastStart(j * w + r, w) == j * w
  {
    DivModUnique(j, w, r - 1);
  }

  /** The records of one node of the hierarchy: 0 MICRO, 1 BLOCK, 2 PAGE, 3 DOC. */
  function Unit(layout: Layout, level: nat, data: seq<Byte>): seq<Byte>
    requires layout.Valid() && level <= 3
    decreases level, |data|, 1
  {
    if level == 0 then Frame(Kind(0), MicroPayload(data))
    else
      NaturalSig(data);
      Children(layout, level, data) + Frame(Kind(level), SigBytes(SigOf(data)))
  }

  /** The records of all children of a node. */
  function Children(layout: Layout, level: nat, data: seq<Byte>): seq<Byte>
    requires layout.Valid() && 1 <= level <= 3
    decreases level, |data|, 0
  {
    if data == [] then []
    else
      var s := LastStart(|data|, layout.Width(level - 1));
      Children(layout, level, data[..s]) + Unit(layout, level - 1, data[s..])
  }

  /** One more child behind full children. */
  lemma ChildrenSnoc(layout: Layout, level: nat, j: nat, data: seq<Byte>, chunk: seq<Byte>)
    requires layout.Valid() && 1 <= level <= 3
    requires |data| == j * layout.Width(level - 1) && 1 <= |chunk| <= layout.Width(level - 1)
    ensures Children(layout, level, data + chunk) == Children(layout, level, data) + Unit(layout, level - 1, chunk)
  {
    LastStartIs(j, layout.Width(level - 1), |chunk|);
    assert (data + chunk)[..|data|] == data;
    assert (data + chunk)[|data|..] == chunk;
  }

  /** The sizes a node of a level can have. */
  predicate SizeAt(layout: Layout, level: nat, n: nat)
    requires layout.Valid() && level <= 3
  {
    if level == 3 then n < Pow(2, 63) else 1 <= n <= layout.Width(level)
  }

  lemma SizeIsSmall(layout: Layout, level: nat, n: nat)
    requires layout.Exact() && level <= 3 && SizeAt(layout, level, n)
    ensures n < Pow(2, 63)
    ensures level == 0 ==> n <= 1024
  {
    if level < 3 {
      var m := layout.microBytes * layout.microsPerBlock;
      MulGrows(layout.blocksPerPage, m);
      MulGrows(layout.microsPerBlock, layout.microBytes);
      assert layout.microBytes * layout.microsPerBlock == layout.microsPerBlock * layout.microBytes;
      assert m * layout.blocksPerPage == layout.blocksPerPage * m;
      SmallSize(n);
    }
  }

  /** Every payload the writer frames obeys the record limit. */
  lemma NodePayloadLength(data: seq<Byte>)
    requires |data| < Pow(2, 63)
    ensures Natural(SigOf(data)) && |SigBytes(SigOf(data))| <= 320
  {
    SigOfFits(data);
    SigBytesLength(SigOf(data));
  }

  /** The records of a node determine the data under it and where they end. */
  lemma {:induction false} UnitPrefixFree(layout: Layout, level: nat,
                                          a: seq<Byte>, b: seq<Byte>, s: seq<Byte>, t: seq<Byte>)
    requires layout.Exact() && level <= 3 && |a| == |b| && SizeAt(layout, level, |a|)
    requires Unit(layout, level, a) + s == Unit(layout, level, b) + t
    ensures a == b && s == t
    decreases level, |a|, 1
  {
    hide SigBytes, SigOf, MicroPayload;
    SizeIsSmall(layout, level, |a|);
    if level == 0 {
      MicroPayloadLength(a);
      MicroPayloadLength(b);
      FrameUnique(Kind(0), MicroPayload(a), MicroPayload(b), s, t);
      MicroPayloadInjective(a, b);
    } else {
      NodePayloadLength(a);
      NodePayloadLength(b);
      var (fa, fb) := (Frame(Kind(level), SigBytes(SigOf(a))), Frame(Kind(level), SigBytes(SigOf(b))));
      assert Children(layout, level, a) + (fa + s) == Unit(layout, level, a) + s;
      assert Children(layout, level, b) + (fb + t) == Unit(layout, level, b) + t;
      ChildrenPrefixFree(layout, level, a, b, fa + s, fb + t);
      FrameUnique(Kind(level), SigBytes(SigOf(a)), SigBytes(SigOf(b)), s, t);
    }
  }

  lemma {:induction false} ChildrenPrefixFree(layout: Layout, level: nat,
                                              a: seq<Byte>, b: seq<Byte>, s: seq<Byte>, t: seq<Byte>)
    requires layout.Exact() && 1 <= level <= 3 && |a| == |b|
    requires Children(layout, level, a) + s == Children(layout, level, b) + t
    ensures a == b && s == t
    decreases level, |a|, 0
  {
    hide Unit, Layout.Width;
    if a == [] {
      assert [] + s == s && [] + t == t;
    } else {
      var w := layout.Width(level - 1);
      var k := LastStart(|a|, w);
      var (ua, ub) := (Unit(layout, level - 1, a[k..]), Unit(layout, level - 1, b[k..]));
      assert Children(layout, level, a) + s == Children(layout, level, a[..k]) + (ua + s);
      assert Children(layout, level, b) + t == Children(layout, level, b[..k]) + (ub + t);
      ChildrenPrefixFree(layout, level, a[..k], b[..k], ua + s, ub + t);
      UnitPrefixFree(layout, level - 1, a[k..], b[k..], s, t);
      assert a == a[..k] + a[k..] && b == b[..k] + b[k..];
    }
  }

  // ---- The whole container ----

  /** Everything before the trailer: magic, header record, body, footer record. */
  function Sealable(header: seq<Byte>, data: seq<Byte>, layout: Layout, footer: seq<Byte>): seq<Byte>
    requires layout.Valid()
  {
    MAGIC + Frame(72, header) + Unit(layout, 3, data) + Frame(70, footer)
  }

  /** The container: the part above, the end mark, and the digest of the part above. */
  function Sealed(w: World, header: seq<Byte>, data: seq<Byte>, layout: Layout, footer: seq<Byte>): seq<Byte>
    requires layout.Valid()
  {
    var body := Sealable(header, data, layout, footer);
    body + (END_MARK + w.hash(body))
  }

  /**
   A container is accepted as holding `data`, with these header and footer texts, when it is the
   container of that data and everything the header and footer declare is true of it.
   */
  ghost predicate Accepted(w: World, container: seq<Byte>, maxOutput: int,
                           data: seq<Byte>, header: seq<Byte>, footer: seq<Byte>)
  {
    && |header| <= MAX_RECORD && |footer| <= MAX_RECORD
    && w.parseHeader(header).Some?
    && var h := w.parseHeader(header).value;
    && w.ValidHeader(h)
    && h.size == |data| <= maxOutput
    && w.parseFooter(footer) == Some(FooterOf(w, data, h.layout))
    && w.RouteMatches(h.route, w.hash(data))
    && container == Sealed(w, header, data, h.layout, footer)
  }

  /** An accepted container holds one data string only. */
  lemma AcceptedUnique(w: World, container: seq<Byte>, max: int, max': int,
                       data: seq<Byte>, header: seq<Byte>, footer: seq<Byte>,
                       data': seq<Byte>, header': seq<Byte>, footer': seq<Byte>)
    requires Accepted(w, container, max, data, header, footer)
    requires Accepted(w, container, max', data', header', footer')
    ensures data == data' && header == header' && footer == footer'
  {
    hide Unit, FooterOf, Frame;
    var layout := w.parseHeader(header).value.layout;
    var layout' := w.parseHeader(header').value.layout;
    var (b, b') := (Sealable(header, data, layout, footer), Sealable(header', data', layout', footer'));
    var (u, u') := (Unit(layout, 3, data), Unit(layout', 3, data'));
    var (e, e') := (END_MARK + w.hash(b), END_MARK + w.hash(b'));
    var (f, f') := (Frame(70, footer), Frame(70, footer'));
    var (s, s') := (u + (f + e), u' + (f' + e'));
    assert container == MAGIC + (Frame(72, header) + s);
    assert container == MAGIC + (Frame(72, header') + s');
    assert container[|MAGIC|..] == Frame(72, header) + s;
    assert container[|MAGIC|..] == Frame(72, header') + s';
    FrameUnique(72, header, header', s, s');
    UnitPrefixFree(layout, 3, data, data', f + e, f' + e');
    FrameUnique(70, footer, footer', e, e');
  }
}
