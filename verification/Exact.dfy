/** The public operations on exact containers: what they accept, what they return, and that they undo each other. */
module Exact {
  import opened Wrappers
  import opened Arithmetic
  import opened Moments
  import opened Clusters
  import opened Streams
  import opened Layouts
  import opened Container
  import opened Records
  import opened ExactEncode
  import opened ExactRead

  ghost function Trailer(w: World, header: seq<Byte>, data: seq<Byte>, layout: Layout, footer: seq<Byte>): seq<Byte>
    requires layout.Valid()
  {
    END_MARK + w.hash(Sealable(header, data, layout, footer))
  }

  /** Whatever is accepted, the sink would refuse it. */
  ghost predicate Hopeless(w: World, container: seq<Byte>, max: int, sink: Sink)
  {
    forall d, h, f | Accepted(w, container, max, d, h, f) :: !sink.Accepts(d)
  }

  // ---- An accepted container agrees with what has been read of it, stage by stage ----

  lemma AfterMagic(w: World, container: seq<Byte>, max: int, d: seq<Byte>, h: seq<Byte>, f: seq<Byte>)
    requires Accepted(w, container, max, d, h, f)
    ensures var layout := w.parseHeader(h).value.layout;
            container == MAGIC + (Frame(72, h) + (Unit(layout, 3, d) + (Frame(70, f) + Trailer(w, h, d, layout, f))))
  {
    hide Unit, Frame, FooterOf;
    var layout := w.parseHeader(h).value.layout;
    var t := Trailer(w, h, d, layout, f);
    assert container == MAGIC + Frame(72, h) + Unit(layout, 3, d) + Frame(70, f) + t;
  }

  lemma AfterHeader(w: World, container: seq<Byte>, max: int, d: seq<Byte>, h: seq<Byte>, f: seq<Byte>,
                    header: seq<Byte>, rest: seq<Byte>)
    requires Accepted(w, container, max, d, h, f)
    requires |header| <= MAX_RECORD && container == MAGIC + (Frame(72, header) + rest)
    ensures h == header
    ensures var layout := w.parseHeader(h).value.layout;
            rest == Unit(layout, 3, d) + (Frame(70, f) + Trailer(w, h, d, layout, f))
  {
    hide Unit, Frame, FooterOf, Trailer;
    var layout := w.parseHeader(h).value.layout;
    var rest' := Unit(layout, 3, d) + (Frame(70, f) + Trailer(w, h, d, layout, f));
    AfterMagic(w, container, max, d, h, f);
    assert container[|MAGIC|..] == Frame(72, header) + rest;
    assert container[|MAGIC|..] == Frame(72, h) + rest';
    FrameUnique(72, header, h, rest, rest');
  }

  lemma AfterBody(w: World, container: seq<Byte>, max: int, d: seq<Byte>, h: seq<Byte>, f: seq<Byte>,
                  header: seq<Byte>, data: seq<Byte>, rest: seq<Byte>)
    requires Accepted(w, container, max, d, h, f)
    requires |header| <= MAX_RECORD && w.parseHeader(header).Some? && w.ValidHeader(w.parseHeader(header).value)
    requires |data| == w.parseHeader(header).value.size
    requires container == MAGIC + (Frame(72, header) + (Unit(w.parseHeader(header).value.layout, 3, data) + rest))
    ensures h == header && d == data
    ensures rest == Frame(70, f) + Trailer(w, h, d, w.parseHeader(h).value.layout, f)
  {
    hide Unit, Frame, FooterOf, Trailer;
    var layout := w.parseHeader(header).value.layout;
    AfterHeader(w, container, max, d, h, f, header, Unit(layout, 3, data) + rest);
    UnitPrefixFree(layout, 3, data, d, rest, Frame(70, f) + Trailer(w, h, d, layout, f));
  }

  lemma AfterFooter(w: World, container: seq<Byte>, max: int, d: seq<Byte>, h: seq<Byte>, f: seq<Byte>,
                    header: seq<Byte>, data: seq<Byte>, footer: seq<Byte>, rest: seq<Byte>)
    requires Accepted(w, container, max, d, h, f)
    requires |header| <= MAX_RECORD && |footer| <= MAX_RECORD
    requires w.parseHeader(header).Some? && w.ValidHeader(w.parseHeader(header).value)
    requires |data| == w.parseHeader(header).value.size
    requires container ==
             MAGIC + (Frame(72, header)
                      + (Unit(w.parseHeader(header).value.layout, 3, data) + (Frame(70, footer) + rest)))
    ensures h == header && d == data && f == footer
    ensures rest == Trailer(w, h, d, w.parseHeader(h).value.layout, f)
  {
    hide Unit, Frame, FooterOf, Trailer;
    AfterBody(w, container, max, d, h, f, header, data, Frame(70, footer) + rest);
    FrameUnique(70, footer, f, rest, Trailer(w, h, d, w.parseHeader(h).value.layout, f));
  }

  /** If the body of the declared size cannot be read, nothing acceptable is there. */
  lemma HopelessBody(w: World, container: seq<Byte>, max: int, header: seq<Byte>, now: ReadSnap, sink: Sink)
    requires |header| <= MAX_RECORD && w.parseHeader(header).Some? && w.ValidHeader(w.parseHeader(header).value)
    requires container == MAGIC + (Frame(72, header) + now.rest) && now.written == []
    requires NoUnit(w.parseHeader(header).value.layout, 3, w.parseHeader(header).value.size, now, sink)
    ensures Hopeless(w, container, max, sink)
  {
    hide Unit, Frame, FooterOf, Trailer;
    forall d, h, f | Accepted(w, container, max, d, h, f)
      ensures !sink.Accepts(d)
    {
      AfterHeader(w, container, max, d, h, f, header, now.rest);
      assert [] + d == d;
    }
  }

  lemma CountsAreCeilings(layout: Layout, n: nat)
    requires layout.Valid()
    ensures Counted(Counts(0, 0, 0, 1), layout, 2, n) ==
            Counts(CeilDiv(n, layout.Width(0)), CeilDiv(n, layout.Width(1)), CeilDiv(n, layout.Width(2)), 1)
  {
  }

  /** The header and footer reported with the data are those of an accepted container. */
  ghost predicate Reported(w: World, container: seq<Byte>, max: int, data: seq<Byte>, header: Header, footer: Footer)
  {
    && header.layout.Valid() && footer == FooterOf(w, data, header.layout)
    && exists h, f :: Accepted(w, container, max, data, h, f) && w.parseHeader(h) == Some(header)
  }

  /**
   exact.read_exact: it succeeds exactly when the container is that of some data the sink takes,
   and then the sink holds that data, and the header and footer returned are the container's.
   */
  method ReadExact(w: World, container: seq<Byte>, sink: Sink, maxOutput: int) returns (r: Result<(Header, Footer)>)
    requires w.Faithful() && sink.Valid() && sink.written == []
    modifies sink, sink.original
    ensures r.ValueError? ==> Hopeless(w, container, maxOutput, sink)
    ensures r.Ok? ==> sink.Valid() && Reported(w, container, maxOutput, sink.written, r.value.0, r.value.1)
    ensures r.Ok? ==>
              var h := r.value.0;
              && h.format == "SMTYX-EXACT" && h.version == 2 && h.profile == "cluster-ternary-msb-v1"
              && h.mode == "LARGE"
              && h.provenance == Provenance("@luqmanwah", "chatgpt:6a99b94e-9758-83ec-8246-c2290888ad53", "2026-09-17",
                                            "smtyx-python/0.2.0")
              && h.name != "" && h.layout.Exact()
              && h.size == |sink.written| <= maxOutput && |sink.written| < Pow(2, 63)
              && (h.route.Some? ==> w.routeValid(h.route.value))
              && (h.route.Some? && h.route.value.entryClass == "FILE" ==> h.route.value.sha256 == w.hash(sink.written))
  {
    hide Unit, Frame, FooterOf, Trailer, Counted, CeilDiv, SigOf, Histogram, Weight, NoUnit, Took;
    if maxOutput < 0 {
      return ValueError;
    }
    var stream := new ByteStream(container);
    var reader := new RecordReader(stream);
    var magic := reader.ReadMagic();
    if magic.ValueError? {
      forall d, h, f | Accepted(w, container, maxOutput, d, h, f)
        ensures false
      {
        AfterMagic(w, container, maxOutput, d, h, f);
      }
      return ValueError;
    }
    var header, headerText := ReadHeader(w, reader, maxOutput);
    if header.ValueError? {
      return ValueError;
    }
    var footer := ReadRest(w, reader, sink, maxOutput, header.value, headerText);
    if footer.ValueError? {
      return ValueError;
    }
    r := Ok((header.value, footer.value));
    ReportedMeans(w, container, maxOutput, sink.written, header.value, footer.value);
  }

  /** What an accepted container says of its data. */
  lemma ReportedMeans(w: World, container: seq<Byte>, max: int, data: seq<Byte>, h: Header, footer: Footer)
    requires Reported(w, container, max, data, h, footer)
    ensures h.format == "SMTYX-EXACT" && h.version == 2 && h.profile == "cluster-ternary-msb-v1" && h.mode == "LARGE"
    ensures h.provenance == Provenance("@luqmanwah", "chatgpt:6a99b94e-9758-83ec-8246-c2290888ad53", "2026-09-17",
                                       "smtyx-python/0.2.0")
    ensures h.name != "" && h.layout.Exact() && h.size == |data| <= max && |data| < Pow(2, 63)
    ensures h.route.Some? ==> w.routeValid(h.route.value)
    ensures h.route.Some? && h.route.value.entryClass == "FILE" ==> h.route.value.sha256 == w.hash(data)
  {
    hide Sealed, FooterOf, Pow;
  }

  /** What is known once the header has been read. */
  ghost predicate HeaderRead(w: World, reader: RecordReader, header: Header, headerText: seq<Byte>)
    reads reader, reader.stream
  {
    && reader.Valid()
    && |headerText| <= MAX_RECORD && w.parseHeader(headerText) == Some(header) && w.ValidHeader(header)
    && reader.stream.data == MAGIC + (Frame(72, headerText) + reader.Rest())
    && reader.digest == MAGIC + Frame(72, headerText)
  }

  /** exact.read_exact: the header record and its checks. */
  method ReadHeader(w: World, reader: RecordReader, maxOutput: int)
    returns (r: Result<Header>, ghost headerText: seq<Byte>)
    requires reader.Valid() && reader.digest == MAGIC && reader.stream.data == MAGIC + reader.Rest()
    modifies reader, reader.stream
    ensures r.ValueError? ==> forall d, h, f :: !Accepted(w, reader.stream.data, maxOutput, d, h, f)
    ensures r.Ok? ==> HeaderRead(w, reader, r.value, headerText) && r.value.size <= maxOutput
  {
    hide Unit, Frame, FooterOf, Trailer, Accepted, World.ValidHeader, Layout.Exact, Layout.Valid, Pow, Le32, FromLe32;
    ghost var container := reader.stream.data;
    headerText := [];
    var text := reader.Record(72);
    if text.ValueError? {
      NoHeader(w, container, maxOutput);
      return ValueError, headerText;
    }
    headerText := text.value;
    ghost var rest := reader.Rest();
    var parsed := w.parseHeader(text.value);
    if parsed == None || !w.ValidHeader(parsed.value) || parsed.value.size > maxOutput {
      WrongHeader(w, container, maxOutput, headerText, rest);
      return ValueError, headerText;
    }
    r := Ok(parsed.value);
  }

  lemma WrongHeader(w: World, container: seq<Byte>, max: int, header: seq<Byte>, rest: seq<Byte>)
    requires |header| <= MAX_RECORD && container == MAGIC + (Frame(72, header) + rest)
    requires var p := w.parseHeader(header); p == None || !w.ValidHeader(p.value) || p.value.size > max
    ensures forall d, h, f :: !Accepted(w, container, max, d, h, f)
  {
    hide Unit, Frame, FooterOf, Trailer;
    forall d, h, f
      ensures !Accepted(w, container, max, d, h, f)
    {
      if Accepted(w, container, max, d, h, f) {
        AfterHeader(w, container, max, d, h, f, header, rest);
      }
    }
  }

  /** exact.read_exact behind the header: the body, then the rest. */
  method ReadRest(w: World, reader: RecordReader, sink: Sink, maxOutput: int, header: Header,
                  ghost headerText: seq<Byte>)
    returns (r: Result<Footer>)
    requires w.Faithful() && sink.Valid() && sink.written == [] && reader.stream != sink.original
    requires HeaderRead(w, reader, header, headerText) && header.size <= maxOutput
    modifies reader, reader.stream, sink, sink.original
    ensures r.ValueError? ==> Hopeless(w, reader.stream.data, maxOutput, sink)
    ensures r.Ok? ==>
              && sink.Valid() && r.value == FooterOf(w, sink.written, header.layout)
              && exists f :: Accepted(w, reader.stream.data, maxOutput, sink.written, headerText, f)
  {
    hide Unit, Frame, Trailer, Counted, CeilDiv, SigOf, Histogram, Weight, NoUnit, Took, Layout.Width, Accepted;
    var stats := new Statistics();
    ghost var start := Look(reader, stats, sink);
    var body := ReadBody(reader, stats, sink, header.layout, header.size);
    if body.ValueError? {
      HopelessBody(w, reader.stream.data, maxOutput, headerText, start, sink);
      return ValueError;
    }
    r := ReadFooter(w, reader, stats, header, headerText, sink.written, maxOutput);
  }

  /** What is known once the body has been read. */
  ghost predicate BodyRead(w: World, reader: RecordReader, stats: Statistics,
                           header: Header, headerText: seq<Byte>, data: seq<Byte>)
    reads reader, reader.stream, stats
  {
    && reader.Valid() && stats.Consistent() && stats.digest == data
    && |headerText| <= MAX_RECORD && w.parseHeader(headerText) == Some(header) && w.ValidHeader(header)
    && |data| == header.size && stats.root == SigOf(data)
    && stats.counts == Counted(Counts(0, 0, 0, 1), header.layout, 2, |data|)
    && reader.stream.data == MAGIC + (Frame(72, headerText) + (Unit(header.layout, 3, data) + reader.Rest()))
    && reader.digest == MAGIC + Frame(72, headerText) + Unit(header.layout, 3, data)
  }

  /** exact.read_exact behind the DOC record: footer, route and trailer. */
  method ReadFooter(w: World, reader: RecordReader, stats: Statistics,
                    header: Header, ghost headerText: seq<Byte>, ghost data: seq<Byte>, maxOutput: int)
    returns (r: Result<Footer>)
    requires w.Faithful() && BodyRead(w, reader, stats, header, headerText, data) && header.size <= maxOutput
    modifies reader, reader.stream
    ensures r.ValueError? ==> forall d, h, f :: !Accepted(w, reader.stream.data, maxOutput, d, h, f)
    ensures r.Ok? ==>
              && r.value == FooterOf(w, data, header.layout)
              && exists f :: Accepted(w, reader.stream.data, maxOutput, data, headerText, f)
  {
    hide Unit, Frame, FooterOf, Trailer, Counted, CeilDiv, SigOf, Histogram, Weight, Layout.Width;
    ghost var container := reader.stream.data;
    ghost var layout := header.layout;
    ghost var afterBody := reader.Rest();
    CountsAreCeilings(layout, header.size);
    var expected := stats.MakeFooter(w);
    FooterIs(w, data, layout, expected);
    DigestOfFooter(w, data, layout);
    var footerText := reader.Record(70);
    if footerText.ValueError? {
      forall d, h, f
        ensures !Accepted(w, container, maxOutput, d, h, f)
      {
        if Accepted(w, container, maxOutput, d, h, f) {
          AfterBody(w, container, maxOutput, d, h, f, headerText, data, afterBody);
        }
      }
      return ValueError;
    }
    ghost var afterFooter := reader.Rest();
    forall d, h, f | Accepted(w, container, maxOutput, d, h, f)
      ensures d == data && h == headerText && f == footerText.value
      ensures afterFooter == END_MARK + w.hash(reader.digest)
    {
      AfterFooter(w, container, maxOutput, d, h, f, headerText, data, footerText.value, afterFooter);
      TrailerIs(w, h, d, layout, f);
    }
    var footer := w.parseFooter(footerText.value);
    if footer == None || w.printFooter(footer.value) != w.printFooter(expected)
       || !w.RouteMatches(header.route, footer.value.sha256) {
      return ValueError;
    }
    assert w.parseFooter(w.printFooter(footer.value)) == Some(footer.value);
    var finished := reader.Finish(w);
    if finished.ValueError? {
      return ValueError;
    }
    IsSealed(w, container, headerText, data, layout, footerText.value, afterFooter);
    assert Accepted(w, container, maxOutput, data, headerText, footerText.value);
    r := Ok(expected);
  }

  lemma HeaderIsNext(w: World, container: seq<Byte>, max: int, d: seq<Byte>, h: seq<Byte>, f: seq<Byte>)
    requires Accepted(w, container, max, d, h, f)
    ensures |h| <= MAX_RECORD && MAGIC <= container && Frame(72, h) <= container[|MAGIC|..]
  {
    hide Unit, Frame, FooterOf, Trailer;
    AfterMagic(w, container, max, d, h, f);
  }

  lemma NoHeader(w: World, container: seq<Byte>, max: int)
    requires MAGIC <= container
    requires forall p | |p| <= MAX_RECORD :: !(Frame(72, p) <= container[|MAGIC|..])
    ensures forall d, h, f :: !Accepted(w, container, max, d, h, f)
  {
    hide Accepted, Unit, Frame, FooterOf, Trailer;
    forall d, h, f
      ensures !Accepted(w, container, max, d, h, f)
    {
      if Accepted(w, container, max, d, h, f) {
        HeaderIsNext(w, container, max, d, h, f);
      }
    }
  }

  lemma FooterIs(w: World, data: seq<Byte>, layout: Layout, footer: Footer)
    requires layout.Valid()
    requires footer == Footer(w.hash(data), (|data|, Weight(data)), Histogram(data),
                              Counts(CeilDiv(|data|, layout.Width(0)), CeilDiv(|data|, layout.Width(1)),
                                     CeilDiv(|data|, layout.Width(2)), 1), SigOf(data))
    ensures footer == FooterOf(w, data, layout)
  {
  }

  lemma DigestOfFooter(w: World, data: seq<Byte>, layout: Layout)
    requires layout.Valid()
    ensures FooterOf(w, data, layout).sha256 == w.hash(data)
  {
  }

  lemma TrailerIs(w: World, header: seq<Byte>, data: seq<Byte>, layout: Layout, footer: seq<Byte>)
    requires layout.Valid()
    ensures Trailer(w, header, data, layout, footer) == END_MARK + w.hash(Sealable(header, data, layout, footer))
  {
  }

  lemma IsSealed(w: World, container: seq<Byte>, header: seq<Byte>, data: seq<Byte>, layout: Layout, footer: seq<Byte>,
                 rest: seq<Byte>)
    requires layout.Valid()
    requires container == MAGIC + (Frame(72, header) + (Unit(layout, 3, data) + (Frame(70, footer) + rest)))
    requires rest == END_MARK + w.hash(Sealable(header, data, layout, footer))
    ensures container == Sealed(w, header, data, layout, footer)
  {
    hide Unit, Frame;
  }

  // ---- Decoding, verifying, and the round trip ----

  /** exact.decode_exact: returns the data of the container exactly when there is one. */
  method DecodeExact(w: World, container: seq<Byte>, maxOutput: int) returns (r: Result<seq<Byte>>)
    requires w.Faithful()
    ensures r.Ok? ==> exists h, f :: Accepted(w, container, maxOutput, r.value, h, f)
    ensures forall d, h, f :: Accepted(w, container, maxOutput, d, h, f) ==> r == Ok(d)
  {
    hide Accepted, FooterOf, Pow, Layout.Exact, Layout.Valid, Layout.Capacity, EXACT_PROVENANCE;
    var sink := new Sink(null);
    var read := ReadExact(w, container, sink, maxOutput);
    forall d, h, f | Accepted(w, container, maxOutput, d, h, f)
      ensures read.Ok? && d == sink.written
    {
      if read.Ok? {
        var h', f' :| Accepted(w, container, maxOutput, sink.written, h', f');
        AcceptedUnique(w, container, maxOutput, maxOutput, d, h, f, sink.written, h', f');
      }
    }
    if read.ValueError? {
      return ValueError;
    }
    r := Ok(sink.written);
  }

  /** exact.verify_exact: true exactly when the container is that of the given source. */
  method VerifyExact(w: World, container: seq<Byte>, source: seq<Byte>, maxOutput: int) returns (verified: bool)
    requires w.Faithful()
    ensures verified <==> exists h, f :: Accepted(w, container, maxOutput, source, h, f)
  {
    hide Accepted, FooterOf, Pow, Layout.Exact, Layout.Valid, Layout.Capacity, EXACT_PROVENANCE;
    var original := new ByteStream(source);
    var sink := new Sink(original);
    var read := ReadExact(w, container, sink, maxOutput);
    if read.ValueError? {
      assert sink.Accepts(source);
      return false;
    }
    ghost var h', f' :| Accepted(w, container, maxOutput, sink.written, h', f');
    var extra := original.Read(1);
    if extra != [] {
      forall h, f | Accepted(w, container, maxOutput, source, h, f)
        ensures false
      {
        AcceptedUnique(w, container, maxOutput, maxOutput, source, h, f, sink.written, h', f');
      }
      return false;
    }
    assert sink.written == source;
    verified := true;
  }

  /** Every container the encoder completes is accepted, under any output limit that admits the source. */
  lemma EncodedIsAccepted(w: World, source: seq<Byte>, before: Stat, after: Stat, name: string, layout: Layout,
                          route: Option<Route>, maxOutput: int)
    requires w.Faithful() && Encodable(w, source, before, after, name, layout, route) && |source| <= maxOutput
    ensures var header := w.printHeader(HeaderFor(name, layout, |source|, route));
            var footer := w.printFooter(FooterOf(w, source, layout));
            Accepted(w, Sealed(w, header, source, layout, footer), maxOutput, source, header, footer)
  {
    hide Sealed, FooterOf;
    var header := HeaderFor(name, layout, |source|, route);
    assert w.parseHeader(w.printHeader(header)) == Some(header);
  }

  /** The container round trip. */
  method RoundTrip(w: World, source: seq<Byte>, before: Stat, after: Stat, name: string, layout: Layout,
                   route: Option<Route>, maxOutput: int)
    returns (r: Result<seq<Byte>>)
    requires w.Faithful() && Encodable(w, source, before, after, name, layout, route) && |source| <= maxOutput
    ensures r == Ok(source)
  {
    hide Accepted, Encodable, Sealed;
    var encoded := EncodeExact(w, source, before, after, name, layout, route);
    EncodedIsAccepted(w, source, before, after, name, layout, route, maxOutput);
    r := DecodeExact(w, encoded.value, maxOutput);
  }

  /**
   The round trip with everything the container declares. Any route that is valid is carried through;
   only a FILE route must name the digest of the source.
   */
  method EncodeThenRead(w: World, source: seq<Byte>, stat: Stat, name: string, layout: Layout, route: Option<Route>,
                        maxOutput: int)
    returns (back: seq<Byte>, header: Header, footer: Footer)
    requires w.Faithful() && stat.size == |source| < Pow(2, 63) && |source| <= maxOutput && name != ""
    requires 1 <= layout.microBytes <= 1024 && 1 <= layout.microsPerBlock <= 256 && 1 <= layout.blocksPerPage <= 256
    requires layout.microBytes * layout.microsPerBlock * layout.blocksPerPage <= 1048576
    requires route.Some? ==> w.routeValid(route.value)
    requires route.Some? && route.value.entryClass == "FILE" ==> route.value.sha256 == w.hash(source)
    requires |w.printHeader(Header("SMTYX-EXACT", 2, "cluster-ternary-msb-v1", "LARGE", layout, name, |source|, route,
                                   EXACT_PROVENANCE))| <= MAX_RECORD
    requires layout.Valid() && |w.printFooter(FooterOf(w, source, layout))| <= MAX_RECORD
    ensures back == source
    ensures header.name == name && header.size == |source| && header.layout == layout && header.route == route
    ensures footer.sha256 == w.hash(source) && footer.fingerprint.0 == |source| && footer.root == SigOf(source)
  {
    hide Accepted, Encodable, Sealed, FooterOf, HeaderFor, Pow, Layout.Exact, Layout.Capacity, SigOf, World.Faithful;
    ExactMeans(layout);
    EncodableMeans(w, source, stat, stat, name, layout, route);
    var encoded := EncodeExact(w, source, stat, stat, name, layout, route);
    EncodedIsAccepted(w, source, stat, stat, name, layout, route, maxOutput);
    var sink := new Sink(null);
    var read := ReadExact(w, encoded.value, sink, maxOutput);
    ghost var h := w.printHeader(HeaderFor(name, layout, |source|, route));
    ghost var f := w.printFooter(FooterOf(w, source, layout));
    assert Accepted(w, encoded.value, maxOutput, source, h, f);
    back, header, footer := sink.written, read.value.0, read.value.1;
    ReportIs(w, encoded.value, maxOutput, source, name, layout, route, back, header, footer);
  }

  /** A report on an encoded container is the one of its source. */
  lemma ReportIs(w: World, container: seq<Byte>, max: int, source: seq<Byte>, name: string, layout: Layout,
                 route: Option<Route>, back: seq<Byte>, header: Header, footer: Footer)
    requires w.Faithful() && layout.Valid()
    requires Accepted(w, container, max, source, w.printHeader(HeaderFor(name, layout, |source|, route)),
                      w.printFooter(FooterOf(w, source, layout)))
    requires Reported(w, container, max, back, header, footer)
    ensures back == source
    ensures header.name == name && header.size == |source| && header.layout == layout && header.route == route
    ensures footer.sha256 == w.hash(source) && footer.fingerprint.0 == |source| && footer.root == SigOf(source)
  {
    hide Accepted, Sealed, SigOf, CeilDiv, Weight, Histogram;
    var h := w.printHeader(HeaderFor(name, layout, |source|, route));
    var h', f' :| Accepted(w, container, max, back, h', f') && w.parseHeader(h') == Some(header);
    AcceptedUnique(w, container, max, max, source, h, w.printFooter(FooterOf(w, source, layout)), back, h', f');
    assert w.parseHeader(w.printHeader(HeaderFor(name, layout, |source|, route))) ==
           Some(HeaderFor(name, layout, |source|, route));
  }
}
