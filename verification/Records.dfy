/** The stateful parts of exact.py: record writer, record reader, statistics and sinks. */
module Records {
  import opened Wrappers
  import opened Moments
  import opened Clusters
  import opened Streams
  import opened Container

  /** exact.RecordWriter. The running SHA-256 object is represented by the bytes fed to it. */
  class RecordWriter {
    var stream: seq<Byte>
    var digest: seq<Byte>

    ghost predicate Synced()
      reads this
    {
      digest == stream
    }

    constructor ()
      ensures Synced() && stream == MAGIC
    {
      stream := MAGIC;
      digest := MAGIC;
    }

    method Write(data: seq<Byte>)
      requires Synced()
      modifies this
      ensures Synced() && stream == old(stream) + data
    {
      stream := stream + data;
      digest := digest + data;
    }

    method Record(kind: Byte, payload: seq<Byte>) returns (r: Result<()>)
      requires Synced()
      modifies this
      ensures r.Ok? <==> |payload| <= 65536
      ensures Synced() && stream == if r.Ok? then old(stream) + Frame(kind, payload) else old(stream)
    {
      if |payload| > MAX_RECORD {
        return ValueError;
      }
      Write([kind] + Le32(|payload|) + payload);
      r := Ok(());
    }

    /** Only the digest of what precedes it is written, and the trailer itself is not digested. */
    method Finish(w: World)
      requires Synced()
      modifies this
      ensures stream == old(stream) + (END_MARK + w.hash(old(stream)))
    {
      stream := stream + (END_MARK + w.hash(digest));
    }
  }

  lemma NoFrame(kind: Byte, all: seq<Byte>)
    ensures !(|all| >= 5 && all[0] == kind && FromLe32(all[1..5]) <= |all| - 5) ==>
              forall p | |p| <= MAX_RECORD :: !(Frame(kind, p) <= all)
    ensures |all| >= 5 && FromLe32(all[1..5]) > MAX_RECORD ==>
              forall p | |p| <= MAX_RECORD :: !(Frame(kind, p) <= all)
  {
    forall p | |p| <= MAX_RECORD && Frame(kind, p) <= all
      ensures |all| >= 5 + |p| && all[0] == kind && FromLe32(all[1..5]) == |p|
    {
      hide Le32, FromLe32;
      assert Frame(kind, p) == all[..5 + |p|];
      assert all[1..5] == Frame(kind, p)[1..5] == Le32(|p|);
      FromOfLe32(|p|);
    }
  }

  lemma FrameIs(kind: Byte, payload: seq<Byte>, length: seq<Byte>)
    requires |length| == 4 && FromLe32(length) == |payload|
    ensures [kind] + length + payload == Frame(kind, payload)
  {
    Le32OfFrom(length);
  }

  lemma PrefixBehind(all: seq<Byte>, written: seq<Byte>, rest: seq<Byte>, data: seq<Byte>)
    requires all == written + rest
    ensures written + data <= all <==> data <= rest
  {
    if written + data <= all {
      assert all[..|written + data|] == written + data;
      assert rest[..|data|] == all[|written|..|written + data|];
    }
    if data <= rest {
      assert rest == data + rest[|data|..];
      assert all == (written + data) + rest[|data|..];
    }
  }

  /** exact.RecordReader, over a stream of its own. */
  class RecordReader {
    const stream: ByteStream
    var digest: seq<Byte>

    ghost predicate Valid()
      reads this, stream
    {
      stream.Valid() && digest + stream.Rest() == stream.data
    }

    function Rest(): seq<Byte>
      requires stream.Valid()
      reads this, stream
    {
      stream.Rest()
    }

    constructor (s: ByteStream)
      requires s.Valid() && s.Rest() == s.data
      ensures Valid() && stream == s && digest == []
    {
      stream := s;
      digest := [];
    }

    method Read(size: nat) returns (r: Result<seq<Byte>>)
      requires Valid()
      modifies this, stream
      ensures r.Ok? <==> size <= |old(Rest())|
      ensures r.Ok? ==> Valid() && |r.value| == size
                        && old(Rest()) == r.value + Rest() && digest == old(digest) + r.value
    {
      var data := stream.Read(size);
      if |data| != size {
        return ValueError;
      }
      digest := digest + data;
      r := Ok(data);
    }

    /** The part of the source's constructor that reads. */
    method ReadMagic() returns (r: Result<()>)
      requires Valid()
      modifies this, stream
      ensures r.Ok? <==> MAGIC <= old(Rest())
      ensures r.Ok? ==> Valid() && old(Rest()) == MAGIC + Rest() && digest == old(digest) + MAGIC
    {
      ghost var before := Rest();
      var data := Read(|MAGIC|);
      if data.ValueError? || data.value != MAGIC {
        if data.Ok? {
          assert before[..|MAGIC|] == data.value;
        }
        return ValueError;
      }
      r := Ok(());
    }

    /** Succeeds exactly when a record of the expected kind is next, and consumes exactly it. */
    method Record(expected: Byte) returns (r: Result<seq<Byte>>)
      requires Valid()
      modifies this, stream
      ensures r.Ok? ==> Valid() && |r.value| <= MAX_RECORD
                        && old(Rest()) == Frame(expected, r.value) + Rest()
                        && digest == old(digest) + Frame(expected, r.value)
      ensures r.ValueError? ==> forall p | |p| <= MAX_RECORD :: !(Frame(expected, p) <= old(Rest()))
    {
      hide Le32, FromLe32, Frame;
      ghost var all := Rest();
      NoFrame(expected, all);
      var kind := Read(1);
      if kind.ValueError? || kind.value != [expected] {
        assert |all| < 1 || all[0] != expected by {
          if kind.Ok? {
            assert all[0] == kind.value[0];
            assert [kind.value[0]] == kind.value;
          }
        }
        return ValueError;
      }
      ghost var afterKind := Rest();
      assert all == [expected] + afterKind;
      var length := Read(4);
      if length.ValueError? {
        return ValueError;
      }
      ghost var afterLength := Rest();
      assert length.value == all[1..5];
      assert afterLength == all[5..];
      var size := FromLe32(length.value);
      if size > MAX_RECORD {
        return ValueError;
      }
      r := Read(size);
      if r.Ok? {
        FrameIs(expected, r.value, length.value);
        assert all == ([expected] + length.value + r.value) + Rest();
      }
    }

    /** The trailer must be exactly what is left. */
    method Finish(w: World) returns (r: Result<()>)
      requires Valid() && w.Faithful()
      modifies this, stream
      ensures r.Ok? <==> old(Rest()) == END_MARK + w.hash(old(digest))
    {
      ghost var all := Rest();
      var trailer := stream.Read(|END_MARK| + 32);
      if trailer != END_MARK + w.hash(digest) {
        assert all == END_MARK + w.hash(digest) ==> trailer == all;
        return ValueError;
      }
      var more := stream.Read(1);
      if more != [] {
        assert |all| > |trailer|;
        return ValueError;
      }
      r := Ok(());
    }
  }

  /** exact.Statistics. */
  class Statistics {
    var digest: seq<Byte>
    var histogram: seq<nat>
    var counts: Counts
    var root: Sig

    /** The histogram belongs to the bytes digested so far. */
    ghost predicate Consistent()
      reads this
    {
      histogram == Histogram(digest)
    }

    constructor ()
      ensures Consistent() && digest == [] && counts == Counts(0, 0, 0, 1) && root == ZERO_SIG
    {
      digest := [];
      histogram := seq(16, _ => 0);
      counts := Counts(0, 0, 0, 1);
      root := ZERO_SIG;
    }

    method Update(data: seq<Byte>)
      requires Consistent()
      modifies this
      ensures Consistent() && digest == old(digest) + data
      ensures counts == old(counts).(micro := old(counts).micro + 1) && root == old(root)
    {
      histogram := AddToHistogram(histogram, digest, data);
      digest := digest + data;
      counts := counts.(micro := counts.micro + 1);
    }

    /** exact.Statistics.footer: the fingerprint is summed from the histogram, not from the bytes. */
    method MakeFooter(w: World) returns (f: Footer)
      requires Consistent()
      ensures f == Footer(w.hash(digest), (|digest|, Weight(digest)), Histogram(digest), counts, root)
    {
      FingerprintOfHistogram(digest);
      f := Footer(w.hash(digest), (Sum(histogram), WeightedSum(histogram)), histogram, counts, root);
    }
  }

  /** Where read_exact writes: an output file, or (with an original) exact.CompareSink. */
  class Sink {
    const original: ByteStream?
    var written: seq<Byte>

    ghost predicate Valid()
      reads this, original
    {
      original != null ==> original.Valid() && original.data == written + original.Rest()
    }

    /** The strings this sink takes without raising. */
    ghost predicate Accepts(data: seq<Byte>)
    {
      original != null ==> data <= original.data
    }

    constructor (source: ByteStream?)
      requires source != null ==> source.Valid() && source.Rest() == source.data
      ensures Valid() && original == source && written == []
    {
      original := source;
      written := [];
    }

    method Write(data: seq<Byte>) returns (r: Result<()>)
      requires Valid()
      modifies this, original
      ensures r.Ok? <==> Accepts(old(written) + data)
      ensures r.Ok? ==> Valid() && written == old(written) + data
    {
      if original != null {
        ghost var rest := original.Rest();
        ghost var all := original.data;
        var chunk := original.Read(|data|);
        PrefixBehind(all, written, rest, data);
        if chunk != data {
          return ValueError;
        }
        assert all == (written + data) + original.Rest();
      }
      written := written + data;
      r := Ok(());
    }
  }
}
