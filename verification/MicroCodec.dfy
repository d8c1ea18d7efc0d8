/** One MICRO chunk: packed cluster masks and a mixed-radix rank, inverted by division from the end. */
module MicroCodec {
  import opened Wrappers
  import opened Arithmetic
  import opened Moments
  import opened MomentBounds
  import opened Clusters
  import opened Varint

  // ---- Masks ----

  function States(data: seq<Byte>): (r: seq<State>)
    ensures |r| == |data|
  {
    seq(|data|, i requires 0 <= i < |data| => StateOf(data[i]))
  }

  /** Two masks per byte, the earlier one in the high nibble, zero where there is none. */
  function MaskByte(states: seq<State>, i: nat): Byte
  {
    16 * Nibble(states, 2 * i) + Nibble(states, 2 * i + 1)
  }

  function Nibble(states: seq<State>, position: nat): (n: int)
    ensures 0 <= n < 16
  {
    if position < |states| then states[position] else 0
  }

  function Masks(states: seq<State>): (r: seq<Byte>)
    ensures |r| == (|states| + 1) / 2
  {
    seq((|states| + 1) / 2, i requires 0 <= i => MaskByte(states, i))
  }

  /** Byte `i` of the masks holds the states of positions 2i (high nibble) and 2i + 1 (low nibble). */
  lemma MasksMean(states: seq<State>, i: nat)
    requires 2 * i < |states|
    ensures |Masks(states)| == (|states| + 1) / 2 && i < |Masks(states)|
    ensures Masks(states)[i] / 16 == states[2 * i]
    ensures Masks(states)[i] % 16 == if 2 * i + 1 < |states| then states[2 * i + 1] else 0
  {
  }

  /** The nibble a reader extracts for one position. */
  function MaskAt(packed: seq<Byte>, position: nat): State
    requires position / 2 < |packed|
  {
    if position % 2 == 0 then packed[position / 2] / 16 else packed[position / 2] % 16
  }

  function Unpack(packed: seq<Byte>, n: nat): (r: seq<State>)
    requires |packed| == (n + 1) / 2
    ensures |r| == n
  {
    seq(n, i requires 0 <= i < n => MaskAt(packed, i))
  }

  lemma MaskAtMasks(states: seq<State>, position: nat)
    requires position < |states|
    ensures MaskAt(Masks(states), position) == states[position]
  {
    var i := position / 2;
    var b := MaskByte(states, i);
    assert Masks(states)[i] == b;
    DivModUnique(Nibble(states, 2 * i), 16, Nibble(states, 2 * i + 1));
  }

  lemma UnpackMasks(states: seq<State>)
    ensures Unpack(Masks(states), |states|) == states
    ensures |states| % 2 == 1 ==> Masks(states)[|Masks(states)| - 1] % 16 == 0
  {
    hide MaskByte, MaskAt;
    forall i | 0 <= i < |states|
      ensures Unpack(Masks(states), |states|)[i] == states[i]
    {
      MaskAtMasks(states, i);
    }
    if |states| % 2 == 1 {
      PaddingIsZero(states);
    }
  }

  lemma PaddingIsZero(states: seq<State>)
    requires |states| % 2 == 1
    ensures MaskByte(states, |states| / 2) % 16 == 0
  {
  }

  lemma MasksUnpack(packed: seq<Byte>, n: nat)
    requires |packed| == (n + 1) / 2
    requires n % 2 == 1 ==> packed[|packed| - 1] % 16 == 0
    ensures Masks(Unpack(packed, n)) == packed
  {
    var states := Unpack(packed, n);
    forall i | 0 <= i < |packed|
      ensures Masks(states)[i] == packed[i]
    {
      assert MaskAt(packed, 2 * i) == packed[i] / 16;
      if 2 * i + 1 < n {
        assert MaskAt(packed, 2 * i + 1) == packed[i] % 16;
      }
    }
  }

  // ---- Rank ----

  /** The number of nonzero pairs behind a list of masks. */
  function Active(states: seq<State>): nat
  {
    if states == [] then 0 else Active(states[..|states| - 1]) + PopCount(states[|states| - 1])
  }

  lemma {:induction false} ActiveBound(states: seq<State>)
    ensures Active(states) <= 4 * |states|
  {
    if states != [] {
      ActiveBound(states[..|states| - 1]);
    }
  }

  /** All discriminators of the data, in byte order and then pair order. */
  function DataTrits(data: seq<Byte>): seq<int>
  {
    if data == [] then [] else DataTrits(data[..|data| - 1]) + Trits(data[|data| - 1])
  }

  /** The discriminator of a chunk: the flat base-3 numeral of all its trits. */
  function Rank(data: seq<Byte>): int
  {
    Ternary(DataTrits(data))
  }

  lemma {:induction false} DataTritsInRange(data: seq<Byte>)
    ensures |DataTrits(data)| == Active(States(data))
    ensures forall i :: 0 <= i < |DataTrits(data)| ==> 0 <= DataTrits(data)[i] < 3
  {
    if data != [] {
      var front := data[..|data| - 1];
      DataTritsInRange(front);
      assert States(data)[..|data| - 1] == States(front);
      RankBound(data[|data| - 1]);
    }
  }

  /** The bytewise loop multiplies by the radix of the byte and adds its rank. */
  lemma RankSnoc(data: seq<Byte>, b: Byte)
    ensures Rank(data + [b]) == Rank(data) * Pow(3, PopCount(StateOf(b))) + RankOf(b)
  {
    hide StateOf, RankOf, Trits, PopCount;
    assert (data + [b])[..|data|] == data;
    TernaryConcat(DataTrits(data), Trits(b));
    RankBound(b);
    assert RankOf(b) == Ternary(Trits(b)) by { RankIsTernary(b); }
  }

  lemma RankIsTernary(b: Byte)
    ensures RankOf(b) == Ternary(Trits(b))
  {
  }

  lemma RankInRange(data: seq<Byte>)
    ensures 0 <= Rank(data) < Pow(3, Active(States(data)))
  {
    DataTritsInRange(data);
    TernaryBound(DataTrits(data));
  }

  /** Divide from the last position to the first, taking the byte of that rank from INVERSE. */
  function Unrank(states: seq<State>, rank: nat): (r: seq<Byte>)
    ensures |r| == |states|
  {
    if states == [] then []
    else
      var last := states[|states| - 1];
      PowPositive(3, PopCount(last));
      var (quotient, byteRank) := DivMod(rank, Pow(3, PopCount(last)));
      Unrank(states[..|states| - 1], quotient) + [ByteOf(last, byteRank)]
  }

  /** What is left of the rank after all divisions. */
  function Leftover(states: seq<State>, rank: nat): nat
  {
    if states == [] then rank
    else
      var last := states[|states| - 1];
      PowPositive(3, PopCount(last));
      Leftover(states[..|states| - 1], DivMod(rank, Pow(3, PopCount(last))).0)
  }

  /** Unranking recovers the data from its masks and rank, and divides the rank down to zero. */
  lemma {:induction false} UnrankOfRank(data: seq<Byte>)
    ensures Rank(data) >= 0
    ensures Unrank(States(data), Rank(data)) == data
    ensures Leftover(States(data), Rank(data)) == 0
  {
    hide StateOf, RankOf, Trits, PopCount, ByteOf, Rank, DivMod;
    RankInRange(data);
    if data == [] {
      assert Rank(data) == 0 by { RankOfEmpty(); }
    } else {
      var front := data[..|data| - 1];
      var b := data[|data| - 1];
      assert data == front + [b];
      UnrankOfRank(front);
      RankSnoc(front, b);
      RankBound(b);
      DivModIs(Rank(front), Pow(3, PopCount(StateOf(b))), RankOf(b));
      ByteOfStateAndRank(b);
      assert States(data)[..|data| - 1] == States(front);
    }
  }

  lemma RankOfEmpty()
    ensures Rank([]) == 0
  {
  }

  /** Every in-range rank is the rank of exactly the bytes unranking produces. */
  lemma {:induction false} RankOfUnrank(states: seq<State>, rank: nat)
    requires rank < Pow(3, Active(states))
    ensures States(Unrank(states, rank)) == states
    ensures Rank(Unrank(states, rank)) == rank
  {
    hide StateOf, RankOf, Trits, PopCount, ByteOf, Rank, DivMod;
    if states == [] {
      RankOfEmpty();
    } else {
      var front := states[..|states| - 1];
      var last := states[|states| - 1];
      var radix := Pow(3, PopCount(last));
      PowPositive(3, PopCount(last));
      var (q, m) := DivMod(rank, radix);
      PowAdd(3, Active(front), PopCount(last));
      QuotientBelow(q, m, radix, Pow(3, Active(front)));
      RankOfUnrank(front, q);
      StateAndRankOfByte(last, m);
      RankSnoc(Unrank(front, q), ByteOf(last, m));
      StatesSnoc(Unrank(front, q), ByteOf(last, m));
    }
  }

  lemma StatesSnoc(data: seq<Byte>, b: Byte)
    ensures States(data + [b]) == States(data) + [StateOf(b)]
  {
  }

  lemma QuotientBelow(q: nat, r: nat, m: nat, k: nat)
    requires q * m + r < k * m
    ensures q < k
  {
    if k <= q {
      MulMonotone(k, q, m, m);
    }
  }

  // ---- Big-endian bytes of fixed width ----

  /** int.to_bytes(width, "big"). */
  function BigEndian(v: nat, width: nat): (r: seq<Byte>)
    ensures |r| == width
  {
    if width == 0 then [] else BigEndian(v / 256, width - 1) + [v % 256]
  }

  /** int.from_bytes(s, "big"). */
  function FromBigEndian(s: seq<Byte>): nat
  {
    if s == [] then 0 else 256 * FromBigEndian(s[..|s| - 1]) + s[|s| - 1]
  }

  /** The most significant byte comes first. */
  lemma {:induction false} BigEndianAt(v: nat, width: nat, i: nat)
    requires i < width
    ensures Pow(256, width - 1 - i) > 0 && BigEndian(v, width)[i] == v / Pow(256, width - 1 - i) % 256
  {
    PowPositive(256, width - 1 - i);
    if i < width - 1 {
      BigEndianAt(v / 256, width - 1, i);
      DivDiv(v, 256, Pow(256, width - 2 - i));
      assert Pow(256, width - 1 - i) == 256 * Pow(256, width - 2 - i);
    } else {
      assert Pow(256, 0) == 1;
    }
  }

  lemma {:induction false} FromOfBigEndian(v: nat, width: nat)
    requires v < Pow(256, width)
    ensures FromBigEndian(BigEndian(v, width)) == v
  {
    if width != 0 {
      FromOfBigEndian(v / 256, width - 1);
    }
  }

  lemma {:induction false} BigEndianOfFrom(s: seq<Byte>)
    ensures FromBigEndian(s) < Pow(256, |s|)
    ensures BigEndian(FromBigEndian(s), |s|) == s
  {
    if s != [] {
      BigEndianOfFrom(s[..|s| - 1]);
    }
  }

  /** The width reserved for a rank over `active` trits. */
  function RankWidth(active: nat): nat
  {
    PowPositive(3, active);
    ByteWidth(Pow(3, active) - 1)
  }

  /** It is the least width that holds every rank, and never more than a byte per four trits. */
  lemma RankWidthIsLeast(active: nat, w: nat)
    ensures RankWidth(active) <= w <==> Pow(3, active) <= Pow(256, w)
    ensures active <= 4 * w ==> RankWidth(active) <= w
  {
    PowPositive(3, active);
    ByteWidthIsLeast(Pow(3, active) - 1, w);
    if active <= 4 * w {
      assert Pow(4, 4) == 256;
      PowBaseMonotone(3, 4, active);
      PowMonotone(4, active, 4 * w);
      PowPow(4, 4, w);
    }
  }

  // ---- The payload ----

  /** The bytes of an M record, as the format defines them. */
  function MicroPayload(data: seq<Byte>): seq<Byte>
  {
    SigOfWithinBounds(data);
    RankInRange(data);
    SigBytes(SigOf(data)) + Masks(States(data)) + BigEndian(Rank(data), RankWidth(Active(States(data))))
  }

  lemma SigOfFits(data: seq<Byte>)
    requires |data| < Pow(2, 63)
    ensures SigFits(SigOf(data)) && Natural(SigOf(data))
  {
    SigOfWithinBounds(data);
    BoundedMagnitude(SigOf(data));
    PowMonotone(2, 260, 448);
  }

  /** decode_micro as a function of the payload and the length the hierarchy expects. */
  function DecodePayload(payload: seq<Byte>, n: int): (r: Result<seq<Byte>>)
    ensures r.Ok? ==> |r.value| == n
  {
    if !(1 <= n <= 1024) then ValueError
    else
      match ReadLebs(payload, 5)
      case ValueError => ValueError
      case Ok((values, rest)) =>
        var k := (n + 1) / 2;
        if values[0] != n || |rest| < k then ValueError
        else
          DecodeRest(values, rest[..k], rest[k..], n)
  }

  /** The part of decode_micro after the masks have been cut off. */
  function DecodeRest(values: seq<int>, packed: seq<Byte>, rankBytes: seq<Byte>, n: nat): (r: Result<seq<Byte>>)
    requires n >= 1 && |packed| == (n + 1) / 2
    ensures r.Ok? ==> |r.value| == n
  {
    if n % 2 == 1 && packed[|packed| - 1] % 16 != 0 then ValueError
    else
      var states := Unpack(packed, n);
      var rank := FromBigEndian(rankBytes);
      if |rankBytes| != RankWidth(Active(states)) || rank >= Pow(3, Active(states)) then ValueError
      else
        var data := Unrank(states, rank);
        if Values(SigOf(data)) != values then ValueError else Ok(data)
  }

  lemma RankFitsWidth(active: nat, rank: nat)
    requires rank < Pow(3, active)
    ensures rank < Pow(256, RankWidth(active))
  {
    RankWidthIsLeast(active, RankWidth(active));
  }

  lemma DecodeRestIff(values: seq<int>, packed: seq<Byte>, rankBytes: seq<Byte>, n: nat, data: seq<Byte>)
    requires n >= 1 && |packed| == (n + 1) / 2
    ensures Rank(data) >= 0
    ensures DecodeRest(values, packed, rankBytes, n) == Ok(data) <==>
            && |data| == n && values == Values(SigOf(data)) && packed == Masks(States(data))
            && rankBytes == BigEndian(Rank(data), RankWidth(Active(States(data))))
  {
    hide Unpack, Masks, FromBigEndian, BigEndian, RankWidth, Active, Rank, Unrank, States, SigOf, Values;
    RankInRange(data);
    if DecodeRest(values, packed, rankBytes, n) == Ok(data) {
      var states := Unpack(packed, n);
      MasksUnpack(packed, n);
      RankOfUnrank(states, FromBigEndian(rankBytes));
      BigEndianOfFrom(rankBytes);
    }
    if |data| == n && values == Values(SigOf(data)) && packed == Masks(States(data))
       && rankBytes == BigEndian(Rank(data), RankWidth(Active(States(data)))) {
      UnpackMasks(States(data));
      RankFitsWidth(Active(States(data)), Rank(data));
      FromOfBigEndian(Rank(data), RankWidth(Active(States(data))));
      UnrankOfRank(data);
    }
  }

  /** The two parts of a payload behind the signature. */
  lemma PayloadParts(data: seq<Byte>)
    ensures Natural(SigOf(data)) && Rank(data) >= 0
    ensures MicroPayload(data) ==
            SigBytes(SigOf(data)) + (Masks(States(data)) + BigEndian(Rank(data), RankWidth(Active(States(data)))))
  {
    hide SigBytes, SigOf, Masks, States, BigEndian, Rank, RankWidth, Active;
    NaturalSig(data);
    RankInRange(data);
  }

  lemma NaturalSig(data: seq<Byte>)
    ensures Natural(SigOf(data))
  {
    SigOfWithinBounds(data);
  }

  lemma AcceptedIsPayload(payload: seq<Byte>, n: int, data: seq<Byte>)
    requires DecodePayload(payload, n) == Ok(data)
    ensures 1 <= n <= 1024 && |data| == n && payload == MicroPayload(data)
  {
    hide SigFits, SigBytes, ReadLebs, DecodeRest, MicroPayload, Rank, RankWidth, BigEndian, Active, Masks, SigOf;
    PayloadParts(data);
    var k := (n + 1) / 2;
    var (values, rest) := ReadLebs(payload, 5).value;
    DecodeRestIff(values, rest[..k], rest[k..], n, data);
    assert rest == rest[..k] + rest[k..];
    ReadSigIff(payload, SigOf(data), rest);
  }

  lemma PayloadIsAccepted(n: int, data: seq<Byte>)
    requires 1 <= n <= 1024 && |data| == n
    ensures DecodePayload(MicroPayload(data), n) == Ok(data)
  {
    hide SigFits, SigBytes, ReadLebs, DecodeRest, MicroPayload, Rank, RankWidth, BigEndian, Active;
    PayloadParts(data);
    var k := (n + 1) / 2;
    var masks := Masks(States(data));
    var rankBytes := BigEndian(Rank(data), RankWidth(Active(States(data))));
    var rest := masks + rankBytes;
    SmallSize(n);
    SigOfFits(data);
    ReadSigIff(MicroPayload(data), SigOf(data), rest);
    assert rest[..k] == masks && rest[k..] == rankBytes;
    DecodeRestIff(Values(SigOf(data)), masks, rankBytes, n, data);
  }

  /**
   The MICRO codec is a bijection: a payload is accepted for length `n` exactly when it is the
   payload of some `n` bytes (1 to 1024 of them), and then decoding returns those bytes.
   */
  lemma DecodeIff(payload: seq<Byte>, n: int, data: seq<Byte>)
    ensures DecodePayload(payload, n) == Ok(data) <==>
            1 <= n <= 1024 && |data| == n && payload == MicroPayload(data)
  {
    hide DecodePayload, MicroPayload;
    if DecodePayload(payload, n) == Ok(data) {
      AcceptedIsPayload(payload, n, data);
    }
    if 1 <= n <= 1024 && |data| == n {
      PayloadIsAccepted(n, data);
    }
  }

  lemma SmallSize(n: nat)
    requires n <= 1048576
    ensures n < Pow(2, 63)
  {
    PowAdd(2, 11, 10);
    PowMonotone(2, 21, 63);
  }

  /** No two chunks share a payload. */
  lemma MicroPayloadInjective(a: seq<Byte>, b: seq<Byte>)
    requires 1 <= |a| <= 1024 && |a| == |b| && MicroPayload(a) == MicroPayload(b)
    ensures a == b
  {
    DecodeIff(MicroPayload(a), |a|, a);
    DecodeIff(MicroPayload(b), |b|, b);
  }

  /** A payload is far below the record limit. */
  lemma MicroPayloadLength(data: seq<Byte>)
    requires 1 <= |data| <= 1024
    ensures |MicroPayload(data)| <= 1856
  {
    hide SigFits, SigBytes, RankWidth, SigOf, Rank, BigEndian;
    SmallSize(|data|);
    SigOfFits(data);
    SigBytesLength(SigOf(data));
    ActiveBound(States(data));
    RankWidthIsLeast(Active(States(data)), 1024);
    RankInRange(data);
    SigOfWithinBounds(data);
  }
}
