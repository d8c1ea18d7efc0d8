/** encode_micro and decode_micro as the source runs them, proved against the payload definition. */
module MicroMethods {
  import opened Wrappers
  import opened Arithmetic
  import opened Moments
  import opened Clusters
  import opened Streams
  import opened Varint
  import opened MicroCodec

  lemma ActiveSnoc(states: seq<State>, s: State)
    ensures Active(states + [s]) == Active(states) + PopCount(s)
  {
    assert (states + [s])[..|states|] == states;
  }

  /** Adding a state's nibble in place turns the masks of a prefix into those of the longer prefix. */
  lemma MaskSnoc(states: seq<State>, s: State, i: nat)
    ensures i != |states| / 2 ==> MaskByte(states + [s], i) == MaskByte(states, i)
    ensures i == |states| / 2 ==>
              MaskByte(states + [s], i) == MaskByte(states, i) + (if |states| % 2 == 0 then 16 * s else s)
  {
  }

  /** Behind the trits of earlier bytes, those of one more: multiply by the byte's radix and add its rank. */
  function WithTrits(rank: nat, radix: nat, byteRank: nat): nat
  {
    MulMonotone(0, rank, 0, radix);
    rank * radix + byteRank
  }

  lemma RankStep(data: seq<Byte>, b: Byte)
    ensures RankOf(b) >= 0 && Rank(data) >= 0 && Pow(3, PopCount(StateOf(b))) >= 0
    ensures Rank(data + [b]) == WithTrits(Rank(data), Pow(3, PopCount(StateOf(b))), RankOf(b))
  {
    hide StateOf, RankOf, PopCount, Rank;
    RankBound(b);
    RankInRange(data);
    RankSnoc(data, b);
    PowPositive(3, PopCount(StateOf(b)));
  }

  /** exact_math.encode_micro: one pass fills the masks in place and accumulates the rank. */
  method EncodeMicro(data: seq<Byte>) returns (r: Result<(seq<Byte>, Sig)>)
    ensures r.Ok? <==> 1 <= |data| <= 1024
    ensures r.Ok? ==> r.value == (MicroPayload(data), SigOf(data))
  {
    hide StateOf, RankOf, PopCount, MaskByte, Rank, SigOf, SigFits, SigBytes, RankWidth, BigEndian, MicroPayload,
      WithTrits, Active, Pow, CLUSTER_TABLE, BYTE_RANKS, INVERSE, POWERS_OF_THREE;
    if !(1 <= |data| <= 1024) {
      return ValueError;
    }
    var packedMasks := new Byte[(|data| + 1) / 2](_ => 0);
    var rank: nat := 0;
    var activeCount: nat := 0;
    var position := 0;
    NoMasks(packedMasks.Length);
    RankOfEmpty();
    while position < |data|
      invariant 0 <= position <= |data|
      invariant forall i :: 0 <= i < packedMasks.Length ==> packedMasks[i] == MaskByte(States(data[..position]), i)
      invariant rank == Rank(data[..position])
      invariant activeCount == Active(States(data[..position]))
    {
      var value := data[position];
      ghost var before := data[..position];
      assert data[..position + 1] == before + [value];
      StatesSnoc(before, value);
      TableEntries(value);
      var state := CLUSTER_TABLE[value] - 1;
      forall i: nat | i < packedMasks.Length
        ensures i != position / 2 ==> MaskByte(States(before + [value]), i) == MaskByte(States(before), i)
        ensures i == position / 2 ==> MaskByte(States(before + [value]), i) == MaskByte(States(before), i)
                                      + (if position % 2 == 0 then 16 * state else state)
      {
        MaskSnoc(States(before), state, i);
      }
      // The nibble is still zero, so or-ing it in is adding it.
      packedMasks[position / 2] := packedMasks[position / 2] + (if position % 2 == 0 then 16 * state else state);
      var active := PopCount(state);
      RankStep(before, value);
      PowersOfThree(active);
      rank := WithTrits(rank, POWERS_OF_THREE[active], BYTE_RANKS[value]);
      ActiveSnoc(States(before), state);
      activeCount := activeCount + active;
      position := position + 1;
    }
    assert data[..position] == data;
    var rankWidth := RankWidth(activeCount);
    var mathState := Signature(data);
    SmallSize(|data|);
    SigOfFits(data);
    var encoded := EncodeSignature(mathState);
    PayloadParts(data);
    assert packedMasks[..] == Masks(States(data));
    r := Ok((encoded.value + (packedMasks[..] + BigEndian(rank, rankWidth)), mathState));
  }

  lemma NoMasks(n: nat)
    ensures States([]) == []
    ensures forall i: nat :: i < n ==> MaskByte(States([]), i) == 0
    ensures Active(States([])) == 0
  {
  }

  lemma PayloadUnreadable(payload: seq<Byte>, n: int)
    requires !(1 <= n <= 1024) || ReadLebs(payload, 5).ValueError?
    ensures DecodePayload(payload, n).ValueError?
  {
  }

  /** What decode_micro has left to do behind the five integers. */
  lemma PayloadBehind(payload: seq<Byte>, n: nat, m: Sig, packed: seq<Byte>, rest: seq<Byte>)
    requires 1 <= n <= 1024 && ReadLebs(payload, 5) == Ok((Values(m), packed + rest))
    ensures m.n != n ==> DecodePayload(payload, n).ValueError?
    ensures |packed| < (n + 1) / 2 && rest == [] ==> DecodePayload(payload, n).ValueError?
    ensures m.n == n && |packed| == (n + 1) / 2 ==>
              DecodePayload(payload, n) == DecodeRest(Values(m), packed, rest, n)
  {
    hide ReadLebs, DecodeRest;
    assert Values(m)[0] == m.n;
    assert (packed + rest)[..|packed|] == packed && (packed + rest)[|packed|..] == rest;
  }

  /** exact_math.decode_micro up to the masks. */
  method DecodeMicro(payload: seq<Byte>, expectedLength: int) returns (r: Result<(seq<Byte>, Sig)>)
    ensures r.Ok? <==> DecodePayload(payload, expectedLength).Ok?
    ensures r.Ok? ==> DecodePayload(payload, expectedLength) == Ok(r.value.0) && r.value.1 == SigOf(r.value.0)
  {
    hide SigOf, ReadLebs, DecodeRest, DecodePayload, Values;
    if !(1 <= expectedLength <= 1024) {
      PayloadUnreadable(payload, expectedLength);
      return ValueError;
    }
    var stream := new ByteStream(payload);
    var read := ReadSignature(stream);
    if read.ValueError? {
      PayloadUnreadable(payload, expectedLength);
      return ValueError;
    }
    var mathState := read.value;
    if mathState.n != expectedLength {
      assert [] + stream.Rest() == stream.Rest();
      PayloadBehind(payload, expectedLength, mathState, [], stream.Rest());
      return ValueError;
    }
    var packedMasks := stream.Read((expectedLength + 1) / 2);
    PayloadBehind(payload, expectedLength, mathState, packedMasks, stream.Rest());
    if |packedMasks| != (expectedLength + 1) / 2 {
      return ValueError;
    }
    r := DecodeMasksAndRank(mathState, packedMasks, stream, expectedLength);
  }

  /** exact_math.decode_micro from the padding check on; the last loop writes the bytes in place. */
  method DecodeMasksAndRank(mathState: Sig, packedMasks: seq<Byte>, stream: ByteStream, expectedLength: nat)
    returns (r: Result<(seq<Byte>, Sig)>)
    requires 1 <= expectedLength && |packedMasks| == (expectedLength + 1) / 2 && stream.Valid()
    modifies stream
    ensures var decoded := DecodeRest(Values(mathState), packedMasks, old(stream.Rest()), expectedLength);
            && (r.Ok? <==> decoded.Ok?)
            && (r.Ok? ==> decoded == Ok(r.value.0) && r.value.1 == SigOf(r.value.0))
  {
    hide PopCount, ByteOf, SigOf, RankWidth, DivMod, MaskAt, FromBigEndian, Unrank, Unpack, Values;
    if expectedLength % 2 == 1 && packedMasks[|packedMasks| - 1] % 16 != 0 {
      return ValueError;
    }
    var states := Unpack(packedMasks, expectedLength);
    var activeCount := CountActive(states);
    PowPositive(3, activeCount);
    var capacity := Pow(3, activeCount);
    var rankWidth := RankWidth(activeCount);
    var rankBytes := stream.ReadAll();
    if |rankBytes| != rankWidth {
      return ValueError;
    }
    var rank := FromBigEndian(rankBytes);
    if rank >= capacity {
      return ValueError;
    }
    var data := UnrankInPlace(states, rank);
    var actual := Signature(data);
    ValuesInjective(actual, mathState);
    if actual != mathState {
      return ValueError;
    }
    r := Ok((data, mathState));
  }

  lemma ValuesInjective(a: Sig, b: Sig)
    ensures Values(a) == Values(b) ==> a == b
  {
    if Values(a) == Values(b) {
      assert Values(a)[0] == Values(b)[0] && Values(a)[1] == Values(b)[1] && Values(a)[2] == Values(b)[2];
      assert Values(a)[3] == Values(b)[3] && Values(a)[4] == Values(b)[4];
    }
  }

  method CountActive(states: seq<State>) returns (count: nat)
    ensures count == Active(states)
  {
    count := 0;
    var i := 0;
    while i < |states|
      invariant 0 <= i <= |states| && count == Active(states[..i])
    {
      assert states[..i + 1][..i] == states[..i];
      count := count + PopCount(states[i]);
      i := i + 1;
    }
    assert states[..i] == states;
  }

  /** The division loop of decode_micro. */
  method UnrankInPlace(states: seq<State>, start: nat) returns (data: seq<Byte>)
    ensures data == Unrank(states, start)
  {
    hide PopCount, ByteOf, DivMod, Pow, INVERSE, POWERS_OF_THREE;
    var decoded := new Byte[|states|](_ => 0);
    var rank := start;
    var position := |states|;
    assert states[..position] == states;
    while position > 0
      invariant 0 <= position <= |states|
      invariant Unrank(states, start) == Unrank(states[..position], rank) + decoded[position..]
    {
      position := position - 1;
      var state := states[position];
      PowPositive(3, PopCount(state));
      PowersOfThree(PopCount(state));
      var (quotient, byteRank) := DivMod(rank, POWERS_OF_THREE[PopCount(state)]);
      InverseEntry(state, byteRank);
      assert states[..position + 1][..position] == states[..position];
      ghost var tail := decoded[position + 1..];
      rank := quotient;
      decoded[position] := INVERSE[state][byteRank];
      assert decoded[position..] == [ByteOf(state, byteRank)] + tail;
    }
    data := decoded[..];
  }

  /** Decoding what was encoded gives the data back, for every chunk the encoder accepts. */
  method RoundTrip(data: seq<Byte>) returns (back: Result<(seq<Byte>, Sig)>)
    requires 1 <= |data| <= 1024
    ensures back == Ok((data, SigOf(data)))
  {
    var encoded := EncodeMicro(data);
    PayloadIsAccepted(|data|, data);
    back := DecodeMicro(encoded.value.0, |data|);
  }
}
