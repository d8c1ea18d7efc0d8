/** Canonical unsigned LEB128 integers of at most 64 bytes, and signatures made of five of them. */
module Varint {
  import opened Wrappers
  import opened Arithmetic
  import opened Moments
  import opened Streams

  /** The most bytes a reader accepts for one integer. */
  const MAX_DIGITS: nat := 64

  /** value < 2^448, the guard of `unsigned`. */
  ghost predicate Fits(value: int)
  {
    0 <= value < Pow(2, 448)
  }

  /** The encoding of an integer: base-128 digits, least significant first, continuation bit 128. */
  function Leb(v: nat): seq<Byte>
  {
    if v < 128 then [v] else [v % 128 + 128] + Leb(v / 128)
  }

  /** What read_unsigned makes of the bytes ahead when `k` digits have been consumed. */
  function ReadLeb(s: seq<Byte>, k: nat): (r: Result<(nat, seq<Byte>)>)
    requires k <= MAX_DIGITS
    decreases MAX_DIGITS - k
  {
    if k == MAX_DIGITS || s == [] then ValueError
    else if s[0] < 128 then
      if k > 0 && s[0] == 0 then ValueError else Ok((s[0], s[1..]))
    else
      match ReadLeb(s[1..], k + 1)
      case Ok((v, rest)) => Ok((s[0] - 128 + 128 * v, rest))
      case ValueError => ValueError
  }

  lemma {:induction false} LebIsRead(v: nat, k: nat, t: seq<Byte>)
    requires k < MAX_DIGITS && v < Pow(128, MAX_DIGITS - k) && (k > 0 ==> v > 0)
    ensures ReadLeb(Leb(v) + t, k) == Ok((v, t))
    decreases v
  {
    if v < 128 {
      assert (Leb(v) + t)[1..] == t;
    } else {
      assert Pow(128, 0) == 1;
      assert Pow(128, MAX_DIGITS - k) == 128 * Pow(128, MAX_DIGITS - k - 1);
      LebIsRead(v / 128, k + 1, t);
      assert (Leb(v) + t)[1..] == Leb(v / 128) + t;
    }
  }

  lemma {:induction false} ReadIsLeb(s: seq<Byte>, k: nat)
    requires k <= MAX_DIGITS && ReadLeb(s, k).Ok?
    ensures var (v, rest) := ReadLeb(s, k).value;
            s == Leb(v) + rest && v < Pow(128, MAX_DIGITS - k) && (k > 0 ==> v > 0)
    decreases MAX_DIGITS - k
  {
    assert Pow(128, MAX_DIGITS - k) == 128 * Pow(128, MAX_DIGITS - k - 1);
    if s[0] < 128 {
      PowPositive(128, MAX_DIGITS - k - 1);
      assert s == [s[0]] + s[1..];
    } else {
      ReadIsLeb(s[1..], k + 1);
      var (w, rest) := ReadLeb(s[1..], k + 1).value;
      var v := s[0] - 128 + 128 * w;
      assert v % 128 == s[0] - 128 && v / 128 == w;
      assert s == [s[0]] + s[1..];
      assert [s[0]] + (Leb(w) + rest) == ([s[0]] + Leb(w)) + rest;
    }
  }

  lemma FitsIsDigits(v: int)
    ensures Fits(v) <==> 0 <= v < Pow(128, MAX_DIGITS)
  {
    assert Pow(2, 7) == 128;
    PowPow(2, 7, 64);
  }

  /**
   The varint law: reading succeeds exactly on the encoding of a value below 2^448 followed by
   anything, and returns that value and what follows. Overlong and overlarge forms have no value.
   */
  lemma ReadLebIff(s: seq<Byte>, v: nat, rest: seq<Byte>)
    ensures ReadLeb(s, 0) == Ok((v, rest)) <==> v < Pow(2, 448) && s == Leb(v) + rest
  {
    FitsIsDigits(v);
    if ReadLeb(s, 0) == Ok((v, rest)) {
      ReadIsLeb(s, 0);
    }
    if Fits(v) && s == Leb(v) + rest {
      LebIsRead(v, 0, rest);
    }
  }

  /** Byte `i` of an encoding: seven bits of the value, and bit 128 on every byte but the last. */
  lemma {:induction false} LebAt(v: nat, i: nat)
    requires i < |Leb(v)|
    ensures Pow(128, i) > 0
    ensures Leb(v)[i] == v / Pow(128, i) % 128 + (if i < |Leb(v)| - 1 then 128 else 0)
    decreases i
  {
    PowPositive(128, i);
    if i == 0 {
      assert Pow(128, 0) == 1;
    } else {
      LebAt(v / 128, i - 1);
      assert Pow(128, i) == 128 * Pow(128, i - 1);
      DivDiv(v, 128, Pow(128, i - 1));
    }
  }

  /** There is no shorter encoding: the last byte is needed. */
  lemma {:induction false} LebIsShortest(v: nat)
    ensures |Leb(v)| >= 1 && (|Leb(v)| > 1 ==> Pow(128, |Leb(v)| - 1) <= v) && v < Pow(128, |Leb(v)|)
    decreases v
  {
    assert Pow(128, 0) == 1;
    if v >= 128 {
      LebIsShortest(v / 128);
      var k := |Leb(v / 128)|;
      assert |Leb(v)| == k + 1;
      assert Pow(128, k + 1) == 128 * Pow(128, k);
      assert Pow(128, k) == 128 * Pow(128, k - 1);
    } else {
      assert Pow(128, 1) == 128 * Pow(128, 0);
    }
  }

  lemma SigBytesMean(m: Sig)
    requires Natural(m)
    ensures SigBytes(m) == Leb(m.n) + Leb(m.p0) + Leb(m.p1) + Leb(m.p2) + Leb(m.p3)
  {
    hide Leb;
    var values := Values(m);
    LebsUnfold(values);
    LebsUnfold(values[1..]);
    LebsUnfold(values[2..]);
    LebsUnfold(values[3..]);
    LebsUnfold(values[4..]);
    assert values[1..][1..] == values[2..] && values[2..][1..] == values[3..] && values[3..][1..] == values[4..];
    assert values[4..][1..] == [];
  }

  lemma LebsUnfold(values: seq<int>)
    requires (forall i :: 0 <= i < |values| ==> 0 <= values[i]) && values != []
    ensures Lebs(values) == Leb(values[0]) + Lebs(values[1..])
    ensures |values| == 1 ==> Lebs(values) == Leb(values[0])
  {
    hide Leb;
    if |values| == 1 {
      assert Leb(values[0]) + [] == Leb(values[0]);
    }
  }

  /** An encoding takes at most 64 bytes. */
  lemma {:induction false} LebLength(v: nat, k: nat)
    requires 1 <= k && v < Pow(128, k)
    ensures 1 <= |Leb(v)| <= k
    decreases v
  {
    if v >= 128 {
      assert Pow(128, 0) == 1;
      assert Pow(128, k) == 128 * Pow(128, k - 1);
      LebLength(v / 128, k - 1);
    }
  }

  /** exact_math.unsigned. */
  method Unsigned(value: int) returns (r: Result<seq<Byte>>)
    ensures r.Ok? <==> 0 <= value < Pow(2, 448)
    ensures r.Ok? ==> r.value == Leb(value)
  {
    if !(0 <= value < Pow(2, 448)) {
      return ValueError;
    }
    var encoded: seq<Byte> := [];
    var v := value;
    while v >= 128
      invariant 0 <= v <= value
      invariant encoded + Leb(v) == Leb(value)
    {
      assert Leb(v) == [v % 128 + 128] + Leb(v / 128);
      encoded := encoded + [v % 128 + 128];
      v := v / 128;
    }
    r := Ok(encoded + [v]);
  }

  /** Prepend `value`, the sum of the digits already read at place 128^position. */
  function Shifted(value: nat, place: nat, r: Result<(nat, seq<Byte>)>): Result<(int, seq<Byte>)>
  {
    match r
    case Ok((w, rest)) => Ok((value + place * w, rest))
    case ValueError => ValueError
  }

  /** A digit put above the digits of `value`: or-ing it in is adding it. */
  function WithDigit(value: nat, digit: nat, place: nat): nat
  {
    value + digit * place
  }

  /** One pass of the read loop: either the final digit, or one more place. */
  lemma ShiftedStep(s: seq<Byte>, k: nat, value: nat, place: nat)
    requires s != [] && k < MAX_DIGITS && value < place
    ensures WithDigit(value, s[0] % 128, place) < 128 * place
    ensures s[0] >= 128 ==>
              Shifted(value, place, ReadLeb(s, k)) ==
              Shifted(WithDigit(value, s[0] % 128, place), 128 * place, ReadLeb(s[1..], k + 1))
    ensures s[0] < 128 ==>
              Shifted(value, place, ReadLeb(s, k)) ==
              (if k > 0 && s[0] == 0 then ValueError else Ok((WithDigit(value, s[0] % 128, place), s[1..])))
  {
    BelowNextPlace(value, place, s[0] % 128);
    if s[0] >= 128 {
      var digit := s[0] - 128;
      assert digit == s[0] % 128;
      if ReadLeb(s[1..], k + 1).Ok? {
        var w := ReadLeb(s[1..], k + 1).value.0;
        Distribute(place, digit, w);
      }
    } else {
      assert place * s[0] == s[0] * place;
    }
  }

  lemma BelowNextPlace(value: nat, place: nat, digit: nat)
    requires value < place && digit < 128
    ensures value + digit * place < 128 * place
  {
    assert digit * place <= 127 * place;
  }

  lemma Distribute(place: int, digit: int, w: int)
    ensures place * (digit + 128 * w) == digit * place + 128 * place * w
  {
  }

  lemma ShiftedStart(r: Result<(nat, seq<Byte>)>)
    ensures Shifted(0, 1, r) == r
  {
  }

  /** exact_math.read_unsigned. */
  method ReadUnsigned(stream: ByteStream) returns (r: Result<nat>)
    requires stream.Valid()
    modifies stream
    ensures stream.Valid()
    ensures r.Ok? <==> ReadLeb(old(stream.Rest()), 0).Ok?
    ensures r.Ok? ==> ReadLeb(old(stream.Rest()), 0) == Ok((r.value, stream.Rest()))
  {
    hide ReadLeb, Shifted, WithDigit;
    var value: nat := 0;
    var place: nat := 1;
    var position := 0;
    ghost var all := stream.Rest();
    ShiftedStart(ReadLeb(all, 0));
    while position < 64
      invariant 0 <= position <= 64 && stream.Valid()
      invariant value < place  // so or-ing in the next digit is adding it
      invariant Shifted(value, place, ReadLeb(stream.Rest(), position)) == ReadLeb(all, 0)
    {
      ghost var before := stream.Rest();
      NoMoreDigits(before, position, value, place);
      var chunk := stream.Read(1);
      if chunk == [] {
        return ValueError;
      }
      assert before[0] == chunk[0] && before[1..] == stream.Rest();
      var byteValue: int := chunk[0];
      ShiftedStep(before, position, value, place);
      value := WithDigit(value, byteValue % 128, place);
      if byteValue < 128 {
        if position > 0 && byteValue == 0 {
          return ValueError;
        }
        return Ok(value);
      }
      place := 128 * place;
      position := position + 1;
    }
    NoMoreDigits(stream.Rest(), 64, value, place);
    r := ValueError;
  }

  lemma NoMoreDigits(s: seq<Byte>, k: nat, value: nat, place: nat)
    requires k <= MAX_DIGITS
    ensures k == MAX_DIGITS || s == [] ==> Shifted(value, place, ReadLeb(s, k)) == ValueError
  {
  }

  // ---- Signatures ----

  function Values(m: Sig): seq<int>
  {
    [m.n, m.p0, m.p1, m.p2, m.p3]
  }

  ghost predicate AllFit(values: seq<int>)
  {
    forall i :: 0 <= i < |values| ==> Fits(values[i])
  }

  predicate Natural(m: Sig)
  {
    0 <= m.n && 0 <= m.p0 && 0 <= m.p1 && 0 <= m.p2 && 0 <= m.p3
  }

  ghost predicate SigFits(m: Sig)
    ensures SigFits(m) <==> AllFit(Values(m))
    ensures SigFits(m) ==> Natural(m)
  {
    assert Values(m)[0] == m.n && Values(m)[1] == m.p0 && Values(m)[2] == m.p1;
    assert Values(m)[3] == m.p2 && Values(m)[4] == m.p3;
    Fits(m.n) && Fits(m.p0) && Fits(m.p1) && Fits(m.p2) && Fits(m.p3)
  }

  /** The encodings of several integers, joined. */
  function Lebs(values: seq<int>): seq<Byte>
    requires forall i :: 0 <= i < |values| ==> 0 <= values[i]
  {
    if values == [] then [] else Leb(values[0]) + Lebs(values[1..])
  }

  /** encode_signature on a list of naturals. */
  function SigBytes(m: Sig): seq<Byte>
    requires Natural(m)
  {
    Lebs(Values(m))
  }

  /** `count` reads in a row. */
  function ReadLebs(s: seq<Byte>, count: nat): (r: Result<(seq<int>, seq<Byte>)>)
    ensures r.Ok? ==> |r.value.0| == count
    decreases count
  {
    if count == 0 then Ok(([], s))
    else
      match ReadLeb(s, 0)
      case ValueError => ValueError
      case Ok((v, s')) =>
        match ReadLebs(s', count - 1)
        case ValueError => ValueError
        case Ok((values, rest)) => Ok(([v] + values, rest))
  }

  /** The varint law lifted to lists: parser and printer undo each other, in both directions. */
  lemma {:induction false} ReadLebsIff(s: seq<Byte>, values: seq<int>, rest: seq<Byte>)
    ensures ReadLebs(s, |values|) == Ok((values, rest)) <==> AllFit(values) && s == Lebs(values) + rest
    decreases |values|
  {
    if values == [] {
      assert [] + rest == rest;
    } else {
      var v := values[0];
      var tail := values[1..];
      assert values == [v] + tail;
      if ReadLebs(s, |values|) == Ok((values, rest)) {
        var s' := ReadLeb(s, 0).value.1;
        ReadLebIff(s, v, s');
        ReadLebsIff(s', tail, rest);
      }
      if AllFit(values) && s == Lebs(values) + rest {
        var s' := Lebs(tail) + rest;
        assert s == Leb(v) + s';
        ReadLebIff(s, v, s');
        ReadLebsIff(s', tail, rest);
      }
    }
  }

  lemma {:induction false} LebsLength(values: seq<int>)
    requires AllFit(values)
    ensures |values| <= |Lebs(values)| <= 64 * |values|
  {
    if values != [] {
      FitsIsDigits(values[0]);
      LebLength(values[0], 64);
      LebsLength(values[1..]);
    }
  }

  lemma {:induction false} LebsSnoc(values: seq<int>, v: int)
    requires AllFit(values) && Fits(v)
    ensures Lebs(values + [v]) == Lebs(values) + Leb(v)
  {
    if values != [] {
      assert (values + [v])[1..] == values[1..] + [v];
      LebsSnoc(values[1..], v);
    }
  }

  lemma {:induction false} ReadLebsSnoc(s: seq<Byte>, count: nat)
    ensures ReadLebs(s, count + 1) ==
            match ReadLebs(s, count)
            case ValueError => ValueError
            case Ok((values, rest)) =>
              match ReadLeb(rest, 0)
              case ValueError => ValueError
              case Ok((v, rest')) => Ok((values + [v], rest'))
    decreases count
  {
    if count == 0 {
      if ReadLeb(s, 0).Ok? {
        var (v, s') := ReadLeb(s, 0).value;
        assert ReadLebs(s', 0) == Ok(([], s'));
        assert [v] + [] == [] + [v];
      }
    } else if ReadLeb(s, 0).Ok? {
      var (u, s') := ReadLeb(s, 0).value;
      ReadLebsSnoc(s', count - 1);
      if ReadLebs(s', count - 1).Ok? {
        var (values, rest) := ReadLebs(s', count - 1).value;
        if ReadLeb(rest, 0).Ok? {
          assert [u] + (values + [ReadLeb(rest, 0).value.0]) == ([u] + values) + [ReadLeb(rest, 0).value.0];
        }
      }
    }
  }

  /** exact_math.encode_signature. */
  method EncodeSignature(values: Sig) returns (r: Result<seq<Byte>>)
    ensures r.Ok? <==> SigFits(values)
    ensures r.Ok? ==> r.value == SigBytes(values)
  {
    var list := Values(values);
    var joined: seq<Byte> := [];
    var i := 0;
    while i < 5
      invariant 0 <= i <= 5
      invariant AllFit(list[..i]) && joined == Lebs(list[..i])
    {
      var part := Unsigned(list[i]);
      if part.ValueError? {
        return ValueError;
      }
      assert list[..i + 1] == list[..i] + [list[i]];
      LebsSnoc(list[..i], list[i]);
      joined := joined + part.value;
      i := i + 1;
    }
    assert list[..i] == list;
    r := Ok(joined);
  }

  /** The list comprehension `[read_unsigned(stream) for _ in range(5)]`. */
  method ReadSignature(stream: ByteStream) returns (r: Result<Sig>)
    requires stream.Valid()
    modifies stream
    ensures stream.Valid()
    ensures r.Ok? <==> ReadLebs(old(stream.Rest()), 5).Ok?
    ensures r.Ok? ==> ReadLebs(old(stream.Rest()), 5) == Ok((Values(r.value), stream.Rest()))
  {
    var values: seq<int> := [];
    var i := 0;
    ghost var all := stream.Rest();
    while i < 5
      invariant 0 <= i <= 5 && stream.Valid()
      invariant ReadLebs(all, i) == Ok((values, stream.Rest()))
    {
      ReadLebsSnoc(all, i);
      ReadLebsFails(all, i + 1, 5);
      var v := ReadUnsigned(stream);
      if v.ValueError? {
        return ValueError;
      }
      values := values + [v.value];
      i := i + 1;
    }
    assert values == [values[0], values[1], values[2], values[3], values[4]];
    r := Ok(Sig(values[0], values[1], values[2], values[3], values[4]));
  }

  lemma {:induction false} ReadLebsFails(s: seq<Byte>, count: nat, more: nat)
    requires count <= more
    ensures ReadLebs(s, count).ValueError? ==> ReadLebs(s, more).ValueError?
    decreases more
  {
    if count < more {
      ReadLebsFails(s, count, more - 1);
      ReadLebsSnoc(s, more - 1);
    }
  }

  lemma SigBytesLength(m: Sig)
    requires SigFits(m)
    ensures 5 <= |SigBytes(m)| <= 320
  {
    LebsLength(Values(m));
  }

  lemma ReadSigIff(s: seq<Byte>, m: Sig, rest: seq<Byte>)
    ensures ReadLebs(s, 5) == Ok((Values(m), rest)) <==> SigFits(m) && s == SigBytes(m) + rest
  {
    ReadLebsIff(s, Values(m), rest);
  }

  /** exact_math.decode_signature accepts exactly the encodings, and returns what was encoded. */
  method DecodeSignature(payload: seq<Byte>) returns (r: Result<Sig>)
    ensures r.Ok? ==> SigFits(r.value) && payload == SigBytes(r.value)
    ensures forall m | SigFits(m) && payload == SigBytes(m) :: r == Ok(m)
  {
    hide Fits, SigBytes, ReadLebs, AllFit, SigFits, Natural;
    var stream := new ByteStream(payload);
    r := ReadSignature(stream);
    if r.Ok? {
      ReadSigIff(payload, r.value, stream.Rest());
      var trailing := stream.Read(1);
      if trailing != [] {
        r := ValueError;
      } else {
        assert SigBytes(r.value) + [] == SigBytes(r.value);
      }
    }
    forall m | SigFits(m) && payload == SigBytes(m)
      ensures r == Ok(m)
    {
      assert payload == SigBytes(m) + [];
      ReadSigIff(payload, m, []);
    }
  }
}
