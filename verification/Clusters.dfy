/** Byte clusters, ternary discriminators, and the two tables that invert each other. */
module Clusters {
  import opened Wrappers
  import opened Arithmetic
  import opened Moments

  type State = s: int | 0 <= s < 16

  /** Base-4 digit of a byte, most significant first. */
  function Pair(b: Byte, j: nat): (q: int)
    requires j < 4
    ensures 0 <= q < 4
  {
    if j == 0 then b / 64 else if j == 1 then b / 16 % 4 else if j == 2 then b / 4 % 4 else b % 4
  }

  function Sign(q: int): int
  {
    if q == 0 then 0 else 1
  }

  /** One bit per pair: which pairs are nonzero (cluster_index minus one). */
  function StateOf(b: Byte): State
  {
    8 * Sign(Pair(b, 0)) + 4 * Sign(Pair(b, 1)) + 2 * Sign(Pair(b, 2)) + Sign(Pair(b, 3))
  }

  /** int.bit_count of a state. */
  function PopCount(s: State): (n: nat)
    ensures n <= 4
  {
    s / 8 + s / 4 % 2 + s / 2 % 2 + s % 2
  }

  /** The discriminators of the nonzero pairs, most significant first. */
  function Trits(b: Byte): (t: seq<int>)
    ensures forall i :: 0 <= i < |t| ==> 0 <= t[i] < 3
  {
    Trit(Pair(b, 0)) + Trit(Pair(b, 1)) + Trit(Pair(b, 2)) + Trit(Pair(b, 3))
  }

  function Trit(q: int): (t: seq<int>)
    requires 0 <= q < 4
    ensures forall i :: 0 <= i < |t| ==> 0 <= t[i] < 3
  {
    if q == 0 then [] else [q - 1]
  }

  /** The base-3 numeral of a digit string, most significant first. */
  function Ternary(t: seq<int>): int
  {
    if t == [] then 0 else 3 * Ternary(t[..|t| - 1]) + t[|t| - 1]
  }

  lemma {:induction false} TernaryConcat(a: seq<int>, b: seq<int>)
    ensures Ternary(a + b) == Ternary(a) * Pow(3, |b|) + Ternary(b)
  {
    if b == [] {
      assert a + b == a;
    } else {
      var last := |b| - 1;
      assert (a + b)[..|a + b| - 1] == a + b[..last];
      TernaryConcat(a, b[..last]);
      assert 3 * (Ternary(a) * Pow(3, last)) == Ternary(a) * (3 * Pow(3, last));
    }
  }

  lemma {:induction false} TernaryBound(t: seq<int>)
    requires forall i :: 0 <= i < |t| ==> 0 <= t[i] < 3
    ensures 0 <= Ternary(t) < Pow(3, |t|)
  {
    if t != [] {
      TernaryBound(t[..|t| - 1]);
    }
  }

  /** The rank of a byte within its cluster. */
  function RankOf(b: Byte): int
  {
    Ternary(Trits(b))
  }

  function Push(rank: int, q: int): int
  {
    if q == 0 then rank else rank * 3 + q - 1
  }

  /** The rank as the source's loop over shifts computes it. */
  lemma RankByPushing(b: Byte)
    ensures RankOf(b) == Rank4(Pair(b, 0), Pair(b, 1), Pair(b, 2), Pair(b, 3))
  {
    var t0 := Trit(Pair(b, 0));
    var t1 := t0 + Trit(Pair(b, 1));
    var t2 := t1 + Trit(Pair(b, 2));
    PushIsAppend([], Pair(b, 0));
    PushIsAppend(t0, Pair(b, 1));
    PushIsAppend(t1, Pair(b, 2));
    PushIsAppend(t2, Pair(b, 3));
    assert [] + t0 == t0;
  }

  lemma PushIsAppend(t: seq<int>, q: int)
    requires 0 <= q < 4
    ensures Ternary(t + Trit(q)) == Push(Ternary(t), q)
  {
    if q == 0 {
      assert t + [] == t;
    } else {
      assert (t + [q - 1])[..|t|] == t;
    }
  }

  // ---- Bytes and (state, rank) pairs are in bijection ----

  /** Peel one pair off the least significant end of a rank. */
  function Pop(bit: int, rank: int): (r: (int, int))
    ensures 0 <= r.0 < 4
  {
    if bit == 0 then (0, rank) else (rank % 3 + 1, rank / 3)
  }

  /** The four pairs behind a rank, given which of them are nonzero. */
  function Unrank4(b0: int, b1: int, b2: int, b3: int, rank: int): (q: (int, int, int, int))
    ensures 0 <= q.0 < 4 && 0 <= q.1 < 4 && 0 <= q.2 < 4 && 0 <= q.3 < 4
  {
    var (q3, r3) := Pop(b3, rank);
    var (q2, r2) := Pop(b2, r3);
    var (q1, r1) := Pop(b1, r2);
    (Pop(b0, r1).0, q1, q2, q3)
  }

  function Rank4(q0: int, q1: int, q2: int, q3: int): int
  {
    Push(Push(Push(Push(0, q0), q1), q2), q3)
  }

  function FromPairs(q: (int, int, int, int)): int
  {
    64 * q.0 + 16 * q.1 + 4 * q.2 + q.3
  }

  /** The byte with the given cluster and rank: the meaning of one entry of INVERSE. */
  function ByteOf(s: State, rank: int): Byte
  {
    FromPairs(Unrank4(s / 8, s / 4 % 2, s / 2 % 2, s % 2, rank))
  }

  lemma PopPush(rank: int, q: int)
    requires 0 <= q < 4
    ensures Pop(Sign(q), Push(rank, q)) == (q, rank)
  {
  }

  lemma PushPop(bit: int, rank: int)
    requires bit == 0 || bit == 1
    ensures var (q, r) := Pop(bit, rank); Push(r, q) == rank && Sign(q) == bit
  {
  }

  lemma PairsOf(q0: int, q1: int, q2: int, q3: int)
    requires 0 <= q0 < 4 && 0 <= q1 < 4 && 0 <= q2 < 4 && 0 <= q3 < 4
    ensures var b := 64 * q0 + 16 * q1 + 4 * q2 + q3;
            0 <= b < 256 && Pair(b, 0) == q0 && Pair(b, 1) == q1 && Pair(b, 2) == q2 && Pair(b, 3) == q3
  {
    var b := 64 * q0 + 16 * q1 + 4 * q2 + q3;
    assert b / 4 == 16 * q0 + 4 * q1 + q2;
    assert b / 16 == 4 * q0 + q1;
    assert b / 64 == q0;
  }

  lemma BitsOf(b: Byte)
    ensures var s := StateOf(b);
            s / 8 == Sign(Pair(b, 0)) && s / 4 % 2 == Sign(Pair(b, 1))
            && s / 2 % 2 == Sign(Pair(b, 2)) && s % 2 == Sign(Pair(b, 3))
  {
  }

  lemma RankBound(b: Byte)
    ensures |Trits(b)| == PopCount(StateOf(b))
    ensures 0 <= RankOf(b) < Pow(3, PopCount(StateOf(b)))
  {
    BitsOf(b);
    TernaryBound(Trits(b));
  }

  lemma Unrank4OfRank4(q0: int, q1: int, q2: int, q3: int)
    requires 0 <= q0 < 4 && 0 <= q1 < 4 && 0 <= q2 < 4 && 0 <= q3 < 4
    ensures Unrank4(Sign(q0), Sign(q1), Sign(q2), Sign(q3), Rank4(q0, q1, q2, q3)) == (q0, q1, q2, q3)
  {
    PopPush(Push(Push(Push(0, q0), q1), q2), q3);
    PopPush(Push(Push(0, q0), q1), q2);
    PopPush(Push(0, q0), q1);
    PopPush(0, q0);
  }

  lemma Rank4OfUnrank4(b0: int, b1: int, b2: int, b3: int, rank: int)
    requires (b0 == 0 || b0 == 1) && (b1 == 0 || b1 == 1) && (b2 == 0 || b2 == 1) && (b3 == 0 || b3 == 1)
    requires 0 <= rank < Pow(3, b0 + b1 + b2 + b3)
    ensures var (q0, q1, q2, q3) := Unrank4(b0, b1, b2, b3, rank);
            && Sign(q0) == b0 && Sign(q1) == b1 && Sign(q2) == b2 && Sign(q3) == b3
            && Rank4(q0, q1, q2, q3) == rank
  {
    hide Pop, Push, Sign, Pow;
    PowSmall(3);
    var (q3, r3) := Pop(b3, rank);
    var (q2, r2) := Pop(b2, r3);
    var (q1, r1) := Pop(b1, r2);
    PushPop(b3, rank);
    PushPop(b2, r3);
    PushPop(b1, r2);
    PushPop(b0, r1);
    PopBound(b3, b0 + b1 + b2, rank);
    PopBound(b2, b0 + b1, r3);
    PopBound(b1, b0, r2);
    PopBound(b0, 0, r1);
  }

  lemma PairsCompose(b: Byte)
    ensures b == FromPairs((Pair(b, 0), Pair(b, 1), Pair(b, 2), Pair(b, 3)))
  {
    assert b == 4 * (b / 4) + b % 4;
    assert b / 4 == 4 * (b / 16) + b / 4 % 4;
    assert b / 16 == 4 * (b / 64) + b / 16 % 4;
  }

  lemma StateBits(s: State)
    ensures s == 8 * (s / 8) + 4 * (s / 4 % 2) + 2 * (s / 2 % 2) + s % 2
    ensures 0 <= s / 8 <= 1
  {
  }

  /** Cluster and rank together determine the byte. */
  lemma ByteOfStateAndRank(b: Byte)
    ensures ByteOf(StateOf(b), RankOf(b)) == b
  {
    BitsOf(b);
    RankByPushing(b);
    Unrank4OfRank4(Pair(b, 0), Pair(b, 1), Pair(b, 2), Pair(b, 3));
    PairsCompose(b);
  }

  lemma StateAndRankOfPairs(q0: int, q1: int, q2: int, q3: int)
    requires 0 <= q0 < 4 && 0 <= q1 < 4 && 0 <= q2 < 4 && 0 <= q3 < 4
    ensures 0 <= FromPairs((q0, q1, q2, q3)) < 256
    ensures StateOf(FromPairs((q0, q1, q2, q3))) == 8 * Sign(q0) + 4 * Sign(q1) + 2 * Sign(q2) + Sign(q3)
    ensures RankOf(FromPairs((q0, q1, q2, q3))) == Rank4(q0, q1, q2, q3)
  {
    PairsOf(q0, q1, q2, q3);
    RankByPushing(FromPairs((q0, q1, q2, q3)));
  }

  lemma StateAndRankOfBits(b0: int, b1: int, b2: int, b3: int, rank: int)
    requires (b0 == 0 || b0 == 1) && (b1 == 0 || b1 == 1) && (b2 == 0 || b2 == 1) && (b3 == 0 || b3 == 1)
    requires 0 <= rank < Pow(3, b0 + b1 + b2 + b3)
    ensures var q := Unrank4(b0, b1, b2, b3, rank);
            && 0 <= FromPairs(q) < 256
            && StateOf(FromPairs(q)) == 8 * b0 + 4 * b1 + 2 * b2 + b3
            && RankOf(FromPairs(q)) == rank
  {
    Rank4OfUnrank4(b0, b1, b2, b3, rank);
    var (q0, q1, q2, q3) := Unrank4(b0, b1, b2, b3, rank);
    StateAndRankOfPairs(q0, q1, q2, q3);
  }

  /** Every in-range pair is the pair of exactly the byte `ByteOf` names. */
  lemma StateAndRankOfByte(s: State, rank: int)
    requires 0 <= rank < Pow(3, PopCount(s))
    ensures StateOf(ByteOf(s, rank)) == s
    ensures RankOf(ByteOf(s, rank)) == rank
  {
    StateBits(s);
    StateAndRankOfBits(s / 8, s / 4 % 2, s / 2 % 2, s % 2, rank);
  }

  lemma PopBound(bit: int, rest: nat, rank: int)
    requires bit == 0 || bit == 1
    requires 0 <= rank < Pow(3, rest + bit)
    ensures 0 <= Pop(bit, rank).1 < Pow(3, rest)
  {
    if bit == 1 {
      assert Pow(3, rest + 1) == 3 * Pow(3, rest);
    }
  }

  // ---- The module-level tables ----

  /** Cluster index per byte, and rank per byte within its cluster. */
  const CLUSTER_TABLE: seq<int> := seq(256, (b: int) requires 0 <= b < 256 => StateOf(b) + 1)

  const BYTE_RANKS: seq<int> := seq(256, (b: int) requires 0 <= b < 256 => RankOf(b))

  /** Per state, the byte of each rank. */
  const INVERSE: seq<seq<Byte>> := seq(16, (s: int) requires 0 <= s < 16 => InverseRow(s))

  function InverseRow(s: State): (row: seq<Byte>)
    ensures |row| == Pow(3, PopCount(s))
  {
    PowPositive(3, PopCount(s));
    seq(Pow(3, PopCount(s)), (r: int) requires 0 <= r => ByteOf(s, r))
  }

  const POWERS_OF_THREE: seq<nat> := [1, 3, 9, 27, 81]

  lemma PowersOfThree(k: nat)
    requires k <= 4
    ensures |POWERS_OF_THREE| == 5 && POWERS_OF_THREE[k] == Pow(3, k)
  {
    PowSmall(3);
    assert Pow(3, 4) == 3 * Pow(3, 3);
  }

  lemma TableEntries(b: Byte)
    ensures |CLUSTER_TABLE| == 256 && CLUSTER_TABLE[b] == StateOf(b) + 1
    ensures |BYTE_RANKS| == 256 && BYTE_RANKS[b] == RankOf(b)
  {
    hide StateOf, RankOf, INVERSE;
  }

  lemma InverseEntry(s: State, r: int)
    requires 0 <= r < Pow(3, PopCount(s))
    ensures |INVERSE| == 16 && |INVERSE[s]| == Pow(3, PopCount(s)) && INVERSE[s][r] == ByteOf(s, r)
  {
    hide PopCount, ByteOf, Pow;
  }

  /** The tables invert each other, and no entry of INVERSE is unused. */
  lemma TablesInvert(b: Byte, s: State, r: int)
    requires 0 <= r < Pow(3, PopCount(s))
    ensures |CLUSTER_TABLE| == |BYTE_RANKS| == 256 && |INVERSE| == 16
    ensures 1 <= CLUSTER_TABLE[b] <= 16 && 0 <= BYTE_RANKS[b] < |INVERSE[CLUSTER_TABLE[b] - 1]|
    ensures INVERSE[CLUSTER_TABLE[b] - 1][BYTE_RANKS[b]] == b
    ensures r < |INVERSE[s]| && CLUSTER_TABLE[INVERSE[s][r]] == s + 1 && BYTE_RANKS[INVERSE[s][r]] == r
  {
    hide StateOf, RankOf, PopCount, ByteOf, Pow, CLUSTER_TABLE, BYTE_RANKS, INVERSE;
    TableEntries(b);
    RankBound(b);
    InverseEntry(StateOf(b), RankOf(b));
    ByteOfStateAndRank(b);
    InverseEntry(s, r);
    StateAndRankOfByte(s, r);
    TableEntries(ByteOf(s, r));
  }

  /** core.cluster_index. */
  method ClusterIndex(value: int) returns (r: Result<int>)
    ensures r.Ok? <==> 0 <= value <= 255
    ensures r.Ok? ==> r.value == StateOf(value) + 1
    ensures r.Ok? ==>
              r.value == 1 + (if value / 64 == 0 then 0 else 8) + (if value / 16 % 4 == 0 then 0 else 4)
                         + (if value / 4 % 4 == 0 then 0 else 2) + (if value % 4 == 0 then 0 else 1)
  {
    if !(0 <= value <= 255) {
      return ValueError;
    }
    var state := 0;
    var j := 0;
    while j < 4
      invariant 0 <= j <= 4
      invariant j == 0 ==> state == 0
      invariant j == 1 ==> state == Sign(Pair(value, 0))
      invariant j == 2 ==> state == 2 * Sign(Pair(value, 0)) + Sign(Pair(value, 1))
      invariant j == 3 ==> state == 4 * Sign(Pair(value, 0)) + 2 * Sign(Pair(value, 1)) + Sign(Pair(value, 2))
      invariant j == 4 ==> state == StateOf(value)
    {
      state := 2 * state + (if Pair(value, j) != 0 then 1 else 0);
      j := j + 1;
    }
    r := Ok(state + 1);
  }

  /** The inner loop of the table construction: fold the nonzero pairs into a rank. */
  method ByteRank(value: Byte) returns (rank: int)
    ensures rank == RankOf(value)
    ensures var r0 := if value / 64 == 0 then 0 else value / 64 - 1;
            var r1 := if value / 16 % 4 == 0 then r0 else 3 * r0 + value / 16 % 4 - 1;
            var r2 := if value / 4 % 4 == 0 then r1 else 3 * r1 + value / 4 % 4 - 1;
            rank == if value % 4 == 0 then r2 else 3 * r2 + value % 4 - 1
  {
    rank := 0;
    var j := 0;
    ghost var t := [];
    while j < 4
      invariant 0 <= j <= 4
      invariant rank == Ternary(t)
      invariant j == 0 ==> t == []
      invariant j == 1 ==> t == Trit(Pair(value, 0))
      invariant j == 2 ==> t == Trit(Pair(value, 0)) + Trit(Pair(value, 1))
      invariant j == 3 ==> t == Trit(Pair(value, 0)) + Trit(Pair(value, 1)) + Trit(Pair(value, 2))
      invariant j == 4 ==> t == Trits(value)
    {
      var pair := Pair(value, j);
      PushIsAppend(t, pair);
      t := t + Trit(pair);
      if pair != 0 {
        rank := rank * 3 + pair - 1;
      }
      j := j + 1;
    }
    RankWritten(value);
  }

  lemma RankWritten(b: Byte)
    ensures var r0 := if b / 64 == 0 then 0 else b / 64 - 1;
            var r1 := if b / 16 % 4 == 0 then r0 else 3 * r0 + b / 16 % 4 - 1;
            var r2 := if b / 4 % 4 == 0 then r1 else 3 * r1 + b / 4 % 4 - 1;
            RankOf(b) == if b % 4 == 0 then r2 else 3 * r2 + b % 4 - 1
  {
    hide RankOf;
    RankByPushing(b);
  }

  ghost predicate Shaped(inverse: seq<seq<Byte>>)
  {
    |inverse| == 16 && forall s: State :: |inverse[s]| == Pow(3, PopCount(s))
  }

  ghost predicate EntryOf(inverse: seq<seq<Byte>>, b: Byte)
    requires Shaped(inverse)
  {
    0 <= RankOf(b) < |inverse[StateOf(b)]| && inverse[StateOf(b)][RankOf(b)] == b
  }

  ghost predicate FilledBelow(inverse: seq<seq<Byte>>, value: nat)
    requires Shaped(inverse)
  {
    forall b: Byte :: b < value ==> EntryOf(inverse, b)
  }

  function SetEntry(inverse: seq<seq<Byte>>, state: State, rank: int, value: Byte): seq<seq<Byte>>
    requires |inverse| == 16 && 0 <= rank < |inverse[state]|
  {
    var row: seq<Byte> := inverse[state][rank := value];
    inverse[state := row]
  }

  /** Writing one entry keeps the earlier ones, because no two bytes share an entry. */
  lemma FillKeeps(inverse: seq<seq<Byte>>, value: Byte)
    requires Shaped(inverse) && FilledBelow(inverse, value)
    requires 0 <= RankOf(value) < |inverse[StateOf(value)]|
    ensures var after := SetEntry(inverse, StateOf(value), RankOf(value), value);
            Shaped(after) && FilledBelow(after, value + 1)
  {
    hide StateOf, RankOf, ByteOf, PopCount, Pow;
    var after := SetEntry(inverse, StateOf(value), RankOf(value), value);
    var state := StateOf(value);
    var rank := RankOf(value);
    ByteOfStateAndRank(value);
    forall b: Byte | b < value + 1
      ensures EntryOf(after, b)
    {
      ByteOfStateAndRank(b);
      if b < value {
        assert EntryOf(inverse, b);
        assert (StateOf(b), RankOf(b)) != (state, rank);
      }
    }
  }

  lemma FilledIsInverse(inverse: seq<seq<Byte>>)
    requires Shaped(inverse) && FilledBelow(inverse, 256)
    ensures inverse == INVERSE
  {
    hide StateOf, RankOf, ByteOf, PopCount, Pow, FilledBelow, INVERSE;
    var zero: State := 0;
    PowPositive(3, PopCount(zero));
    InverseEntry(zero, 0);
    forall s: State
      ensures inverse[s] == INVERSE[s]
    {
      PowPositive(3, PopCount(s));
      InverseEntry(s, 0);
      forall r | 0 <= r < |inverse[s]|
        ensures |INVERSE[s]| == |inverse[s]| && inverse[s][r] == INVERSE[s][r]
      {
        EntryIsByteOf(inverse, s, r);
        InverseEntry(s, r);
      }
    }
    assert forall s :: 0 <= s < 16 ==> inverse[s] == INVERSE[s];
  }

  lemma EntryIsByteOf(inverse: seq<seq<Byte>>, s: State, r: int)
    requires Shaped(inverse) && FilledBelow(inverse, 256) && 0 <= r < |inverse[s]|
    ensures inverse[s][r] == ByteOf(s, r)
  {
    hide StateOf, RankOf, ByteOf;
    StateAndRankOfByte(s, r);
    var b := ByteOf(s, r);
    assert EntryOf(inverse, b);
  }

  function ZeroTable(): (t: seq<seq<Byte>>)
    ensures Shaped(t)
  {
    seq(16, (s: int) requires 0 <= s < 16 => PowPositive(3, PopCount(s)); seq(Pow(3, PopCount(s)), _ => 0))
  }

  /** core.py line 18: every byte's cluster index. */
  method BuildClusterTable() returns (table: seq<int>)
    ensures table == CLUSTER_TABLE
  {
    hide StateOf;
    table := [];
    var value := 0;
    while value < 256
      invariant 0 <= value <= 256 && |table| == value
      invariant forall b :: 0 <= b < value ==> table[b] == StateOf(b) + 1
    {
      var index := ClusterIndex(value);
      table := table + [index.value];
      value := value + 1;
    }
  }

  /** exact_math.py lines 9-18: fill both tables in one sweep over the 256 bytes. */
  method BuildTables() returns (ranks: seq<int>, inverse: seq<seq<Byte>>)
    ensures ranks == BYTE_RANKS && inverse == INVERSE
  {
    hide StateOf, RankOf, ByteOf, PopCount, CLUSTER_TABLE, INVERSE;
    ranks := [];
    inverse := ZeroTable();
    var value := 0;
    while value < 256
      invariant 0 <= value <= 256 && |ranks| == value
      invariant Shaped(inverse) && FilledBelow(inverse, value)
      invariant forall b :: 0 <= b < value ==> ranks[b] == RankOf(b)
    {
      var rank := ByteRank(value);
      ranks := ranks + [rank];
      RankBound(value);
      FillKeeps(inverse, value);
      TableEntries(value);
      inverse := SetEntry(inverse, CLUSTER_TABLE[value] - 1, rank, value);
      value := value + 1;
    }
    FilledIsInverse(inverse);
  }

  // ---- SMALL: the cluster histogram ----

  /** How many bytes of the data lie in a cluster. */
  function CountState(data: seq<Byte>, s: State): nat
  {
    if data == [] then 0
    else CountState(data[..|data| - 1], s) + (if StateOf(data[|data| - 1]) == s then 1 else 0)
  }

  function Histogram(data: seq<Byte>): (h: seq<nat>)
    ensures |h| == 16
  {
    seq(16, (s: int) requires 0 <= s < 16 => CountState(data, s))
  }

  /** The sum of the cluster indices of the bytes. */
  function Weight(data: seq<Byte>): nat
  {
    if data == [] then 0 else Weight(data[..|data| - 1]) + StateOf(data[|data| - 1]) + 1
  }

  lemma {:induction false} CountStateConcat(x: seq<Byte>, y: seq<Byte>, s: State)
    ensures CountState(x + y, s) == CountState(x, s) + CountState(y, s)
  {
    if y == [] {
      assert x + y == x;
    } else {
      assert (x + y)[..|x + y| - 1] == x + y[..|y| - 1];
      CountStateConcat(x, y[..|y| - 1], s);
    }
  }

  function Sum(h: seq<int>): int
  {
    if h == [] then 0 else Sum(h[..|h| - 1]) + h[|h| - 1]
  }

  /** The sum of (index + 1) * count, as the footer and the index compute it. */
  function WeightedSum(h: seq<int>): int
  {
    if h == [] then 0 else WeightedSum(h[..|h| - 1]) + |h| * h[|h| - 1]
  }

  lemma SumsPrefix(h: seq<int>, n: nat)
    requires n < |h|
    ensures Sum(h[..n + 1]) == Sum(h[..n]) + h[n]
    ensures WeightedSum(h[..n + 1]) == WeightedSum(h[..n]) + (n + 1) * h[n]
  {
    assert h[..n + 1][..n] == h[..n];
  }

  lemma SumsFour(h: seq<int>, n: nat)
    requires n + 4 <= |h|
    ensures Sum(h[..n + 4]) == Sum(h[..n]) + (h[n] + h[n + 1] + h[n + 2] + h[n + 3])
    ensures WeightedSum(h[..n + 4]) ==
            WeightedSum(h[..n]) + n * (h[n] + h[n + 1] + h[n + 2] + h[n + 3])
            + (h[n] + 2 * h[n + 1] + 3 * h[n + 2] + 4 * h[n + 3])
  {
    hide Sum, WeightedSum;
    SumsPrefix(h, n);
    SumsPrefix(h, n + 1);
    SumsPrefix(h, n + 2);
    SumsPrefix(h, n + 3);
    Weights(n, h[n], h[n + 1], h[n + 2], h[n + 3]);
  }

  lemma Weights(n: int, a: int, b: int, c: int, d: int)
    ensures (n + 1) * a + (n + 2) * b + (n + 3) * c + (n + 4) * d == n * (a + b + c + d) + (a + 2 * b + 3 * c + 4 * d)
  {
  }

  lemma SumsOfEight(h: seq<int>)
    requires |h| == 16
    ensures Sum(h[..8]) == h[0] + h[1] + h[2] + h[3] + h[4] + h[5] + h[6] + h[7]
    ensures WeightedSum(h[..8]) ==
            h[0] + 2 * h[1] + 3 * h[2] + 4 * h[3] + 5 * h[4] + 6 * h[5] + 7 * h[6] + 8 * h[7]
  {
    hide Sum, WeightedSum;
    SumsOfNone(h);
    SumsFour(h, 0);
    SumsFour(h, 4);
  }

  /** The two sums over the sixteen clusters, written out. */
  lemma SumsOfSixteen(h: seq<int>)
    requires |h| == 16
    ensures Sum(h) == h[0] + h[1] + h[2] + h[3] + h[4] + h[5] + h[6] + h[7]
                      + h[8] + h[9] + h[10] + h[11] + h[12] + h[13] + h[14] + h[15]
    ensures WeightedSum(h) == h[0] + 2 * h[1] + 3 * h[2] + 4 * h[3] + 5 * h[4] + 6 * h[5] + 7 * h[6] + 8 * h[7]
                              + 9 * h[8] + 10 * h[9] + 11 * h[10] + 12 * h[11] + 13 * h[12] + 14 * h[13]
                              + 15 * h[14] + 16 * h[15]
  {
    hide Sum, WeightedSum;
    SumsOfEight(h);
    SumsFour(h, 8);
    SumsFour(h, 12);
    assert h[..16] == h;
  }

  lemma SumsOfNone(h: seq<int>)
    ensures Sum(h[..0]) == 0 && WeightedSum(h[..0]) == 0
  {
  }

  lemma {:induction false} BumpSums(h: seq<int>, i: nat)
    requires i < |h|
    ensures Sum(h[i := h[i] + 1]) == Sum(h) + 1
    ensures WeightedSum(h[i := h[i] + 1]) == WeightedSum(h) + i + 1
  {
    var last := |h| - 1;
    var g := h[i := h[i] + 1];
    if i == last {
      assert g[..last] == h[..last];
      assert |h| * (h[last] + 1) == |h| * h[last] + |h|;
    } else {
      assert g[..last] == h[..last][i := h[..last][i] + 1];
      BumpSums(h[..last], i);
    }
  }

  lemma {:induction false} ZeroSums(n: nat)
    ensures Sum(seq(n, _ => 0)) == 0 && WeightedSum(seq(n, _ => 0)) == 0
  {
    if n != 0 {
      var h := seq(n, _ => 0);
      assert h[..n - 1] == seq(n - 1, _ => 0);
      ZeroSums(n - 1);
    }
  }

  /** The fingerprint [N, W] is what the histogram says it is. */
  lemma {:induction false} FingerprintOfHistogram(data: seq<Byte>)
    ensures Sum(Histogram(data)) == |data|
    ensures WeightedSum(Histogram(data)) == Weight(data)
  {
    if data == [] {
      assert Histogram(data) == seq(16, _ => 0);
      ZeroSums(16);
    } else {
      var front := data[..|data| - 1];
      var s := StateOf(data[|data| - 1]);
      FingerprintOfHistogram(front);
      var h := Histogram(front);
      assert Histogram(data) == h[s := h[s] + 1];
      BumpSums(h, s);
    }
  }

  /** bytes.count on the translated data, one pass per cluster as in Statistics.update. */
  method AddToHistogram(histogram: seq<nat>, ghost seen: seq<Byte>, data: seq<Byte>) returns (h: seq<nat>)
    requires histogram == Histogram(seen)
    ensures h == Histogram(seen + data)
  {
    h := histogram;
    var index := 0;
    while index < 16
      invariant 0 <= index <= 16 && |h| == 16
      invariant forall s :: 0 <= s < index ==> h[s] == CountState(seen + data, s)
      invariant forall s :: index <= s < 16 ==> h[s] == CountState(seen, s)
    {
      var count := CountCluster(data, index);
      CountStateConcat(seen, data, index);
      h := h[index := h[index] + count];
      index := index + 1;
    }
  }

  method CountCluster(data: seq<Byte>, s: State) returns (count: nat)
    ensures count == CountState(data, s)
  {
    hide StateOf, CLUSTER_TABLE;
    count := 0;
    var i := 0;
    while i < |data|
      invariant 0 <= i <= |data| && count == CountState(data[..i], s)
    {
      assert data[..i + 1][..i] == data[..i];
      TableEntries(data[i]);
      if CLUSTER_TABLE[data[i]] == s + 1 {
        count := count + 1;
      }
      i := i + 1;
    }
    assert data[..i] == data;
  }
}
