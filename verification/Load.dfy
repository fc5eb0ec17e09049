/** How full the buckets are: expansion keeps a bound on the chains and on the number of items per bucket. */
module Load {
  import opened Bits
  import opened Chains
  import Expansion

  const BKT_CAPACITY_THRESH := 10

  /** The chain length at which a bucket asks for an expansion. */
  function Threshold(b: Bucket): nat {
    (b.expandMult + 1) * BKT_CAPACITY_THRESH
  }

  /** What a bucket holds or may hold before it asks for an expansion. */
  function Room(b: Bucket): nat {
    if b.count > Threshold(b) then b.count else Threshold(b)
  }

  function TotalRoom(bs: seq<Bucket>): nat {
    if bs == [] then 0 else Room(bs[0]) + TotalRoom(bs[1..])
  }

  /** On average there is room for fewer than 30 items in a bucket, and no chain is longer than 15 times its number of
      multiples. */
  ghost predicate Light(bs: seq<Bucket>) {
    && TotalRoom(bs) < 30 * |bs|
    && forall j :: 0 <= j < |bs| ==> bs[j].count <= 15 * (bs[j].expandMult + 1)
  }

  lemma {:induction false} RoomOfUpdate(bs: seq<Bucket>, j: nat, b: Bucket)
    requires j < |bs|
    ensures TotalRoom(bs[j := b]) + Room(bs[j]) == TotalRoom(bs) + Room(b)
  {
    if j == 0 {
      assert bs[0 := b][1..] == bs[1..];
    } else {
      RoomOfUpdate(bs[1..], j - 1, b);
      assert bs[j := b][1..] == bs[1..][j - 1 := b];
    }
  }

  /** Neither a push that does not reach the threshold nor a removal needs more room. */
  lemma StillLight(bs: seq<Bucket>, j: nat, b: Bucket)
    requires Light(bs) && j < |bs| && b.expandMult == bs[j].expandMult
    requires b.count < Threshold(b) || b.count <= bs[j].count
    ensures Light(bs[j := b])
  {
    RoomOfUpdate(bs, j, b);
  }

  lemma EmptyIsLight(bs: seq<Bucket>)
    requires |bs| > 0 && forall j :: 0 <= j < |bs| ==> bs[j].count == 0 && bs[j].expandMult == 0
    ensures Light(bs)
  {
    EmptyRoom(bs);
  }

  lemma {:induction false} EmptyRoom(bs: seq<Bucket>)
    requires forall j :: 0 <= j < |bs| ==> bs[j].count == 0 && bs[j].expandMult == 0
    ensures TotalRoom(bs) == BKT_CAPACITY_THRESH * |bs|
  {
    if bs != [] {
      EmptyRoom(bs[1..]);
    }
  }

  lemma {:induction false} CountsWithinRoom(bs: seq<Bucket>)
    ensures Expansion.TotalCount(bs) <= TotalRoom(bs)
  {
    if bs != [] {
      CountsWithinRoom(bs[1..]);
    }
  }

  /** The multiples of the threshold that all buckets have. */
  function TotalMultiples(bs: seq<Bucket>): nat {
    if bs == [] then 0 else bs[0].expandMult + 1 + TotalMultiples(bs[1..])
  }

  lemma {:induction false} MultiplesWithinRoom(bs: seq<Bucket>)
    ensures BKT_CAPACITY_THRESH * TotalMultiples(bs) <= TotalRoom(bs)
  {
    if bs != [] {
      MultiplesWithinRoom(bs[1..]);
    }
  }

  /** Light buckets have fewer than 30 items and fewer than 3 multiples of the threshold each on average. */
  lemma LightBounds(bs: seq<Bucket>)
    requires Light(bs)
    ensures Expansion.TotalCount(bs) < 30 * |bs| && TotalMultiples(bs) < 3 * |bs|
  {
    CountsWithinRoom(bs);
    MultiplesWithinRoom(bs);
  }

  /** One more item than light buckets hold is still no more than 30 per bucket. */
  lemma OneMoreThanLight(bs: seq<Bucket>, j: nat, b: Bucket)
    requires Light(bs) && j < |bs| && b.expandMult == bs[j].expandMult && b.count == bs[j].count + 1
    ensures Expansion.TotalCount(bs[j := b]) <= 30 * |bs|
  {
    RoomOfUpdate(bs, j, b);
    CountsWithinRoom(bs[j := b]);
  }

  // ----- after an expansion

  /** A multiplier is earned by a chain that is long enough. */
  lemma RoomOfFitting(b: Bucket, ideal: nat)
    requires Expansion.Fits(b, ideal) && 0 < ideal <= 15
    ensures Earned(Room(b), 1, b.count, ideal)
  {
    hide Expansion.Fits;
    AtMostFifteenfold(ideal, b.count);
    ScaledThreshold(b, ideal);
  }

  lemma ScaledThreshold(b: Bucket, ideal: nat)
    requires Expansion.Fits(b, ideal)
    ensures ideal * Threshold(b) <= 10 * ideal + 20 * b.count
    ensures b.count > 0 ==> ideal * Threshold(b) < 10 * ideal + 20 * b.count
  {
    Expansion.FitsBounds(b, ideal);
    hide Expansion.Fits;
    if b.expandMult > 0 {
      TenMultiples(b.expandMult - 1, ideal);
    }
  }

  lemma TenMultiples(u: nat, ideal: nat)
    ensures ideal * ((u + 2) * 10) == 10 * (u * ideal) + 20 * ideal
  {
    Distribute(ideal, 10 * u, 20);
    assert ideal * (10 * u) == 10 * (u * ideal);
  }

  lemma AtMostFifteenfold(ideal: nat, x: nat)
    requires ideal <= 15
    ensures ideal * x <= 15 * x
  {
  }

  /** `room` is at most ten per bucket and twenty per ideal chain's worth of items. */
  ghost predicate Earned(room: nat, buckets: nat, items: nat, ideal: nat) {
    && ideal * room <= 10 * (ideal * buckets) + 20 * items
    && (items > 0 ==> ideal * room < 10 * (ideal * buckets) + 20 * items)
  }

  lemma EarnedTogether(room: nat, room': nat, buckets: nat, items: nat, items': nat, ideal: nat)
    requires Earned(room, 1, items, ideal) && Earned(room', buckets, items', ideal)
    ensures Earned(room + room', 1 + buckets, items + items', ideal)
  {
    Distribute(ideal, room, room');
    Distribute(ideal, 1, buckets);
  }

  lemma Distribute(a: nat, b: nat, c: nat)
    ensures a * (b + c) == a * b + a * c
  {
  }

  lemma {:induction false} RoomOfAllFitting(bs: seq<Bucket>, ideal: nat)
    requires Expansion.WithinMultiplier(bs, ideal) && 0 < ideal <= 15
    ensures Earned(TotalRoom(bs), |bs|, Expansion.TotalCount(bs), ideal)
  {
    hide Expansion.Fits, Room;
    if bs != [] {
      RoomOfAllFitting(bs[1..], ideal);
      assert Expansion.Fits(bs[0], ideal);
      RoomOfFitting(bs[0], ideal);
      hide Earned;
      EarnedTogether(Room(bs[0]), TotalRoom(bs[1..]), |bs[1..]|, bs[0].count, Expansion.TotalCount(bs[1..]), ideal);
    }
  }

  /** At most `m` items per new bucket make an ideal chain length of at most `m`. */
  lemma IdealAtMost(n: nat, d: nat, m: nat)
    requires d > 0 && n <= d * m
    ensures CeilDiv(n, d) <= m && n <= d * CeilDiv(n, d)
  {
    Expansion.CeilIsLeast(n, d, m);
    CeilCovers(n, d);
  }

  lemma CeilCovers(n: nat, d: nat)
    requires d > 0
    ensures n <= d * CeilDiv(n, d)
  {
    assert n == d * (n / d) + n % d;
    Distribute(d, n / d, 1);
  }

  /** An expansion at no more than 30 items per old bucket leaves light buckets. */
  lemma ExpansionIsLight(bs: seq<Bucket>, n: nat)
    requires |bs| > 0 && 0 < n == Expansion.TotalCount(bs) && n <= |bs| * 15
    requires Expansion.WithinMultiplier(bs, CeilDiv(n, |bs|))
    ensures Light(bs) && CeilDiv(n, |bs|) <= 15
  {
    hide Expansion.WithinMultiplier, TotalRoom;
    var ideal := CeilDiv(n, |bs|);
    IdealAtMost(n, |bs|, 15);
    IdealIsPositive(n, |bs|);
    hide CeilDiv;
    RoomOfAllFitting(bs, ideal);
    LessRoom(TotalRoom(bs), |bs|, n, ideal);
    ChainsFit(bs, ideal);
  }

  lemma IdealIsPositive(n: nat, d: nat)
    requires n > 0 && d > 0
    ensures CeilDiv(n, d) > 0
  {
  }

  lemma ChainsFit(bs: seq<Bucket>, ideal: nat)
    requires Expansion.WithinMultiplier(bs, ideal) && ideal <= 15
    ensures forall j :: 0 <= j < |bs| ==> bs[j].count <= 15 * (bs[j].expandMult + 1)
  {
    forall j | 0 <= j < |bs| ensures bs[j].count <= 15 * (bs[j].expandMult + 1) {
      assert Expansion.Fits(bs[j], ideal);
      Expansion.FitsBounds(bs[j], ideal);
      AtMostFifteenfold(ideal, bs[j].expandMult + 1);
    }
  }

  lemma LessRoom(room: nat, d: nat, n: nat, ideal: nat)
    requires ideal > 0 && n > 0 && n <= d * ideal && Earned(room, d, n, ideal)
    ensures room < 30 * d
  {
    assert ideal * room < 30 * (ideal * d);
    assert 30 * (ideal * d) == ideal * (30 * d);
    FactorKeepsOrder(ideal, room, 30 * d);
  }

  lemma FactorKeepsOrder(a: nat, x: nat, y: nat)
    ensures x >= y ==> a * x >= a * y
  {
    if x >= y {
      Distribute(a, y, x - y);
    }
  }
}
