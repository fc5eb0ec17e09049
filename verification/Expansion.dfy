/** HASH_EXPAND_BUCKETS: every handle moves from its old chain to one of twice as many new ones. */
module Expansion {
  import opened Bits
  import opened Elements
  import opened Chains

  // ----- where handles go

  /** The old bucket whose handles may end in new bucket `j`. */
  function Parent(j: nat, n: nat): (i: nat)
    requires j < 2 * n
    ensures i < n
  {
    if j < n then j else j - n
  }

  lemma SlotOfParent(h: nat, n: nat)
    requires n > 0
    ensures Slot(h, n) == Parent(Slot(h, 2 * n), n)
  {
    var q, j := h / (2 * n), h % (2 * n);
    assert h == (2 * n) * q + j;
    assert (2 * n) * q == n * (2 * q);
    assert n * (2 * q + 1) == n * (2 * q) + n;
    if j < n {
      QuotientIsUnique(h, n, 2 * q, j);
    } else {
      QuotientIsUnique(h, n, 2 * q + 1, j - n);
    }
  }

  /** New chain `j` after the handles of the old chain `c` have been pushed one by one. */
  ghost function Redistributed(c: seq<Element>, n2: nat, j: nat): seq<Element>
    requires n2 > 0
    reads c`hashv
  {
    if c == [] then []
    else
      var e := c[|c| - 1];
      (if Slot(e.hashv, n2) == j then [e] else []) + Redistributed(c[..|c| - 1], n2, j)
  }

  /** A new chain holds exactly the handles of the old chain that the doubled mask selects. */
  lemma {:induction false} RedistributedMembers(c: seq<Element>, n2: nat, j: nat)
    requires n2 > 0
    ensures forall e :: e in Redistributed(c, n2, j) <==> e in c && Slot(e.hashv, n2) == j
  {
    if c != [] {
      RedistributedMembers(c[..|c| - 1], n2, j);
      assert c == c[..|c| - 1] + [c[|c| - 1]];
    }
  }

  /** New chain `j` when old chains up to `i` and the first `k` handles of chain `i` have been moved. */
  ghost function Moved(chains: seq<seq<Element>>, i: nat, k: nat, j: nat): seq<Element>
    requires j < 2 * |chains| && (i < |chains| ==> k <= |chains[i]|)
    reads Members(chains)`hashv
  {
    var b := Parent(j, |chains|);
    if b < i then Redistributed(chains[b], 2 * |chains|, j)
    else if b == i then Redistributed(chains[b][..k], 2 * |chains|, j)
    else []
  }

  ghost predicate AllMoved(chains: seq<seq<Element>>, i: nat, k: nat, newChains: seq<seq<Element>>)
    requires i < |chains| ==> k <= |chains[i]|
    reads Members(chains)`hashv
  {
    |newChains| == 2 * |chains| && forall j :: 0 <= j < |newChains| ==> newChains[j] == Moved(chains, i, k, j)
  }

  // ----- counting

  function Over(count: nat, ideal: nat): nat {
    if count > ideal then count - ideal else 0
  }

  /** The handles whose chain position exceeds the ideal chain length. */
  function Excess(bs: seq<Bucket>, ideal: nat): nat {
    if bs == [] then 0 else Over(bs[0].count, ideal) + Excess(bs[1..], ideal)
  }

  function TotalCount(bs: seq<Bucket>): nat {
    if bs == [] then 0 else bs[0].count + TotalCount(bs[1..])
  }

  /** The chain positions at or behind the ideal length, in chains from `k` on. */
  ghost function BehindIdeal(chains: seq<seq<Element>>, ideal: nat, k: nat): set<(nat, nat)> {
    set b: nat, p: nat | k <= b < |chains| && ideal <= p < |chains[b]| :: (b, p)
  }

  ghost function Row(b: nat, ideal: nat, n: nat): set<(nat, nat)> {
    set p: nat | ideal <= p < n :: (b, p)
  }

  lemma {:induction false} RowCount(b: nat, ideal: nat, n: nat)
    ensures |Row(b, ideal, n)| == if n > ideal then n - ideal else 0
  {
    if n > ideal {
      RowCount(b, ideal, n - 1);
      assert Row(b, ideal, n) == Row(b, ideal, n - 1) + {(b, n - 1)};
    } else {
      assert Row(b, ideal, n) == {};
    }
  }

  /** The excess counts the positions at or behind the ideal length. */
  lemma {:induction false} ExcessIsBehind(bs: seq<Bucket>, chains: seq<seq<Element>>, ideal: nat, k: nat)
    requires |bs| == |chains| && k <= |bs| && forall b :: 0 <= b < |bs| ==> bs[b].count == |chains[b]|
    ensures Excess(bs[k..], ideal) == |BehindIdeal(chains, ideal, k)|
    decreases |bs| - k
  {
    if k == |bs| {
      assert BehindIdeal(chains, ideal, k) == {};
    } else {
      ExcessIsBehind(bs, chains, ideal, k + 1);
      RowCount(k, ideal, |chains[k]|);
      assert bs[k..][1..] == bs[k + 1..];
      assert BehindIdeal(chains, ideal, k) == BehindIdeal(chains, ideal, k + 1) + Row(k, ideal, |chains[k]|);
    }
  }

  lemma {:induction false} ExcessOfUpdate(bs: seq<Bucket>, j: nat, b: Bucket, ideal: nat)
    requires j < |bs|
    ensures Excess(bs[j := b], ideal) + Over(bs[j].count, ideal) == Excess(bs, ideal) + Over(b.count, ideal)
  {
    if j == 0 {
      assert bs[0 := b][1..] == bs[1..];
    } else {
      ExcessOfUpdate(bs[1..], j - 1, b, ideal);
      assert bs[j := b][1..] == bs[1..][j - 1 := b];
    }
  }

  lemma {:induction false} ExcessOfEmpty(bs: seq<Bucket>, ideal: nat)
    requires forall j :: 0 <= j < |bs| ==> bs[j].count == 0
    ensures Excess(bs, ideal) == 0
  {
    if bs != [] {
      ExcessOfEmpty(bs[1..], ideal);
    }
  }

  /** With at most `m` handles in every bucket there are at most `m` times as many handles as buckets. */
  lemma {:induction false} CountsBelow(bs: seq<Bucket>, m: nat)
    requires forall j :: 0 <= j < |bs| ==> bs[j].count <= m
    ensures TotalCount(bs) <= |bs| * m
  {
    if bs != [] {
      CountsBelow(bs[1..], m);
      assert |bs| * m == (|bs| - 1) * m + m;
    }
  }

  lemma {:induction false} ExcessAndOneFullChain(bs: seq<Bucket>, ideal: nat, j: nat)
    requires j < |bs| && bs[j].count >= ideal
    ensures Excess(bs, ideal) + ideal <= TotalCount(bs)
  {
    if j == 0 {
      ExcessBelowTotal(bs[1..], ideal);
    } else {
      ExcessAndOneFullChain(bs[1..], ideal, j - 1);
    }
  }

  lemma {:induction false} ExcessBelowTotal(bs: seq<Bucket>, ideal: nat)
    ensures Excess(bs, ideal) <= TotalCount(bs)
  {
    if bs != [] {
      ExcessBelowTotal(bs[1..], ideal);
    }
  }

  /** By pigeonhole some chain has at least ceil(n/b) handles, so that many are never non-ideal. */
  lemma NonidealBound(bs: seq<Bucket>, n: nat)
    requires |bs| > 0 && TotalCount(bs) == n
    ensures Excess(bs, CeilDiv(n, |bs|)) + CeilDiv(n, |bs|) <= n
  {
    var ideal := CeilDiv(n, |bs|);
    if ideal == 0 {
      ExcessBelowTotal(bs, 0);
    } else if forall j :: 0 <= j < |bs| ==> bs[j].count <= ideal - 1 {
      CountsBelow(bs, ideal - 1);
      CeilIsLeast(n, |bs|, ideal - 1);
    } else {
      var j :| 0 <= j < |bs| && bs[j].count > ideal - 1;
      ExcessAndOneFullChain(bs, ideal, j);
    }
  }

  lemma CeilIsLeast(n: nat, d: nat, m: nat)
    requires d > 0 && n <= d * m
    ensures CeilDiv(n, d) <= m
  {
    var q, r := n / d, n % d;
    assert n == d * q + r;
    assert d * (q - m) == d * q - d * m;
    ProductAtLeast(d, q - m);
  }

  // ----- the algorithm

  /** The multiplier a new bucket has: it rises by one with every handle behind the ideal length, until the chain no
      longer exceeds that many ideal lengths. */
  ghost predicate Fits(b: Bucket, ideal: nat) {
    && ideal > 0
    && b.expandMult == if b.count <= ideal then 0 else Min(b.count - ideal, CeilDiv(b.count, ideal))
  }

  /** The multiplier is large enough for the chain, and the chain is long enough for the multiplier. */
  lemma FitsBounds(b: Bucket, ideal: nat)
    requires Fits(b, ideal)
    ensures b.count <= (b.expandMult + 1) * ideal
    ensures b.expandMult > 0 ==> b.count > ideal && (b.expandMult - 1) * ideal < b.count
  {
    hide CeilDiv;
    if b.count > ideal {
      var q, m := CeilDiv(b.count, ideal), b.expandMult;
      CeilBounds(b.count, ideal, q);
      FactorsInOrder(m - 1, q - 1, ideal);
      if m == q {
        FactorsInOrder(q, m + 1, ideal);
      } else {
        SumWithinProduct(m, ideal);
      }
    }
  }

  lemma SumWithinProduct(m: nat, d: nat)
    requires d > 0
    ensures m + d <= (m + 1) * d
  {
    FactorsInOrder(1, d, m);
    assert (m + 1) * d == m * d + d;
  }

  /** The rounded-up quotient is the one number of ideal lengths that just holds `n`. */
  lemma CeilBounds(n: nat, d: nat, q: nat)
    requires n > 0 && d > 0
    ensures CeilDiv(n, d) == q <==> q > 0 && (q - 1) * d < n <= q * d
  {
    var c := CeilDiv(n, d);
    assert n == d * (n / d) + n % d;
    assert (c - 1) * d < n <= c * d && c > 0;
    if q > c {
      FactorsInOrder(c, q - 1, d);
    } else if 0 < q < c {
      FactorsInOrder(q, c - 1, d);
    }
  }

  lemma FactorsInOrder(x: int, y: int, d: nat)
    requires x <= y
    ensures x * d <= y * d
  {
    assert (y - x) * d == y * d - x * d;
    assert (y - x) * d >= 0;
  }

  ghost predicate WithinMultiplier(bs: seq<Bucket>, ideal: nat) {
    forall j :: 0 <= j < |bs| ==> Fits(bs[j], ideal)
  }

  /** One handle moves to its new bucket; `nonideal` counts it when its position is past the ideal length. */
  method MoveHandle(bs: array<Bucket>, j: nat, e: Element, ideal: nat, nonideal: nat, ghost chains: seq<seq<Element>>)
    returns (nonideal': nat)
    requires AllLinked(bs[..], chains) && Slotted(chains) && WithinMultiplier(bs[..], ideal) && ideal > 0
    requires j < bs.Length && Slot(e.hashv, bs.Length) == j && e !in chains[j]
    requires nonideal == Excess(bs[..], ideal)
    modifies bs, e`hhPrev, e`hhNext, chains[j]`hhPrev
    ensures AllLinked(bs[..], chains[j := [e] + chains[j]]) && Slotted(chains[j := [e] + chains[j]])
    ensures WithinMultiplier(bs[..], ideal) && nonideal' == Excess(bs[..], ideal)
  {
    hide NextLinked, PrevLinked, WithinMultiplier;
    ghost var before := bs[..];
    nonideal' := nonideal;
    var count := bs[j].count + 1;
    var mult := bs[j].expandMult;
    assert Linked(bs[..][j], chains[j]);
    if count > ideal {
      nonideal' := nonideal' + 1;
      if count > mult * ideal {
        mult := mult + 1;
      }
    }
    MultiplierStep(before, j, Bucket(e, count, mult), ideal);
    ExcessOfUpdate(before, j, Bucket(e, count, mult), ideal);
    bs[j] := bs[j].(expandMult := mult);
    forall b | 0 <= b < |chains| ensures Linked(bs[b], chains[b]) {
      assert Linked(before[b], chains[b]);
    }
    PushFront(bs, j, e, chains);
    assert Linked(bs[..][j], chains[j := [e] + chains[j]][j]);
    assert bs[..] == before[j := Bucket(e, count, mult)];
  }

  lemma MultiplierStep(bs: seq<Bucket>, j: nat, b: Bucket, ideal: nat)
    requires WithinMultiplier(bs, ideal) && j < |bs| && b.count == bs[j].count + 1
    requires b.expandMult == bs[j].expandMult + if b.count > ideal && b.count > bs[j].expandMult * ideal then 1 else 0
    requires ideal > 0
    ensures WithinMultiplier(bs[j := b], ideal)
  {
    hide Fits;
    OneMoreFits(bs[j], b, ideal);
  }

  lemma OneMoreFits(b: Bucket, b': Bucket, ideal: nat)
    requires Fits(b, ideal) && b'.count == b.count + 1
    requires b'.expandMult == b.expandMult + if b'.count > ideal && b'.count > b.expandMult * ideal then 1 else 0
    ensures Fits(b', ideal)
  {
    hide CeilDiv;
    if b.count > ideal {
      NextMultiplier(b.count, b.expandMult, ideal);
    } else if b.count == ideal {
      CeilBounds(b'.count, ideal, CeilDiv(b'.count, ideal));
    }
  }

  lemma NextMultiplier(c: nat, m: nat, ideal: nat)
    requires c > ideal > 0 && m == Min(c - ideal, CeilDiv(c, ideal))
    ensures m + (if c + 1 > m * ideal then 1 else 0) == Min(c + 1 - ideal, CeilDiv(c + 1, ideal))
  {
    hide CeilDiv;
    var q := CeilDiv(c, ideal);
    CeilBounds(c, ideal, q);
    NextCeil(c, ideal, q);
    if m < q {
      FactorsInOrder(m, q - 1, ideal);
    }
  }

  lemma NextCeil(c: nat, ideal: nat, q: nat)
    requires c > 0 && ideal > 0 && q > 0 && (q - 1) * ideal < c <= q * ideal
    ensures CeilDiv(c + 1, ideal) == if c == q * ideal then q + 1 else q
  {
    hide CeilDiv;
    assert (q + 1) * ideal == q * ideal + ideal;
    CeilBounds(c + 1, ideal, if c == q * ideal then q + 1 else q);
  }

  /** The `hh_next` links of all handles that have not been moved yet. */
  ghost predicate Unmoved(chains: seq<seq<Element>>, i: nat, k: nat)
    requires i < |chains| ==> k <= |chains[i]|
    reads Members(chains)`hhNext
  {
    && (i < |chains| ==> forall p :: k <= p < |chains[i]| ==> chains[i][p].hhNext == After(chains[i], p))
    && forall b, p :: i < b < |chains| && 0 <= p < |chains[b]| ==> chains[b][p].hhNext == After(chains[b], p)
  }

  /** Pushing handle `k` of chain `i` onto its new chain is the next step of the redistribution. */
  lemma MoveStep(chains: seq<seq<Element>>, i: nat, k: nat, newChains: seq<seq<Element>>)
    requires Slotted(chains) && i < |chains| && k < |chains[i]| && AllMoved(chains, i, k, newChains)
    ensures var e := chains[i][k];
            var j := Slot(e.hashv, |newChains|);
            AllMoved(chains, i, k + 1, newChains[j := [e] + newChains[j]]) && e !in newChains[j]
  {
    var c, n2 := chains[i], 2 * |chains|;
    var e := c[k];
    var j := Slot(e.hashv, n2);
    SlotOfParent(e.hashv, |chains|);
    assert c[..k + 1][..k] == c[..k];
    RedistributedMembers(c[..k], n2, j);
    assert newChains[j] == Moved(chains, i, k, j);
    assert e !in c[..k];
    var newChains' := newChains[j := [e] + newChains[j]];
    forall b | 0 <= b < |newChains'| ensures newChains'[b] == Moved(chains, i, k + 1, b) {
      assert newChains[b] == Moved(chains, i, k, b);
    }
  }

  /** A chain that has been emptied counts as done. */
  lemma ChainDone(chains: seq<seq<Element>>, i: nat, newChains: seq<seq<Element>>)
    requires i < |chains| && AllMoved(chains, i, |chains[i]|, newChains)
    ensures AllMoved(chains, i + 1, 0, newChains)
  {
    forall j | 0 <= j < |newChains| ensures newChains[j] == Moved(chains, i + 1, 0, j) {
      assert newChains[j] == Moved(chains, i, |chains[i]|, j);
      assert chains[i][..|chains[i]|] == chains[i];
      if Parent(j, |chains|) == i + 1 {
        assert chains[i + 1][..0] == [];
      }
    }
  }

  lemma MovedIsOld(chains: seq<seq<Element>>, i: nat, k: nat, newChains: seq<seq<Element>>, j: nat, p: nat)
    requires i < |chains| && k <= |chains[i]| && AllMoved(chains, i, k, newChains)
    requires j < |newChains| && p < |newChains[j]|
    ensures newChains[j][p] in Members(chains)
  {
    assert newChains[j] == Moved(chains, i, k, j);
    var b := Parent(j, |chains|);
    var e := newChains[j][p];
    if b < i {
      RedistributedMembers(chains[b], 2 * |chains|, j);
    } else if b == i {
      RedistributedMembers(chains[b][..k], 2 * |chains|, j);
      assert e in chains[b][..k];
    }
    assert e in chains[b];
    var q :| 0 <= q < |chains[b]| && chains[b][q] == e;
  }

  /** The handle moved next is in no chain that still has to be moved, and the new chains hold old handles only. */
  lemma MovedApart(chains: seq<seq<Element>>, i: nat, k: nat, newChains: seq<seq<Element>>)
    requires Slotted(chains) && i < |chains| && k < |chains[i]| && AllMoved(chains, i, k, newChains)
    ensures forall j, p :: 0 <= j < |newChains| && 0 <= p < |newChains[j]| ==> newChains[j][p] in Members(chains)
    ensures forall b, p :: i < b < |chains| && 0 <= p < |chains[b]| ==> chains[b][p] != chains[i][k]
    ensures forall p :: k < p < |chains[i]| ==> chains[i][p] != chains[i][k]
  {
    hide AllMoved;
    forall j, p | 0 <= j < |newChains| && 0 <= p < |newChains[j]| ensures newChains[j][p] in Members(chains) {
      MovedIsOld(chains, i, k, newChains, j, p);
    }
    forall b, p | i < b < |chains| && 0 <= p < |chains[b]| ensures chains[b][p] != chains[i][k] {
      assert Slot(chains[i][k].hashv, |chains|) == i;
    }
  }

  /** HASH_TO_BKT. */
  function ToBucket(hashv: nat, numBuckets: nat): nat
    requires numBuckets > 0
  {
    And(hashv, numBuckets - 1)
  }

  lemma ToBucketIsSlot(hashv: nat, numBuckets: nat, log2: nat)
    requires numBuckets == Pow2(log2)
    ensures ToBucket(hashv, numBuckets) == Slot(hashv, numBuckets)
  {
    MaskIsRemainder(hashv, log2);
  }

  /** The state of the redistribution in front of handle `k` of chain `i`. */
  ghost predicate Progress(chains: seq<seq<Element>>, i: nat, k: nat, nbs: seq<Bucket>, newChains: seq<seq<Element>>,
                           ideal: nat, nonideal: nat)
    requires i < |chains| ==> k <= |chains[i]|
    reads Members(chains)`hashv, Members(chains)`hhNext
    reads Members(newChains)`hashv, Members(newChains)`hhNext, Members(newChains)`hhPrev
  {
    && AllMoved(chains, i, k, newChains) && Unmoved(chains, i, k)
    && AllLinked(nbs, newChains) && Slotted(newChains)
    && WithinMultiplier(nbs, ideal) && nonideal == Excess(nbs, ideal)
  }

  lemma SameLength(bs: seq<Bucket>, chains: seq<seq<Element>>)
    requires AllLinked(bs, chains)
    ensures |bs| == |chains|
  {
  }

  /** The inner loop: one old chain is emptied from its head. */
  method MoveChain(head: Element?, nbs: array<Bucket>, ideal: nat, nonideal: nat, log2: nat,
                   ghost i: nat, ghost chains: seq<seq<Element>>, ghost newChains: seq<seq<Element>>)
    returns (nonideal': nat, ghost newChains': seq<seq<Element>>)
    requires Slotted(chains) && i < |chains| && Progress(chains, i, 0, nbs[..], newChains, ideal, nonideal) && ideal > 0
    requires head == (if chains[i] == [] then null else chains[i][0]) && nbs.Length == Pow2(log2)
    modifies nbs, Members(chains)`hhPrev, Members(chains)`hhNext
    ensures Progress(chains, i + 1, 0, nbs[..], newChains', ideal, nonideal')
  {
    hide AllLinked, Slotted, WithinMultiplier, AllMoved, Progress;
    ghost var c, k := chains[i], 0;
    var thh := head;
    nonideal', newChains' := nonideal, newChains;
    while thh != null
      invariant k <= |c| && thh == if k < |c| then c[k] else null
      invariant Progress(chains, i, k, nbs[..], newChains', ideal, nonideal')
      decreases |c| - k
    {
      thh, nonideal', newChains' := MoveNext(thh, nbs, ideal, nonideal', log2, i, k, chains, newChains');
      k := k + 1;
    }
    ChainFinished(chains, i, nbs[..], newChains', ideal, nonideal');
  }

  lemma ChainFinished(chains: seq<seq<Element>>, i: nat, nbs: seq<Bucket>, newChains: seq<seq<Element>>, ideal: nat,
                      nonideal: nat)
    requires i < |chains| && Progress(chains, i, |chains[i]|, nbs, newChains, ideal, nonideal)
    ensures Progress(chains, i + 1, 0, nbs, newChains, ideal, nonideal)
  {
    hide AllLinked, Slotted, WithinMultiplier, AllMoved;
    ChainDone(chains, i, newChains);
  }

  /** One iteration of the inner loop; the result is the saved successor. */
  method MoveNext(thh: Element, nbs: array<Bucket>, ideal: nat, nonideal: nat, log2: nat,
                  ghost i: nat, ghost k: nat, ghost chains: seq<seq<Element>>, ghost newChains: seq<seq<Element>>)
    returns (next: Element?, nonideal': nat, ghost newChains': seq<seq<Element>>)
    requires Slotted(chains) && i < |chains| && k < |chains[i]| && thh == chains[i][k]
    requires Progress(chains, i, k, nbs[..], newChains, ideal, nonideal) && ideal > 0 && nbs.Length == Pow2(log2)
    modifies nbs, Members(chains)`hhPrev, Members(chains)`hhNext
    ensures Progress(chains, i, k + 1, nbs[..], newChains', ideal, nonideal')
    ensures next == if k + 1 < |chains[i]| then chains[i][k + 1] else null
  {
    hide AllLinked, Slotted, WithinMultiplier, AllMoved;
    SameLength(nbs[..], newChains);
    assert thh.hhNext == Chains.After(chains[i], k);
    next := thh.hhNext;
    ToBucketIsSlot(thh.hashv, nbs.Length, log2);
    MoveStep(chains, i, k, newChains);
    MovedApart(chains, i, k, newChains);
    var j := ToBucket(thh.hashv, nbs.Length);
    nonideal' := MoveHandle(nbs, j, thh, ideal, nonideal, newChains);
    newChains' := newChains[j := [thh] + newChains[j]];
  }

  // ----- the whole redistribution

  /** Every new chain has its share of its parent chain. */
  ghost predicate Doubled(chains: seq<seq<Element>>, newChains: seq<seq<Element>>)
    reads Members(chains)`hashv
  {
    && |newChains| == 2 * |chains|
    && forall j :: 0 <= j < |newChains| ==> newChains[j] == Redistributed(chains[Parent(j, |chains|)], |newChains|, j)
  }

  /** What an expansion leaves behind: the new chains, their bookkeeping, and every old handle in its place. */
  ghost predicate Expanded(chains: seq<seq<Element>>, nbs: seq<Bucket>, newChains: seq<seq<Element>>, ideal: nat,
                           nonideal: nat)
    reads Members(chains)`hashv
    reads Members(newChains)`hashv, Members(newChains)`hhNext, Members(newChains)`hhPrev
  {
    && AllLinked(nbs, newChains) && Slotted(newChains)
    && Doubled(chains, newChains)
    && WithinMultiplier(nbs, ideal) && nonideal == Excess(nbs, ideal)
  }

  ghost predicate HeadsMatch(bs: seq<Bucket>, chains: seq<seq<Element>>) {
    |bs| == |chains| && forall b :: 0 <= b < |bs| ==> bs[b].hhHead == if chains[b] == [] then null else chains[b][0]
  }

  /** The two nested loops of HASH_EXPAND_BUCKETS over zeroed new buckets. */
  method Redistribute(bs: array<Bucket>, ideal: nat, log2: nat, ghost chains: seq<seq<Element>>)
    returns (nbs: array<Bucket>, nonideal: nat, ghost newChains: seq<seq<Element>>)
    requires AllLinked(bs[..], chains) && Slotted(chains) && ideal > 0 && bs.Length == Pow2(log2)
    modifies Members(chains)`hhPrev, Members(chains)`hhNext
    ensures fresh(nbs) && nbs.Length == 2 * bs.Length
    ensures Expanded(chains, nbs[..], newChains, ideal, nonideal)
  {
    hide Slotted, WithinMultiplier, AllLinked, AllMoved, Unmoved;
    nbs := new Bucket[2 * bs.Length](_ => Bucket(null, 0, 0));
    nonideal := 0;
    newChains := seq(nbs.Length, _ => []);
    ghost var heads := bs[..];
    SameLength(heads, chains);
    Start(heads, chains, nbs[..], newChains, ideal);
    for i := 0 to bs.Length
      invariant bs[..] == heads && HeadsMatch(heads, chains) && nbs.Length == 2 * bs.Length == 2 * |chains|
      invariant Progress(chains, i, 0, nbs[..], newChains, ideal, nonideal)
    {
      nonideal, newChains := MoveChain(bs[i].hhHead, nbs, ideal, nonideal, log2 + 1, i, chains, newChains);
    }
    SameLength(nbs[..], newChains);
    Finish(chains, newChains);
  }

  lemma Start(bs: seq<Bucket>, chains: seq<seq<Element>>, nbs: seq<Bucket>, newChains: seq<seq<Element>>, ideal: nat)
    requires AllLinked(bs, chains) && Slotted(chains) && |nbs| == |newChains| == 2 * |chains|
    requires forall j :: 0 <= j < |nbs| ==> nbs[j] == Bucket(null, 0, 0) && newChains[j] == []
    requires ideal > 0
    ensures Progress(chains, 0, 0, nbs, newChains, ideal, 0) && HeadsMatch(bs, chains)
  {
    ExcessOfEmpty(nbs, ideal);
    assert AllMoved(chains, 0, 0, newChains) by {
      forall j | 0 <= j < |newChains| ensures newChains[j] == Moved(chains, 0, 0, j) {
        if Parent(j, |chains|) == 0 {
          assert chains[0][..0] == [];
        }
      }
    }
    assert Unmoved(chains, 0, 0) by {
      forall b, p | 0 <= b < |chains| && 0 <= p < |chains[b]| ensures chains[b][p].hhNext == After(chains[b], p) {
        assert Linked(bs[b], chains[b]);
      }
    }
    assert forall b :: 0 <= b < |bs| ==> Linked(bs[b], chains[b]);
  }

  lemma Finish(chains: seq<seq<Element>>, newChains: seq<seq<Element>>)
    requires |chains| > 0 && AllMoved(chains, |chains|, 0, newChains)
    ensures forall j :: 0 <= j < |newChains| ==>
             newChains[j] == Redistributed(chains[Parent(j, |chains|)], |newChains|, j)
  {
    forall j | 0 <= j < |newChains| ensures newChains[j] == Redistributed(chains[Parent(j, |chains|)], |newChains|, j) {
      assert newChains[j] == Moved(chains, |chains|, 0, j);
    }
  }
}
