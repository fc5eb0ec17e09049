/** What unload_list does to a list of elements and their bucket chains, for any keys. */
module Unloading {
  import opened Elements
  import opened Chains
  import opened HashTables
  import Expansion

  /** Whether the walk follows a freed element, and else which elements stay. */
  datatype Outcome = Faults | Ends(rest: seq<Element>)

  /** The elements of the list are exactly those in the chains, each in the bucket of its key. */
  ghost predicate Consistent(l: seq<Element>, chains: seq<seq<Element>>, hash: string -> nat)
    reads l`hashv, l`key, Members(chains)`hashv
  {
    Distinct(l) && Slotted(chains) && Covers(l, chains, null) && Hashed(l, hash)
  }

  lemma {:induction false} MinusIsPart(l: seq<Element>, e: Element)
    ensures forall x :: x in Minus(l, e) ==> x in l
    ensures forall i :: 0 <= i < |Minus(l, e)| ==> Minus(l, e)[i] in l
  {
    if l != [] {
      MinusIsPart(l[1..], e);
      assert l == [l[0]] + l[1..];
    }
  }

  lemma ChainsMinusIsPart(chains: seq<seq<Element>>, e: Element)
    ensures Members(ChainsMinus(chains, e)) <= Members(chains)
  {
    var chains' := ChainsMinus(chains, e);
    forall x | x in Members(chains') ensures x in Members(chains) {
      var b, i :| 0 <= b < |chains'| && 0 <= i < |chains'[b]| && chains'[b][i] == x;
      MinusIsPart(chains[b], e);
      assert x in chains[b];
    }
  }

  /** The position of the walk's next element after `v` has been deleted at position `k`. */
  ghost function NextPosition(l: seq<Element>, k: nat, v: Element): nat
    requires k < |l|
  {
    if v in l[..k + 1] then k else k + 1
  }

  /** unload_list from position `k` on: the key of the element there is looked up and what is found is deleted; the
      walk goes on at the successor, which was saved before. */
  ghost function Unload(l: seq<Element>, chains: seq<seq<Element>>, hash: string -> nat, k: nat): Outcome
    reads l`key, Members(chains)`key
    decreases |l| - k
  {
    if k >= |l| then Ends(l)
    else
      var v := FoundIn(chains, hash, l[k].key);
      if v == null || v !in l then Unload(l, chains, hash, k + 1)
      else if v == After(l, k) then Faults
      else
        MinusIsPart(l, v);
        ChainsMinusIsPart(chains, v);
        Unload(Minus(l, v), ChainsMinus(chains, v), hash, NextPosition(l, k, v))
  }

  /** `a` comes before `b` in their bucket chain. */
  ghost predicate Precedes(chains: seq<seq<Element>>, a: Element, b: Element) {
    exists s :: 0 <= s < |chains| && PrecedesIn(chains[s], a, b)
  }

  ghost predicate PrecedesIn(c: seq<Element>, a: Element, b: Element) {
    exists p, q :: 0 <= p < q < |c| && c[p] == a && c[q] == b
  }

  /** Elements with the same key are in their bucket chain in the order in which they are in the list. */
  ghost predicate InChainOrder(l: seq<Element>, chains: seq<seq<Element>>)
    reads l`key
  {
    forall i, j :: 0 <= i < j < |l| && l[i].key == l[j].key ==> Precedes(chains, l[i], l[j])
  }

  // ----- what a lookup finds

  lemma FoundIsThere(l: seq<Element>, chains: seq<seq<Element>>, hash: string -> nat, k: nat)
    requires Consistent(l, chains, hash) && k < |l|
    ensures var v := FoundIn(chains, hash, l[k].key); v != null && v in l && v.key == l[k].key
  {
    var c := chains[Slot(hash(l[k].key), |chains|)];
    SameBucket(l, chains, hash, l[k].key);
    var p :| 0 <= p < |c| && c[p] == l[k];
    var v := FirstWith(c, l[k].key);
    var q :| 0 <= q < |c| && c[q] == v;
  }

  lemma {:induction false} FirstIsAhead(c: seq<Element>, key: string, e: Element)
    requires Distinct(c) && e in c && e.key == key && FirstWith(c, key) != e
    ensures FirstWith(c, key) != null && PrecedesIn(c, FirstWith(c, key), e) && !PrecedesIn(c, e, FirstWith(c, key))
  {
    var q :| 0 <= q < |c| && c[q] == e;
    var v := FirstWith(c, key);
    if c[0].key != key {
      assert c[1..][q - 1] == e;
      FirstIsAhead(c[1..], key, e);
      var p', q' :| 0 <= p' < q' < |c[1..]| && c[1..][p'] == v && c[1..][q'] == e;
      assert c[p' + 1] == v && c[q' + 1] == e;
    }
  }

  /** Among the elements with one key the lookup finds the one in front of all others. */
  lemma FoundIsAhead(l: seq<Element>, chains: seq<seq<Element>>, hash: string -> nat, k: nat)
    requires Consistent(l, chains, hash) && k < |l|
    ensures var v := FoundIn(chains, hash, l[k].key);
            v != null && (v != l[k] ==> Precedes(chains, v, l[k]) && !Precedes(chains, l[k], v))
  {
    hide FirstWith;
    var s := Slot(hash(l[k].key), |chains|);
    FoundIsThere(l, chains, hash, k);
    SameBucket(l, chains, hash, l[k].key);
    if FoundIn(chains, hash, l[k].key) != l[k] {
      FirstIsAhead(chains[s], l[k].key, l[k]);
      forall s' | 0 <= s' < |chains| && s' != s ensures l[k] !in chains[s'] {
        NotInOtherChain(chains, l[k], s');
      }
    }
  }

  // ----- what a deletion leaves

  lemma SlottedWithout(chains: seq<seq<Element>>, b: nat, k: nat)
    requires Slotted(chains) && b < |chains| && k < |chains[b]|
    ensures Slotted(chains[b := Without(chains[b], k)])
  {
    assert forall i :: 0 <= i < |chains[b]| - 1 ==> Without(chains[b], k)[i] == chains[b][if i < k then i else i + 1];
  }

  lemma HashedPart(l: seq<Element>, l': seq<Element>, hash: string -> nat)
    requires Hashed(l, hash) && forall i :: 0 <= i < |l'| ==> l'[i] in l
    ensures Hashed(l', hash)
  {
  }

  lemma {:induction false} DistinctMinus(l: seq<Element>, e: Element)
    requires Distinct(l)
    ensures Distinct(Minus(l, e))
  {
    if l != [] && l[0] != e {
      DistinctMinus(l[1..], e);
      MinusMembers(l[1..], e);
      assert l[0] !in l[1..];
    }
  }

  lemma ConsistentMinus(l: seq<Element>, chains: seq<seq<Element>>, hash: string -> nat, k: nat)
    requires Consistent(l, chains, hash) && k < |l|
    ensures Consistent(Minus(l, l[k]), ChainsMinus(chains, l[k]), hash)
  {
    hide Distinct, Hashed, Covers, Slotted, ChainsMinus;
    DistinctMinus(l, l[k]);
    MinusMembers(l, l[k]);
    HashedPart(l, Minus(l, l[k]), hash);
    ChainsMinusCover(l, chains, k);
  }

  lemma ChainsMinusCover(l: seq<Element>, chains: seq<seq<Element>>, k: nat)
    requires Distinct(l) && Slotted(chains) && Covers(l, chains, null) && k < |l|
    ensures Slotted(ChainsMinus(chains, l[k])) && Covers(Minus(l, l[k]), ChainsMinus(chains, l[k]), null)
  {
    hide Covers, ChainsMinus;
    var b := Slot(l[k].hashv, |chains|);
    var kc := ChainPosition(l, chains, k, b);
    MinusIsWithout(l, k);
    ChainWithoutIsMinus(chains, b, kc);
    SlottedWithout(chains, b, kc);
    CoversAfterRemoval(l, k, chains, b, kc);
  }

  lemma {:induction false} PrecedesInMinus(c: seq<Element>, e: Element, a: Element, b: Element)
    requires Distinct(c) && a != e && b != e
    ensures PrecedesIn(Minus(c, e), a, b) <==> PrecedesIn(c, a, b)
  {
    if e in c {
      var k :| 0 <= k < |c| && c[k] == e;
      MinusIsWithout(c, k);
      PrecedesInWithout(c, k, a, b);
    } else {
      MinusAbsent(c, e);
    }
  }

  lemma PrecedesInWithout(c: seq<Element>, k: nat, a: Element, b: Element)
    requires k < |c| && a != c[k] && b != c[k]
    ensures PrecedesIn(Without(c, k), a, b) <==> PrecedesIn(c, a, b)
  {
    var c' := Without(c, k);
    if PrecedesIn(c, a, b) {
      var p, q :| 0 <= p < q < |c| && c[p] == a && c[q] == b;
      assert c'[if p < k then p else p - 1] == a && c'[if q < k then q else q - 1] == b;
    }
    if PrecedesIn(c', a, b) {
      var p, q :| 0 <= p < q < |c'| && c'[p] == a && c'[q] == b;
      assert c[if p < k then p else p + 1] == a && c[if q < k then q else q + 1] == b;
    }
  }

  /** A deletion keeps the order of all other elements in their chains. */
  lemma PrecedesMinus(chains: seq<seq<Element>>, e: Element, a: Element, b: Element)
    requires Slotted(chains) && a != e && b != e
    ensures Precedes(ChainsMinus(chains, e), a, b) <==> Precedes(chains, a, b)
  {
    hide PrecedesIn;
    var chains' := ChainsMinus(chains, e);
    forall s | 0 <= s < |chains| ensures PrecedesIn(chains'[s], a, b) <==> PrecedesIn(chains[s], a, b) {
      PrecedesInMinus(chains[s], e, a, b);
    }
  }

  // ----- when the registry is unloaded cleanly

  /** Once an element stays behind the walk, some element stays for good. */
  lemma {:induction false} StaysBehind(l: seq<Element>, chains: seq<seq<Element>>, hash: string -> nat, k: nat)
    requires k <= |l|
    ensures match Unload(l, chains, hash, k) { case Faults => true case Ends(rest) => |rest| >= k }
    decreases |l| - k
  {
    if k < |l| {
      var v := FoundIn(chains, hash, l[k].key);
      if v == null || v !in l {
        StaysBehind(l, chains, hash, k + 1);
      } else if v != After(l, k) {
        PositionInBounds(l, k, v);
        StaysBehind(Minus(l, v), ChainsMinus(chains, v), hash, NextPosition(l, k, v));
      }
    }
  }

  lemma PositionInBounds(l: seq<Element>, k: nat, v: Element)
    requires k < |l| && v in l && v != After(l, k)
    ensures k <= NextPosition(l, k, v) <= |Minus(l, v)|
  {
    if NextPosition(l, k, v) == k + 1 {
      assert l == l[..k + 1] + l[k + 1..];
    }
  }

  /** When the first element is what its key finds, the others decide. */
  lemma HeadInOrder(l: seq<Element>, chains: seq<seq<Element>>, hash: string -> nat)
    requires Consistent(l, chains, hash) && l != [] && FoundIn(chains, hash, l[0].key) == l[0]
    ensures InChainOrder(l, chains) <==> InChainOrder(l[1..], ChainsMinus(chains, l[0]))
  {
    hide Slotted, Covers, Hashed, Precedes, ChainsMinus, FoundIn;
    var r, chains' := l[1..], ChainsMinus(chains, l[0]);
    forall i, j | 0 <= i < j < |r| ensures Precedes(chains', r[i], r[j]) <==> Precedes(chains, l[i + 1], l[j + 1]) {
      PrecedesMinus(chains, l[0], r[i], r[j]);
    }
    forall j | 1 <= j < |l| && l[0].key == l[j].key ensures Precedes(chains, l[0], l[j]) {
      FoundIsAhead(l, chains, hash, j);
    }
    if InChainOrder(l, chains) {
      forall i, j | 0 <= i < j < |r| && r[i].key == r[j].key ensures Precedes(chains', r[i], r[j]) {
        assert Precedes(chains, l[i + 1], l[j + 1]);
      }
    }
    if InChainOrder(r, chains') {
      forall i, j | 0 <= i < j < |l| && l[i].key == l[j].key ensures Precedes(chains, l[i], l[j]) {
        if i > 0 {
          assert Precedes(chains', r[i - 1], r[j - 1]);
        }
      }
    }
  }

  /** unload_list follows live elements only and empties the list exactly when elements with the same key are in
      their bucket chain in the order of the list. */
  lemma {:induction false} UnloadCleanIff(l: seq<Element>, chains: seq<seq<Element>>, hash: string -> nat)
    requires Consistent(l, chains, hash)
    ensures Unload(l, chains, hash, 0) == Ends([]) <==> InChainOrder(l, chains)
    decreases |l|
  {
    hide Consistent, Precedes, FoundIn, ChainsMinus;
    if l != [] {
      FoundIsThere(l, chains, hash, 0);
      FoundIsAhead(l, chains, hash, 0);
      var v := FoundIn(chains, hash, l[0].key);
      if v == l[0] {
        HeadInOrder(l, chains, hash);
        ConsistentMinus(l, chains, hash, 0);
        UnloadCleanIff(l[1..], ChainsMinus(chains, v), hash);
        assert v in l[..1] && v != After(l, 0) by { DistinctHead(l, chains, hash); }
      } else {
        var j :| 0 <= j < |l| && l[j] == v;
        assert !Precedes(chains, l[0], l[j]);
        assert v !in l[..1];
        if v != After(l, 0) {
          PositionInBounds(l, 0, v);
          StaysBehind(Minus(l, v), ChainsMinus(chains, v), hash, 1);
        }
      }
    }
  }

  lemma DistinctHead(l: seq<Element>, chains: seq<seq<Element>>, hash: string -> nat)
    requires Consistent(l, chains, hash) && l != []
    ensures l[0] in l[..1] && l[0] != After(l, 0)
  {
    assert l[..1] == [l[0]];
  }

  /** With distinct keys there is nothing to put in order. */
  lemma DistinctKeysInOrder(l: seq<Element>, chains: seq<seq<Element>>)
    requires DistinctKeys(l)
    ensures InChainOrder(l, chains)
  {
  }

  // ----- where a walk faults

  ghost predicate OnlyKey(l: seq<Element>, k: nat)
    requires k < |l|
    reads l`key
  {
    forall i :: 0 <= i < |l| && l[i].key == l[k].key ==> i == k
  }

  lemma FoundOnly(l: seq<Element>, chains: seq<seq<Element>>, hash: string -> nat, k: nat)
    requires Consistent(l, chains, hash) && k < |l| && OnlyKey(l, k)
    ensures FoundIn(chains, hash, l[k].key) == l[k] != After(l, k) && NextPosition(l, k, l[k]) == k
    ensures Minus(l, l[k]) == l[..k] + l[k + 1..]
  {
    FoundIsThere(l, chains, hash, k);
    var v := FoundIn(chains, hash, l[k].key);
    var i :| 0 <= i < |l| && l[i] == v;
    assert l[..k + 1][k] == l[k];
    MinusIsWithout(l, k);
  }

  /** From position `k` on, elements with keys of their own are deleted one by one; those in front stay. */
  lemma {:induction false} DistinctWalk(l: seq<Element>, chains: seq<seq<Element>>, hash: string -> nat, k: nat)
    requires Consistent(l, chains, hash) && DistinctKeys(l) && k <= |l|
    ensures Unload(l, chains, hash, k) == Ends(l[..k])
    decreases |l| - k
  {
    if k < |l| {
      FoundOnly(l, chains, hash, k);
      ConsistentMinus(l, chains, hash, k);
      hide Consistent, FoundIn, ChainsMinus, Minus, NextPosition;
      var l' := Minus(l, l[k]);
      assert DistinctKeys(l') by {
        assert forall i :: 0 <= i < |l'| ==> l'[i] == l[if i < k then i else i + 1];
      }
      DistinctWalk(l', ChainsMinus(chains, l[k]), hash, k);
      assert l'[..k] == l[..k];
    } else {
      assert l[..k] == l;
    }
  }

  ghost predicate OnlyDuplicate(l: seq<Element>, i: nat, j: nat)
    reads l`key
  {
    forall a, b :: 0 <= a < b < |l| && l[a].key == l[b].key ==> a == i && b == j
  }

  lemma DuplicateBehind(l: seq<Element>, i: nat, j: nat)
    requires 0 < i < j < |l| && OnlyDuplicate(l, i, j)
    ensures OnlyKey(l, 0) && OnlyDuplicate(l[1..], i - 1, j - 1)
  {
  }

  /** One key is stored twice, at `i` and `j`, and the lookup finds the later element: the walk faults exactly when the
      two are neighbours; else the earlier one is left. */
  lemma {:induction false} OneDuplicate(l: seq<Element>, chains: seq<seq<Element>>, hash: string -> nat, i: nat, j: nat)
    requires Consistent(l, chains, hash) && i < j < |l| && l[i].key == l[j].key && Precedes(chains, l[j], l[i])
    requires OnlyDuplicate(l, i, j)
    ensures Unload(l, chains, hash, 0) == if j == i + 1 then Faults else Ends([l[i]])
    decreases |l|
  {
    hide Consistent, Precedes, ChainsMinus, Unload, OnlyDuplicate, OnlyKey;
    if i > 0 {
      DuplicateBehind(l, i, j);
      OwnHead(l, chains, hash);
      StillPrecedes(l, chains, hash, i, j);
      var r := l[1..];
      assert r[i - 1] == l[i] && r[j - 1] == l[j];
      OneDuplicate(r, ChainsMinus(chains, l[0]), hash, i - 1, j - 1);
    } else {
      DuplicateHead(l, chains, hash, j);
    }
  }

  lemma OwnHead(l: seq<Element>, chains: seq<seq<Element>>, hash: string -> nat)
    requires Consistent(l, chains, hash) && l != [] && OnlyKey(l, 0)
    ensures Unload(l, chains, hash, 0) == Unload(l[1..], ChainsMinus(chains, l[0]), hash, 0)
    ensures Consistent(l[1..], ChainsMinus(chains, l[0]), hash)
  {
    hide Consistent, ChainsMinus, Unload, OnlyKey, FoundIn;
    FoundOnly(l, chains, hash, 0);
    Visit(l, chains, hash, 0, l[0]);
    ConsistentMinus(l, chains, hash, 0);
    assert l[..0] + l[1..] == l[1..];
  }

  lemma DuplicateHead(l: seq<Element>, chains: seq<seq<Element>>, hash: string -> nat, j: nat)
    requires Consistent(l, chains, hash) && 0 < j < |l| && l[0].key == l[j].key && Precedes(chains, l[j], l[0])
    requires OnlyDuplicate(l, 0, j)
    ensures Unload(l, chains, hash, 0) == if j == 1 then Faults else Ends([l[0]])
  {
    hide Consistent, Precedes, FoundIn, ChainsMinus, Unload, NextPosition, Minus, OnlyDuplicate;
    FoundLater(l, chains, hash, j);
    Visit(l, chains, hash, 0, l[j]);
    if j > 1 {
      ConsistentMinus(l, chains, hash, j);
      WithoutLater(l, chains, hash, j);
      DistinctWalk(Minus(l, l[j]), ChainsMinus(chains, l[j]), hash, 1);
    }
  }

  lemma Visit(l: seq<Element>, chains: seq<seq<Element>>, hash: string -> nat, k: nat, v: Element)
    requires k < |l| && v in l && v == FoundIn(chains, hash, l[k].key)
    ensures Unload(l, chains, hash, k) ==
            if v == After(l, k) then Faults
            else Unload(Minus(l, v), ChainsMinus(chains, v), hash, NextPosition(l, k, v))
  {
  }

  lemma StillPrecedes(l: seq<Element>, chains: seq<seq<Element>>, hash: string -> nat, i: nat, j: nat)
    requires Consistent(l, chains, hash) && 0 < i < j < |l| && Precedes(chains, l[j], l[i])
    ensures Precedes(ChainsMinus(chains, l[0]), l[j], l[i])
  {
    PrecedesMinus(chains, l[0], l[j], l[i]);
  }

  lemma FoundLater(l: seq<Element>, chains: seq<seq<Element>>, hash: string -> nat, j: nat)
    requires Consistent(l, chains, hash) && 0 < j < |l| && l[0].key == l[j].key && Precedes(chains, l[j], l[0])
    requires OnlyDuplicate(l, 0, j)
    ensures FoundIn(chains, hash, l[0].key) == l[j] && (l[j] == After(l, 0) <==> j == 1)
    ensures NextPosition(l, 0, l[j]) == 1
  {
    hide FoundIn, Precedes;
    FoundIsThere(l, chains, hash, 0);
    FoundIsAhead(l, chains, hash, j);
    var v := FoundIn(chains, hash, l[0].key);
    var i :| 0 <= i < |l| && l[i] == v;
    assert i == 0 || i == j;
  }

  lemma WithoutLater(l: seq<Element>, chains: seq<seq<Element>>, hash: string -> nat, j: nat)
    requires Consistent(l, chains, hash) && 1 < j < |l|
    requires OnlyDuplicate(l, 0, j)
    ensures DistinctKeys(Minus(l, l[j])) && |Minus(l, l[j])| == |l| - 1 && Minus(l, l[j])[..1] == [l[0]]
  {
    MinusIsWithout(l, j);
    var l' := Without(l, j);
    assert forall i :: 0 <= i < |l'| ==> l'[i] == l[if i < j then i else i + 1];
  }

  // ----- how the order comes about

  /** Adding a key that is there already breaks the order, as long as no expansion follows. */
  lemma SecondAddBreaksOrder(l: seq<Element>, chains: seq<seq<Element>>, hash: string -> nat, e: Element)
    requires Consistent(l, chains, hash) && e !in l && HasKey(l, e.key) && e.hashv == hash(e.key)
    ensures var b := Slot(e.hashv, |chains|); !InChainOrder(l + [e], chains[b := [e] + chains[b]])
  {
    var b := Slot(e.hashv, |chains|);
    var c := [e] + chains[b];
    var pushed := chains[b := c];
    var i :| 0 <= i < |l| && l[i].key == e.key;
    assert (l + [e])[i] == l[i] && (l + [e])[|l|] == e;
    forall s, q | 0 <= s < |pushed| && 0 < q < |pushed[s]| ensures pushed[s][q] != e {
      assert pushed[s][q] == if s == b then chains[b][q - 1] else chains[s][q];
    }
    assert !Precedes(pushed, l[i], e);
  }

  lemma PrecedesInPushed(e: Element, r: seq<Element>, a: Element, b: Element)
    ensures PrecedesIn([e] + r, a, b) <==> (a == e && b in r) || PrecedesIn(r, a, b)
  {
    var c := [e] + r;
    if PrecedesIn(r, a, b) {
      var p, q :| 0 <= p < q < |r| && r[p] == a && r[q] == b;
      assert c[p + 1] == a && c[q + 1] == b;
    }
    if a == e && b in r {
      var q :| 0 <= q < |r| && r[q] == b;
      assert c[0] == a && c[q + 1] == b;
    }
  }

  lemma PrecedesInAppended(init: seq<Element>, e: Element, a: Element, b: Element)
    ensures PrecedesIn(init + [e], b, a) <==> (a == e && b in init) || PrecedesIn(init, b, a)
  {
    var c := init + [e];
    if PrecedesIn(init, b, a) {
      var p, q :| 0 <= p < q < |init| && init[p] == b && init[q] == a;
      assert c[p] == b && c[q] == a;
    }
    if a == e && b in init {
      var p :| 0 <= p < |init| && init[p] == b;
      assert c[p] == b && c[|init|] == a;
    }
  }

  lemma {:induction false} RedistributedReverses(c: seq<Element>, n2: nat, j: nat, a: Element, b: Element)
    requires n2 > 0 && Slot(a.hashv, n2) == j && Slot(b.hashv, n2) == j
    ensures PrecedesIn(Expansion.Redistributed(c, n2, j), a, b) <==> PrecedesIn(c, b, a)
  {
    hide PrecedesIn, Slot;
    if c == [] {
      PrecedesInNothing(a, b);
      PrecedesInNothing(b, a);
    } else {
      var init, e := c[..|c| - 1], c[|c| - 1];
      var r := Expansion.Redistributed(init, n2, j);
      assert c == init + [e];
      assert Expansion.Redistributed(c, n2, j) == if Slot(e.hashv, n2) == j then [e] + r else r;
      RedistributedReverses(init, n2, j, a, b);
      Expansion.RedistributedMembers(init, n2, j);
      PrecedesInPushed(e, r, a, b);
      PrecedesInAppended(init, e, a, b);
    }
  }

  lemma PrecedesInNothing(a: Element, b: Element)
    ensures !PrecedesIn([], a, b)
  {
  }

  lemma PrecedesInOwnChain(chains: seq<seq<Element>>, a: Element, b: Element)
    requires Slotted(chains)
    ensures chains != [] && (Precedes(chains, a, b) <==> PrecedesIn(chains[Slot(a.hashv, |chains|)], a, b))
  {
  }

  /** An expansion turns the order of the elements with one key around. */
  lemma ExpansionReverses(chains: seq<seq<Element>>, newChains: seq<seq<Element>>, a: Element, b: Element)
    requires Slotted(chains) && Slotted(newChains) && Expansion.Doubled(chains, newChains) && a.hashv == b.hashv
    ensures Precedes(newChains, a, b) <==> Precedes(chains, b, a)
  {
    hide PrecedesIn, Precedes, Slotted;
    PrecedesInOwnChain(newChains, a, b);
    PrecedesInOwnChain(chains, b, a);
    var j := Slot(a.hashv, |newChains|);
    Expansion.SlotOfParent(a.hashv, |chains|);
    RedistributedReverses(chains[Slot(b.hashv, |chains|)], |newChains|, j, a, b);
  }
}
