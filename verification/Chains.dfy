/** The buckets of the table and the doubly linked chains that hang from them. */
module Chains {
  import opened Elements

  /** `UT_hash_bucket`. */
  datatype Bucket = Bucket(hhHead: Element?, count: nat, expandMult: nat)

  ghost predicate Distinct(l: seq<Element>) {
    forall i, j :: 0 <= i < j < |l| ==> l[i] != l[j]
  }

  function Slot(hashv: nat, n: nat): (b: nat)
    requires n > 0
    ensures b < n
  {
    hashv % n
  }

  ghost function Without(l: seq<Element>, k: nat): seq<Element>
    requires k < |l|
  {
    l[..k] + l[k + 1..]
  }

  ghost function Members(chains: seq<seq<Element>>): set<Element> {
    set b, i | 0 <= b < |chains| && 0 <= i < |chains[b]| :: chains[b][i]
  }

  function Before(l: seq<Element>, i: nat): Element?
    requires i < |l|
  {
    if i == 0 then null else l[i - 1]
  }

  function After(l: seq<Element>, i: nat): Element?
    requires i < |l|
  {
    if i + 1 < |l| then l[i + 1] else null
  }

  /** `hh_next` leads along the chain. */
  ghost predicate NextLinked(c: seq<Element>)
    reads c`hhNext
  {
    forall i {:trigger c[i].hhNext} :: 0 <= i < |c| ==> c[i].hhNext == After(c, i)
  }

  /** `hh_prev` leads back. */
  ghost predicate PrevLinked(c: seq<Element>)
    reads c`hhPrev
  {
    forall i {:trigger c[i].hhPrev} :: 0 <= i < |c| ==> c[i].hhPrev == Before(c, i)
  }

  /** What HASH_FSCK checks of one bucket. */
  ghost predicate Linked(bucket: Bucket, c: seq<Element>)
    reads c`hhPrev, c`hhNext
  {
    && bucket.hhHead == (if c == [] then null else c[0])
    && bucket.count == |c|
    && NextLinked(c) && PrevLinked(c)
  }

  ghost predicate AllLinked(bs: seq<Bucket>, chains: seq<seq<Element>>)
    reads Members(chains)`hhPrev, Members(chains)`hhNext
  {
    |bs| == |chains| && forall b :: 0 <= b < |chains| ==> Linked(bs[b], chains[b])
  }

  /** No element occurs twice in a chain, and every element is in the bucket its hash value selects. */
  ghost predicate Slotted(chains: seq<seq<Element>>)
    reads Members(chains)`hashv
  {
    && |chains| > 0
    && (forall b :: 0 <= b < |chains| ==> Distinct(chains[b]))
    && forall b, i :: 0 <= b < |chains| && 0 <= i < |chains[b]| ==> Slot(chains[b][i].hashv, |chains|) == b
  }

  /** Chains of different buckets share no element. */
  lemma ChainsDisjoint(chains: seq<seq<Element>>, b: nat, b': nat)
    requires Slotted(chains) && b < |chains| && b' < |chains| && b != b'
    ensures forall e :: e in chains[b] ==> e !in chains[b']
  {
    forall e | e in chains[b] ensures e !in chains[b'] {
      var i :| 0 <= i < |chains[b]| && chains[b][i] == e;
      assert Slot(e.hashv, |chains|) == b;
    }
  }

  lemma NotInOtherChain(chains: seq<seq<Element>>, e: Element, b: nat)
    requires Slotted(chains) && b < |chains| && Slot(e.hashv, |chains|) != b
    ensures e !in chains[b]
  {
  }

  /** The pointer updates of HASH_ADD_TO_BKT, which HASH_EXPAND_BUCKETS repeats for every moved handle. */
  method LinkFront(bucket: Bucket, e: Element, ghost c: seq<Element>) returns (bucket': Bucket)
    requires Linked(bucket, c) && Distinct(c) && e !in c
    modifies e`hhPrev, e`hhNext, c`hhPrev
    ensures Linked(bucket', [e] + c) && bucket'.expandMult == bucket.expandMult && bucket'.count == bucket.count + 1
  {
    e.hhNext := bucket.hhHead;
    e.hhPrev := null;
    if bucket.hhHead != null {
      bucket.hhHead.hhPrev := e;
    }
    bucket' := bucket.(hhHead := e, count := bucket.count + 1);
    ghost var c' := [e] + c;
    forall i | 0 <= i < |c'|
      ensures c'[i].hhNext == After(c', i) && c'[i].hhPrev == Before(c', i)
    {
      if i > 0 {
        assert old(c[i - 1].hhNext) == After(c, i - 1) && old(c[i - 1].hhPrev) == Before(c, i - 1);
      }
    }
  }

  method PushFront(bs: array<Bucket>, b: nat, e: Element, ghost chains: seq<seq<Element>>)
    requires AllLinked(bs[..], chains) && Slotted(chains)
    requires b < bs.Length && Slot(e.hashv, bs.Length) == b && e !in chains[b]
    modifies bs, e`hhPrev, e`hhNext, chains[b]`hhPrev
    ensures AllLinked(bs[..], chains[b := [e] + chains[b]]) && Slotted(chains[b := [e] + chains[b]])
    ensures bs[..] == old(bs[..])[b := bs[b]]
    ensures bs[b].expandMult == old(bs[b].expandMult) && bs[b].count == old(bs[b].count) + 1
  {
    hide NextLinked, PrevLinked;
    ghost var c := chains[b];
    assert Linked(bs[..][b], c);
    var bucket := LinkFront(bs[b], e, c);
    bs[b] := bucket;
    ghost var chains' := chains[b := [e] + c];
    forall b' | 0 <= b' < |chains'| ensures Linked(bs[b'], chains'[b']) {
      if b' != b {
        assert old(Linked(bs[..][b'], chains[b']));
        ChainsDisjoint(chains, b, b');
        NotInOtherChain(chains, e, b');
      }
    }
  }

  /** The pointer updates of HASH_DEL_IN_BKT. */
  method Unlink(bucket: Bucket, e: Element, ghost k: nat, ghost c: seq<Element>) returns (bucket': Bucket)
    requires Linked(bucket, c) && Distinct(c) && k < |c| && c[k] == e
    modifies c`hhPrev, c`hhNext
    ensures Linked(bucket', Without(c, k))
    ensures bucket'.expandMult == bucket.expandMult && bucket'.count == bucket.count - 1
  {
    assert c[k].hhPrev == Before(c, k) && c[k].hhNext == After(c, k);
    bucket' := bucket.(count := bucket.count - 1);
    if bucket'.hhHead == e {
      bucket' := bucket'.(hhHead := e.hhNext);
    }
    if e.hhPrev != null {
      e.hhPrev.hhNext := e.hhNext;
    }
    if e.hhNext != null {
      e.hhNext.hhPrev := e.hhPrev;
    }
    ghost var c' := Without(c, k);
    forall i | 0 <= i < |c'|
      ensures c'[i].hhNext == After(c', i) && c'[i].hhPrev == Before(c', i)
    {
      ghost var j := if i < k then i else i + 1;
      assert c'[i] == c[j] && c[j] != c[k];
      assert old(c[j].hhNext) == After(c, j) && old(c[j].hhPrev) == Before(c, j);
    }
  }

  /** HASH_DEL_IN_BKT. */
  method DeleteInBucket(bs: array<Bucket>, b: nat, e: Element, ghost k: nat, ghost chains: seq<seq<Element>>)
    requires AllLinked(bs[..], chains) && Slotted(chains)
    requires b < bs.Length && k < |chains[b]| && chains[b][k] == e
    modifies bs, chains[b]`hhPrev, chains[b]`hhNext
    ensures AllLinked(bs[..], chains[b := Without(chains[b], k)]) && Slotted(chains[b := Without(chains[b], k)])
    ensures bs[..] == old(bs[..])[b := bs[b]]
    ensures bs[b].expandMult == old(bs[b].expandMult) && bs[b].count == old(bs[b].count) - 1
  {
    hide NextLinked, PrevLinked;
    ghost var c := chains[b];
    assert Linked(bs[..][b], c);
    var bucket := Unlink(bs[b], e, k, c);
    bs[b] := bucket;
    ghost var chains' := chains[b := Without(c, k)];
    forall b' | 0 <= b' < |chains'| ensures Linked(bs[b'], chains'[b']) {
      if b' != b {
        assert old(Linked(bs[..][b'], chains[b']));
        ChainsDisjoint(chains, b, b');
      }
    }
  }

  /** The first element of a chain with the key. */
  ghost function FirstWith(c: seq<Element>, key: string): (e: Element?)
    reads c`key
    ensures e == null <==> forall i :: 0 <= i < |c| ==> c[i].key != key
    ensures e != null ==> e in c && e.key == key
  {
    if c == [] then null else if c[0].key == key then c[0] else FirstWith(c[1..], key)
  }

  lemma {:induction false} FirstWithAt(c: seq<Element>, key: string, k: nat)
    requires k < |c| && c[k].key == key && forall i :: 0 <= i < k ==> c[i].key != key
    ensures FirstWith(c, key) == c[k]
  {
    if k > 0 {
      FirstWithAt(c[1..], key, k - 1);
    }
  }

  /** HASH_FIND_IN_BKT: the first element of the chain with this hash value and key. */
  method FindInBucket(bucket: Bucket, key: string, hashv: nat, ghost c: seq<Element>)
    returns (out: Element?, ghost k: nat)
    requires Linked(bucket, c)
    ensures k <= |c| && out == (if k < |c| then c[k] else null)
    ensures forall i :: 0 <= i < k ==> c[i].hashv != hashv || c[i].key != key
    ensures k < |c| ==> c[k].hashv == hashv && c[k].key == key
    ensures out == null <==> forall i :: 0 <= i < |c| ==> c[i].hashv != hashv || c[i].key != key
    ensures out != null ==> out in c && out.hashv == hashv && out.key == key
  {
    out, k := bucket.hhHead, 0;
    while out != null
      invariant k <= |c| && out == (if k < |c| then c[k] else null)
      invariant forall i :: 0 <= i < k ==> c[i].hashv != hashv || c[i].key != key
      decreases |c| - k
    {
      if out.hashv == hashv && out.key == key {
        break;
      }
      out, k := out.hhNext, k + 1;
    }
  }
}
