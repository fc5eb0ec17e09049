/** Whole runs of table operations refine an insertion-ordered association list. */
module AssocLists {
  import opened Elements
  import opened Chains
  import opened HashTables

  datatype Option<+T> = None | Some(value: T)

  datatype Pair = Pair(key: string, data: Data)

  /** What a caller of the table can do; as in veth_list_add, an add is preceded by a lookup. */
  datatype Op =
    | FindOp(key: string)
    | AddOp(key: string, data: Data)
    | ReplaceOp(key: string, data: Data)
    | DeleteOp(key: string)

  // ----- the association list

  function Lookup(al: seq<Pair>, key: string): Option<Data> {
    if al == [] then None else if al[0].key == key then Some(al[0].data) else Lookup(al[1..], key)
  }

  function Drop(al: seq<Pair>, key: string): seq<Pair> {
    if al == [] then [] else if al[0].key == key then al[1..] else [al[0]] + Drop(al[1..], key)
  }

  function Apply(al: seq<Pair>, op: Op): seq<Pair> {
    match op
    case FindOp(_) => al
    case AddOp(key, data) => if Lookup(al, key).Some? then al else al + [Pair(key, data)]
    case ReplaceOp(key, data) => Drop(al, key) + [Pair(key, data)]
    case DeleteOp(key) => Drop(al, key)
  }

  /** A run of operations of any kind, each with the effect `apply` gives it. */
  function ApplyAll<O>(apply: (seq<Pair>, O) -> seq<Pair>, al: seq<Pair>, ops: seq<O>): seq<Pair>
    decreases |ops|
  {
    if ops == [] then al else ApplyAll(apply, apply(al, ops[0]), ops[1..])
  }

  /** What each operation's lookup finds, in order. */
  function Answers(al: seq<Pair>, ops: seq<Op>): seq<Option<Data>>
    decreases |ops|
  {
    if ops == [] then [] else [Lookup(al, ops[0].key)] + Answers(Apply(al, ops[0]), ops[1..])
  }

  // ----- the association list as a map

  ghost predicate Unique(al: seq<Pair>) {
    forall i, j :: 0 <= i < j < |al| ==> al[i].key != al[j].key
  }

  /** What is stored under the keys; under a key stored twice the first counts. */
  function Contents(al: seq<Pair>): map<string, Data> {
    if al == [] then map[] else Contents(al[1..])[al[0].key := al[0].data]
  }

  lemma {:induction false} ContentsIsLookup(al: seq<Pair>, k: string)
    ensures Lookup(al, k) == if k in Contents(al) then Some(Contents(al)[k]) else None
  {
    if al != [] {
      ContentsIsLookup(al[1..], k);
    }
  }

  lemma {:induction false} LookupAfterAppend(al: seq<Pair>, p: Pair, k: string)
    ensures Lookup(al + [p], k) ==
            if Lookup(al, k).Some? then Lookup(al, k) else if p.key == k then Some(p.data) else None
  {
    if al != [] {
      assert (al + [p])[1..] == al[1..] + [p];
      LookupAfterAppend(al[1..], p, k);
    }
  }

  lemma {:induction false} LookupAfterDrop(al: seq<Pair>, key: string, k: string)
    requires Unique(al)
    ensures Lookup(Drop(al, key), k) == if k == key then None else Lookup(al, k)
  {
    if al != [] {
      if al[0].key == key {
        LookupFinds(al[1..], key);
        assert forall i :: 0 <= i < |al[1..]| ==> al[1..][i] == al[i + 1];
      } else {
        LookupAfterDrop(al[1..], key, k);
        assert Drop(al, key)[1..] == Drop(al[1..], key);
      }
    }
  }

  /** On the map an operation is an update of the map, whatever the order of the list. */
  lemma ApplyOnMap(al: seq<Pair>, op: Op)
    requires Unique(al)
    ensures var m, m', k := Contents(al), Contents(Apply(al, op)), op.key;
            match op
            case FindOp(_) => m' == m
            case AddOp(_, d) => m' == if k in m then m else m[k := d]
            case ReplaceOp(_, d) => m' == m[k := d]
            case DeleteOp(_) => m' == m - {k}
  {
    hide Contents, Lookup, Drop, Unique;
    forall j ensures Lookup(Apply(al, op), j) ==
                     match op
                     case FindOp(_) => Lookup(al, j)
                     case AddOp(k, d) => if Lookup(al, k).None? && j == k then Some(d) else Lookup(al, j)
                     case ReplaceOp(k, d) => if j == k then Some(d) else Lookup(al, j)
                     case DeleteOp(k) => if j == k then None else Lookup(al, j)
    {
      LookupAfterDrop(al, op.key, j);
      if op.AddOp? {
        LookupAfterAppend(al, Pair(op.key, op.data), j);
      } else if op.ReplaceOp? {
        LookupAfterAppend(Drop(al, op.key), Pair(op.key, op.data), j);
      }
    }
    forall j ensures Lookup(al, j) == if j in Contents(al) then Some(Contents(al)[j]) else None {
      ContentsIsLookup(al, j);
    }
    forall j ensures var m' := Contents(Apply(al, op));
                     Lookup(Apply(al, op), j) == if j in m' then Some(m'[j]) else None
    {
      ContentsIsLookup(Apply(al, op), j);
    }
  }

  /** On the list an operation with a key that is there touches that pair only. */
  lemma ApplyAtPresent(al: seq<Pair>, i: nat, d: Data)
    requires Unique(al) && i < |al|
    ensures var k := al[i].key;
            && Apply(al, FindOp(k)) == al && Apply(al, AddOp(k, d)) == al
            && Apply(al, DeleteOp(k)) == al[..i] + al[i + 1..]
            && Apply(al, ReplaceOp(k, d)) == al[..i] + al[i + 1..] + [Pair(k, d)]
  {
    hide Drop;
    DropAt(al, i);
    LookupFinds(al, al[i].key);
  }

  /** With a key that is not there, an add and a replacement append, and a deletion does nothing. */
  lemma ApplyAbsent(al: seq<Pair>, k: string, d: Data)
    requires forall i :: 0 <= i < |al| ==> al[i].key != k
    ensures Apply(al, FindOp(k)) == al && Apply(al, DeleteOp(k)) == al
    ensures Apply(al, AddOp(k, d)) == Apply(al, ReplaceOp(k, d)) == al + [Pair(k, d)]
  {
    LookupFinds(al, k);
    DropAbsent(al, k);
  }

  // ----- the table as an association list

  ghost function Pairs(items: seq<Element>): (al: seq<Pair>)
    reads items`key
    ensures |al| == |items| && forall i :: 0 <= i < |items| ==> al[i] == Pair(items[i].key, items[i].data)
  {
    if items == [] then [] else [Pair(items[0].key, items[0].data)] + Pairs(items[1..])
  }

  lemma PairsOfAppend(items: seq<Element>, e: Element)
    ensures Pairs(items + [e]) == Pairs(items) + [Pair(e.key, e.data)]
  {
  }

  lemma {:induction false} LookupFinds(al: seq<Pair>, key: string)
    ensures Lookup(al, key).None? ==> forall i :: 0 <= i < |al| ==> al[i].key != key
    ensures Lookup(al, key).Some? ==>
              exists i :: 0 <= i < |al| && al[i].key == key && Lookup(al, key) == Some(al[i].data)
  {
    if al != [] && al[0].key != key {
      var tail := al[1..];
      LookupFinds(tail, key);
      if Lookup(tail, key).Some? {
        var i :| 0 <= i < |tail| && tail[i].key == key && Lookup(tail, key) == Some(tail[i].data);
        assert al[i + 1] == tail[i];
      } else {
        assert forall i :: 1 <= i < |al| ==> al[i] == tail[i - 1];
      }
    }
  }

  lemma LookupIsFind(items: seq<Element>, key: string)
    ensures Lookup(Pairs(items), key).Some? <==> HasKey(items, key)
    ensures DistinctKeys(items) ==> forall e :: e in items && e.key == key ==> Lookup(Pairs(items), key) == Some(e.data)
  {
    hide Lookup, Pairs;
    var al := Pairs(items);
    LookupFinds(al, key);
    if Lookup(al, key).Some? {
      var i :| 0 <= i < |al| && al[i].key == key && Lookup(al, key) == Some(al[i].data);
      assert items[i].key == key;
      if DistinctKeys(items) {
        forall e | e in items && e.key == key ensures Lookup(al, key) == Some(e.data) {
          var j :| 0 <= j < |items| && items[j] == e;
          assert j == i;
        }
      }
    } else {
      assert forall i :: 0 <= i < |items| ==> al[i].key == items[i].key;
    }
  }

  lemma {:induction false} DropAt(al: seq<Pair>, k: nat)
    requires k < |al| && forall i :: 0 <= i < k ==> al[i].key != al[k].key
    ensures Drop(al, al[k].key) == al[..k] + al[k + 1..]
  {
    if k > 0 {
      DropAt(al[1..], k - 1);
      assert al[..k] + al[k + 1..] == [al[0]] + (al[1..][..k - 1] + al[1..][k..]);
    }
  }

  lemma DropIsMinus(items: seq<Element>, e: Element)
    requires DistinctKeys(items) && e in items
    ensures Pairs(Minus(items, e)) == Drop(Pairs(items), e.key)
    ensures DistinctKeys(Minus(items, e)) && !HasKey(Minus(items, e), e.key)
    ensures forall i :: 0 <= i < |Minus(items, e)| ==> Minus(items, e)[i] in items
  {
    hide Pairs, Drop;
    var k :| 0 <= k < |items| && items[k] == e;
    MinusIsWithout(items, k);
    DropAt(Pairs(items), k);
    WithoutOne(items, k);
  }

  lemma WithoutOne(items: seq<Element>, k: nat)
    requires DistinctKeys(items) && k < |items|
    ensures var l := Without(items, k);
            && DistinctKeys(l) && !HasKey(l, items[k].key)
            && Pairs(l) == Pairs(items)[..k] + Pairs(items)[k + 1..]
            && forall i :: 0 <= i < |l| ==> l[i] in items
  {
    hide Pairs;
    var l := Without(items, k);
    assert forall i :: 0 <= i < |l| ==> l[i] == items[if i < k then i else i + 1];
  }

  lemma {:induction false} DropAbsent(al: seq<Pair>, key: string)
    requires Lookup(al, key).None?
    ensures Drop(al, key) == al
  {
    if al != [] {
      DropAbsent(al[1..], key);
    }
  }

  /** Dropping takes out one pair with the key, if there is one. */
  lemma {:induction false} DropTakesOne(al: seq<Pair>, key: string)
    ensures multiset(Drop(al, key)) ==
            multiset(al) - match Lookup(al, key) { case None => multiset{} case Some(d) => multiset{Pair(key, d)} }
  {
    if Lookup(al, key).None? {
      DropAbsent(al, key);
    } else {
      var head, tail, p := al[0], al[1..], Pair(key, Lookup(al, key).value);
      assert al == [head] + tail;
      if head.key == key {
        TakenFromHead(head, tail);
      } else {
        DropTakesOne(tail, key);
        LookupIsMember(tail, key);
        TakenFromTail(head, tail, Drop(tail, key), p);
      }
    }
  }

  lemma LookupIsMember(al: seq<Pair>, key: string)
    ensures Lookup(al, key).Some? ==> Pair(key, Lookup(al, key).value) in al
  {
    LookupFinds(al, key);
  }

  lemma PairsOfCons(e: Element, tail: seq<Element>)
    ensures Pairs([e] + tail) == [Pair(e.key, e.data)] + Pairs(tail)
  {
    assert ([e] + tail)[1..] == tail;
  }

  lemma PairOfMember(items: seq<Element>, e: Element)
    requires e in items
    ensures Pair(e.key, e.data) in Pairs(items)
  {
    var j :| 0 <= j < |items| && items[j] == e;
    assert Pairs(items)[j] == Pair(e.key, e.data);
  }

  /** Deleting an element takes out its pair. */
  lemma {:induction false} MinusTakesOne(items: seq<Element>, e: Element)
    requires e in items
    ensures multiset(Pairs(Minus(items, e))) == multiset(Pairs(items)) - multiset{Pair(e.key, e.data)}
  {
    hide Pairs, Minus;
    var head, tail := items[0], items[1..];
    assert items == [head] + tail;
    PairsOfCons(head, tail);
    MinusOfCons(items, e);
    if head != e {
      MinusTakesOne(tail, e);
      PairsOfCons(head, Minus(tail, e));
      PairOfMember(tail, e);
      TakenFromTail(Pair(head.key, head.data), Pairs(tail), Pairs(Minus(tail, e)), Pair(e.key, e.data));
    } else {
      TakenFromHead(Pair(e.key, e.data), Pairs(tail));
    }
  }

  lemma TakenFromHead(p: Pair, al: seq<Pair>)
    ensures multiset([p] + al) - multiset{p} == multiset(al)
  {
  }

  lemma TakenFromTail(head: Pair, al: seq<Pair>, bl: seq<Pair>, p: Pair)
    requires p in al && multiset(bl) == multiset(al) - multiset{p}
    ensures multiset([head] + bl) == multiset([head] + al) - multiset{p}
  {
  }

  lemma MinusOfCons(items: seq<Element>, e: Element)
    requires items != []
    ensures Minus(items, e) == if items[0] == e then items[1..] else [items[0]] + Minus(items[1..], e)
  {
  }

  lemma NewKeyKeepsDistinct(items: seq<Element>, e: Element)
    requires DistinctKeys(items) && !HasKey(items, e.key)
    ensures DistinctKeys(items + [e])
  {
  }

  // ----- operations and runs

  /** An operation answers from one map and updates it to the other. */
  ghost predicate Updated(m: map<string, Data>, op: Op, m': map<string, Data>, answer: Option<Data>) {
    && answer == (if op.key in m then Some(m[op.key]) else None)
    && match op
       case FindOp(_) => m' == m
       case AddOp(k, d) => m' == if k in m then m else m[k := d]
       case ReplaceOp(k, d) => m' == m[k := d]
       case DeleteOp(k) => m' == m - {k}
  }

  /** A run of operations on a map, with the map after each operation and all answers. */
  ghost predicate Traced(m: map<string, Data>, ops: seq<Op>, maps: seq<map<string, Data>>, answers: seq<Option<Data>>) {
    && |answers| == |ops| && |maps| == |ops| + 1 && maps[0] == m
    && forall n :: 0 <= n < |ops| ==> Updated(maps[n], ops[n], maps[n + 1], answers[n])
  }

  lemma NothingTraced(m: map<string, Data>)
    ensures Traced(m, [], [m], [])
  {
  }

  lemma OneMoreTraced(m: map<string, Data>, ops: seq<Op>, maps: seq<map<string, Data>>, answers: seq<Option<Data>>,
                      op: Op, m': map<string, Data>, answer: Option<Data>)
    requires Traced(m, ops, maps, answers) && Updated(maps[|ops|], op, m', answer)
    ensures Traced(m, ops + [op], maps + [m'], answers + [answer])
  {
    hide Updated;
    var ops', maps', answers' := ops + [op], maps + [m'], answers + [answer];
    forall n | 0 <= n < |ops'| ensures Updated(maps'[n], ops'[n], maps'[n + 1], answers'[n]) {
      assert n < |ops| ==> Updated(maps[n], ops[n], maps[n + 1], answers[n]);
    }
  }

  /** One operation on the table does to its association list what it does to any. */
  method Perform(t: HashTable, op: Op) returns (answer: Option<Data>)
    requires t.Valid() && DistinctKeys(t.items)
    modifies t, t.buckets, t.items`prev, t.items`next, t.items`hhPrev, t.items`hhNext
    ensures t.Valid() && DistinctKeys(t.items) && (t.buckets == old(t.buckets) || fresh(t.buckets))
    ensures Pairs(t.items) == Apply(old(Pairs(t.items)), op) && answer == Lookup(old(Pairs(t.items)), op.key)
    ensures Updated(old(Contents(Pairs(t.items))), op, Contents(Pairs(t.items)), answer)
    ensures forall i :: 0 <= i < |t.items| ==> t.items[i] in old(t.items) || fresh(t.items[i])
  {
    hide HashTable.Valid, Pairs, Lookup, Drop, DistinctKeys, Contents, Updated;
    UniquePairs(t.items);
    AnswerAndUpdate(Pairs(t.items), op);
    LookupIsFind(t.items, op.key);
    answer := LookupPair(t, op.key);
    match op
    case FindOp(_) =>
    case AddOp(key, data) =>
      if answer == None {
        AddPair(t, key, data);
      }
    case ReplaceOp(key, data) =>
      ReplacePair(t, key, data);
    case DeleteOp(key) =>
      DeletePair(t, key);
  }

  method LookupPair(t: HashTable, key: string) returns (answer: Option<Data>)
    requires t.Valid() && DistinctKeys(t.items)
    ensures t.Valid() && DistinctKeys(t.items) && answer == Lookup(Pairs(t.items), key)
    ensures Pairs(t.items) == old(Pairs(t.items)) && (answer == None <==> !HasKey(t.items, key))
  {
    hide HashTable.Structure, Pairs, Lookup, HashTable.Found, HasKey;
    t.IterationFacts();
    LookupIsFind(t.items, key);
    var found := t.Find(key);
    answer := if found == null then None else Some(found.data);
  }

  method DeletePair(t: HashTable, key: string)
    requires t.Valid() && DistinctKeys(t.items)
    modifies t, t.buckets, t.items`prev, t.items`next, t.items`hhPrev, t.items`hhNext
    ensures t.Valid() && DistinctKeys(t.items) && t.buckets == old(t.buckets)
    ensures Pairs(t.items) == Drop(old(Pairs(t.items)), key)
    ensures forall i :: 0 <= i < |t.items| ==> t.items[i] in old(t.items)
  {
    hide HashTable.Structure, Pairs, Lookup, Drop, DistinctKeys, Minus, HashTable.Found, HasKey;
    t.IterationFacts();
    LookupIsFind(t.items, key);
    var found := t.Find(key);
    if found != null {
      DeleteFound(t, found);
    } else {
      DropAbsent(Pairs(t.items), key);
    }
  }

  method DeleteFound(t: HashTable, found: Element)
    requires t.Valid() && DistinctKeys(t.items) && found in t.items
    modifies t, t.buckets, t.items`prev, t.items`next, t.items`hhPrev, t.items`hhNext
    ensures t.Valid() && DistinctKeys(t.items) && t.buckets == old(t.buckets)
    ensures Pairs(t.items) == Drop(old(Pairs(t.items)), found.key)
    ensures forall i :: 0 <= i < |t.items| ==> t.items[i] in old(t.items)
  {
    hide HashTable.Valid, Pairs, Drop, DistinctKeys, Minus, ChainsMinus;
    DropIsMinus(t.items, found);
    t.Delete(found);
  }

  method AddPair(t: HashTable, key: string, data: Data)
    requires t.Valid() && DistinctKeys(t.items) && !HasKey(t.items, key)
    modifies t, t.buckets, t.items`prev, t.items`next, t.items`hhPrev, t.items`hhNext
    ensures t.Valid() && DistinctKeys(t.items) && (t.buckets == old(t.buckets) || fresh(t.buckets))
    ensures Pairs(t.items) == old(Pairs(t.items)) + [Pair(key, data)]
    ensures forall i :: 0 <= i < |t.items| ==> t.items[i] in old(t.items) || fresh(t.items[i])
  {
    hide HashTable.Valid, Pairs, HasKey, DistinctKeys, Chained, HashTable.Balanced;
    t.IterationFacts();
    ghost var items := t.items;
    var e := new Element(data);
    t.Add(e, key);
    NewKeyKeepsDistinct(items, e);
    PairsOfAppend(items, e);
  }

  method ReplacePair(t: HashTable, key: string, data: Data)
    requires t.Valid() && DistinctKeys(t.items)
    modifies t, t.buckets, t.items`prev, t.items`next, t.items`hhPrev, t.items`hhNext
    ensures t.Valid() && DistinctKeys(t.items) && (t.buckets == old(t.buckets) || fresh(t.buckets))
    ensures Pairs(t.items) == Drop(old(Pairs(t.items)), key) + [Pair(key, data)]
    ensures forall i :: 0 <= i < |t.items| ==> t.items[i] in old(t.items) || fresh(t.items[i])
  {
    hide HashTable.Structure, Pairs, Drop, Lookup, Minus, HashTable.Found, HasKey, DistinctKeys;
    t.IterationFacts();
    ghost var items := t.items;
    var e := new Element(data);
    var replaced := t.Replace(e, key);
    PairsAfterReplace(items, replaced, e);
  }

  lemma PairsAfterReplace(items: seq<Element>, replaced: Element?, e: Element)
    requires DistinctKeys(items)
    requires if replaced == null then !HasKey(items, e.key) else replaced in items && replaced.key == e.key
    ensures var l := (if replaced == null then items else Minus(items, replaced)) + [e];
            && Pairs(l) == Drop(Pairs(items), e.key) + [Pair(e.key, e.data)] && DistinctKeys(l)
            && forall i :: 0 <= i < |l| ==> l[i] in items || l[i] == e
  {
    hide Pairs, Drop, Lookup, Minus, DistinctKeys, HasKey;
    LookupIsFind(items, e.key);
    var rest := if replaced == null then items else Minus(items, replaced);
    if replaced != null {
      DropIsMinus(items, replaced);
    } else {
      DropAbsent(Pairs(items), e.key);
    }
    NewKeyKeepsDistinct(rest, e);
    PairsOfAppend(rest, e);
  }

  /** Every run of operations: answers and contents are those of an association list, which on `maps` is a plain map
      that is updated operation by operation. */
  method Run(t: HashTable, ops: seq<Op>)
    returns (answers: seq<Option<Data>>, ghost maps: seq<map<string, Data>>)
    requires t.Valid() && DistinctKeys(t.items)
    modifies t, t.buckets, t.items`prev, t.items`next, t.items`hhPrev, t.items`hhNext
    ensures t.Valid() && DistinctKeys(t.items)
    ensures answers == Answers(old(Pairs(t.items)), ops) && Pairs(t.items) == ApplyAll(Apply, old(Pairs(t.items)), ops)
    ensures Traced(Contents(old(Pairs(t.items))), ops, maps, answers) && maps[|ops|] == Contents(Pairs(t.items))
  {
    hide HashTable.Valid, Pairs, Apply, DistinctKeys, Lookup, Contents, Updated, Traced, Answers, ApplyAll;
    ghost var al := Pairs(t.items);
    answers, maps := [], [Contents(al)];
    NothingTraced(maps[0]);
    assert ops[..0] == [] && ops[0..] == ops;
    for n := 0 to |ops|
      invariant t.Valid() && DistinctKeys(t.items) && (t.buckets == old(t.buckets) || fresh(t.buckets))
      invariant forall i :: 0 <= i < |t.items| ==> t.items[i] in old(t.items) || fresh(t.items[i])
      invariant ApplyAll(Apply, Pairs(t.items), ops[n..]) == ApplyAll(Apply, al, ops)
      invariant answers + Answers(Pairs(t.items), ops[n..]) == Answers(al, ops)
      invariant |maps| == n + 1 && maps[n] == Contents(Pairs(t.items))
      invariant Traced(Contents(al), ops[..n], maps, answers)
    {
      NextOperation(Pairs(t.items), ops, n, answers);
      var answer := Perform(t, ops[n]);
      OneMoreTraced(Contents(al), ops[..n], maps, answers, ops[n], Contents(Pairs(t.items)), answer);
      assert ops[..n + 1] == ops[..n] + [ops[n]];
      answers := answers + [answer];
      maps := maps + [Contents(Pairs(t.items))];
    }
    assert ops[..|ops|] == ops && ops[|ops|..] == [];
    NoOperation(Pairs(t.items));
  }

  lemma NextOperation(al: seq<Pair>, ops: seq<Op>, n: nat, answers: seq<Option<Data>>)
    requires n < |ops|
    ensures ApplyAll(Apply, al, ops[n..]) == ApplyAll(Apply, Apply(al, ops[n]), ops[n + 1..])
    ensures answers + Answers(al, ops[n..]) ==
            answers + [Lookup(al, ops[n].key)] + Answers(Apply(al, ops[n]), ops[n + 1..])
  {
    hide Apply, Lookup;
    assert ops[n..][0] == ops[n] && ops[n..][1..] == ops[n + 1..];
  }

  lemma NoOperation(al: seq<Pair>)
    ensures ApplyAll(Apply, al, []) == al && Answers(al, []) == []
  {
  }

  lemma AnswerAndUpdate(al: seq<Pair>, op: Op)
    requires Unique(al)
    ensures Updated(Contents(al), op, Contents(Apply(al, op)), Lookup(al, op.key))
  {
    hide Contents, Lookup, Apply;
    ApplyOnMap(al, op);
    ContentsIsLookup(al, op.key);
  }

  lemma UniquePairs(items: seq<Element>)
    ensures DistinctKeys(items) <==> Unique(Pairs(items))
  {
  }
}
