/** The daemon's port registry: veth_list.c and the registry part of socket_cmds.c on top of the hash table. */
module VethList {
  import opened Bits
  import opened Elements
  import opened Chains
  import opened HashTables
  import opened AssocLists
  import opened Unloading

  const IFNAMSIZ := 16

  /** strncpy or snprintf into a buffer of IFNAMSIZ bytes: at most 15 characters and the terminator. */
  function Fit(s: string): (r: string)
    ensures |r| < IFNAMSIZ && r <= s
    ensures |s| < IFNAMSIZ ==> r == s
  {
    s[..Min(|s|, IFNAMSIZ - 1)]
  }

  function Inner(prefix: string): string { Fit(prefix + "_inner") }

  function Outer(prefix: string): string { Fit(prefix + "_outer") }

  function Entry(prefix: string): Data {
    Data(Fit(prefix), Inner(prefix), Outer(prefix))
  }

  /** What an entry holds: the prefix and the two names, each as far as it fits. */
  lemma EntryHolds(p: string)
    ensures Entry(p).prefix == (if |p| <= 15 then p else p[..15])
    ensures Entry(p).veth1 == (if |p| <= 9 then p + "_inner" else (p + "_inner")[..15])
    ensures Entry(p).veth2 == (if |p| <= 9 then p + "_outer" else (p + "_outer")[..15])
  {
  }

  // ----- interface names

  /** The two names of an entry are the same exactly when no character behind the underscore fits. */
  lemma OwnNamesDiffer(p: string)
    ensures Inner(p) != Outer(p) <==> |p| <= 13
  {
    var i, o := p + "_inner", p + "_outer";
    var k := |p| + 1;
    assert i[k] == 'i' && o[k] == 'o';
    if |p| <= 13 {
      assert Inner(p)[k] == 'i' && Outer(p)[k] == 'o';
    } else {
      assert i[..15] == o[..15];
    }
  }

  predicate IsSuffix(s: string) {
    s == "_inner" || s == "_outer"
  }

  /** Names built from different prefixes of at most 13 characters differ, with either suffix. */
  lemma NamesOfDifferentPrefixes(p: string, q: string, s: string, t: string)
    requires p != q && |p| <= 13 && |q| <= 13 && IsSuffix(s) && IsSuffix(t)
    ensures Fit(p + s) != Fit(q + t)
  {
    if |p| == |q| {
      var k :| 0 <= k < |p| && p[k] != q[k];
      assert Fit(p + s)[k] == p[k] && Fit(q + t)[k] == q[k];
    } else if |p| < |q| {
      ShorterPrefix(p, q, s, t);
    } else {
      ShorterPrefix(q, p, t, s);
    }
  }

  /** The underscore of the longer prefix meets a later character of the other name, or its end. */
  lemma ShorterPrefix(p: string, q: string, s: string, t: string)
    requires |p| < |q| <= 13 && IsSuffix(s) && IsSuffix(t)
    ensures Fit(p + s) != Fit(q + t)
  {
    var k := |q|;
    assert Fit(q + t)[k] == '_';
    if k < |p + s| {
      assert (p + s)[k] == s[k - |p|] != '_';
      assert Fit(p + s)[k] == (p + s)[k];
    } else {
      assert |Fit(p + s)| <= k;
    }
  }

  /** A registry lists its entries as pairs of the stored prefix and what is stored with it. */
  ghost predicate Entries(al: seq<Pair>) {
    forall i :: 0 <= i < |al| ==> al[i].data == Entry(al[i].key)
  }

  /** No two of the interface names in the list are the same. */
  ghost predicate NamesDistinct(al: seq<Pair>) {
    && (forall i :: 0 <= i < |al| ==> al[i].data.veth1 != al[i].data.veth2)
    && forall i, j :: 0 <= i < |al| && 0 <= j < |al| && i != j ==>
         && al[i].data.veth1 != al[j].data.veth1
         && al[i].data.veth2 != al[j].data.veth2
         && al[i].data.veth1 != al[j].data.veth2
  }

  /** Over distinct prefixes all interface names are distinct exactly when no prefix exceeds 13 characters. */
  lemma NamesDistinctIff(al: seq<Pair>)
    requires Unique(al) && Entries(al)
    ensures NamesDistinct(al) <==> forall i :: 0 <= i < |al| ==> |al[i].key| <= 13
  {
    hide Fit;
    if NamesDistinct(al) {
      forall i | 0 <= i < |al| ensures |al[i].key| <= 13 {
        OwnNamesDiffer(al[i].key);
      }
    }
    if forall i :: 0 <= i < |al| ==> |al[i].key| <= 13 {
      forall i | 0 <= i < |al| ensures al[i].data.veth1 != al[i].data.veth2 {
        OwnNamesDiffer(al[i].key);
      }
      forall i, j | 0 <= i < |al| && 0 <= j < |al| && i != j
        ensures al[i].data.veth1 != al[j].data.veth1 && al[i].data.veth2 != al[j].data.veth2
        ensures al[i].data.veth1 != al[j].data.veth2
      {
        var p, q := al[i].key, al[j].key;
        assert p != q;
        NamesOfDifferentPrefixes(p, q, "_inner", "_inner");
        NamesOfDifferentPrefixes(p, q, "_outer", "_outer");
        NamesOfDifferentPrefixes(p, q, "_inner", "_outer");
      }
    }
  }

  // ----- the registry as a list of prefixes and names

  /** veth_list_add: the lookup uses the whole prefix, the entry keeps only what fits. */
  function Added(al: seq<Pair>, prefix: string): seq<Pair> {
    if Lookup(al, prefix).Some? then al else al + [Pair(Fit(prefix), Entry(prefix))]
  }

  /** Adding keeps the prefixes unique exactly when the truncated prefix is new or the whole one is found. */
  lemma AddKeepsUniqueIff(al: seq<Pair>, prefix: string)
    requires Unique(al)
    ensures Unique(Added(al, prefix)) <==> Lookup(al, prefix).Some? || Lookup(al, Fit(prefix)).None?
    ensures |prefix| < IFNAMSIZ ==> Unique(Added(al, prefix))
  {
    hide Fit, Lookup;
    LookupFinds(al, prefix);
    LookupFinds(al, Fit(prefix));
    var al' := Added(al, prefix);
    if Lookup(al, prefix).None? && Lookup(al, Fit(prefix)).Some? {
      var i :| 0 <= i < |al| && al[i].key == Fit(prefix);
      assert al'[i].key == al'[|al|].key;
    }
  }

  /** Two adds of one prefix of 16 or more characters store the same truncated prefix twice. */
  lemma LongPrefixStoredTwice(prefix: string)
    requires |prefix| >= IFNAMSIZ
    ensures var e := Pair(Fit(prefix), Entry(prefix)); Added(Added([], prefix), prefix) == [e, e]
    ensures !Unique(Added(Added([], prefix), prefix))
  {
    var e := Pair(Fit(prefix), Entry(prefix));
    assert Added([], prefix) == [e];
    LookupFinds([e], prefix);
    var al := Added([e], prefix);
    assert al == [e, e];
    assert al[0].key == al[1].key;
  }

  /** Creating and then deleting a new port gives back the old registry exactly when the prefix fits the buffer. */
  lemma CreateDeleteRestoresIff(al: seq<Pair>, prefix: string)
    requires Lookup(al, prefix).None?
    ensures Drop(Added(al, prefix), prefix) == al <==> |prefix| < IFNAMSIZ
  {
    hide Entry, Drop, Lookup;
    var al' := Added(al, prefix);
    LookupFinds(al, prefix);
    if |prefix| < IFNAMSIZ {
      DropAt(al', |al|);
    } else {
      LookupFinds(al', prefix);
      DropAbsent(al', prefix);
    }
  }

  lemma {:induction false} DropKeeps(al: seq<Pair>, key: string)
    ensures forall i :: 0 <= i < |Drop(al, key)| ==> Drop(al, key)[i] in al
    ensures Unique(al) ==> Unique(Drop(al, key))
  {
    if al != [] && al[0].key != key {
      DropKeeps(al[1..], key);
    }
  }

  /** A client's command; `mallocOk` is the outcome of malloc. */
  datatype Command = CreatePort(prefix: string, mallocOk: bool) | DeletePort(prefix: string)

  function ApplyCommand(al: seq<Pair>, c: Command): seq<Pair> {
    match c
    case CreatePort(p, mallocOk) => if mallocOk then Added(al, p) else al
    case DeletePort(p) => Drop(al, p)
  }

  /** A command for a stored prefix leaves a unique list as it is, or takes that entry out. */
  lemma CommandOnStored(al: seq<Pair>, i: nat, mallocOk: bool)
    requires Unique(al) && i < |al|
    ensures ApplyCommand(al, Command.CreatePort(al[i].key, mallocOk)) == al
    ensures ApplyCommand(al, Command.DeletePort(al[i].key)) == al[..i] + al[i + 1..]
  {
    hide Drop;
    LookupFinds(al, al[i].key);
    DropAt(al, i);
  }

  /** A command for a prefix that is not stored appends its entry or does nothing. */
  lemma CommandOnNew(al: seq<Pair>, p: string)
    requires forall i :: 0 <= i < |al| ==> al[i].key != p
    ensures ApplyCommand(al, Command.CreatePort(p, true)) == al + [Pair(Fit(p), Entry(p))]
    ensures ApplyCommand(al, Command.CreatePort(p, false)) == ApplyCommand(al, Command.DeletePort(p)) == al
  {
    hide Drop, Fit, Entry;
    LookupFinds(al, p);
    DropAbsent(al, p);
  }

  /** `al'` is `al` without one entry that has the key. */
  ghost predicate TakenOut(al: seq<Pair>, key: string, al': seq<Pair>) {
    exists i :: 0 <= i < |al| && al[i].key == key && al' == al[..i] + al[i + 1..]
  }

  ghost predicate Stored(al: seq<Pair>, key: string) {
    exists i :: 0 <= i < |al| && al[i].key == key
  }

  /** What a command does to any list of entries, whatever the prefixes in it. */
  ghost predicate Commanded(al: seq<Pair>, c: Command, al': seq<Pair>) {
    match c
    case CreatePort(p, mallocOk) => al' == if mallocOk && !Stored(al, p) then al + [Pair(Fit(p), Entry(p))] else al
    case DeletePort(p) => if Stored(al, p) then TakenOut(al, p, al') else al' == al
  }

  /** A run of commands, with the list after each of them. */
  ghost predicate CommandedAll(al: seq<Pair>, cs: seq<Command>, lists: seq<seq<Pair>>) {
    && |lists| == |cs| + 1 && lists[0] == al
    && forall n :: 0 <= n < |cs| ==> Commanded(lists[n], cs[n], lists[n + 1])
  }

  lemma NothingCommanded(al: seq<Pair>)
    ensures CommandedAll(al, [], [al])
  {
  }

  lemma OneMoreCommanded(al: seq<Pair>, cs: seq<Command>, n: nat, lists: seq<seq<Pair>>, al': seq<Pair>)
    requires n < |cs| && CommandedAll(al, cs[..n], lists) && Commanded(lists[n], cs[n], al')
    ensures CommandedAll(al, cs[..n + 1], lists + [al'])
  {
    hide Commanded;
    var cs', lists' := cs[..n + 1], lists + [al'];
    forall i | 0 <= i < |cs'| ensures Commanded(lists'[i], cs'[i], lists'[i + 1]) {
      assert i < n ==> Commanded(lists[i], cs[..n][i], lists[i + 1]);
    }
  }

  /** A new port that is created and deleted leaves the entries as they were exactly when the prefix fits the buffer. */
  lemma CommandsRestoreIff(al: seq<Pair>, p: string, lists: seq<seq<Pair>>)
    requires !Stored(al, p) && CommandedAll(al, [Command.CreatePort(p, true), Command.DeletePort(p)], lists)
    ensures lists[2] == al <==> |p| <= 15
  {
    hide Entry;
    var cs := [Command.CreatePort(p, true), Command.DeletePort(p)];
    var al', al'' := lists[1], lists[2];
    assert Commanded(lists[0], cs[0], lists[0 + 1]) && Commanded(lists[1], cs[1], lists[1 + 1]);
    assert al' == al + [Pair(Fit(p), Entry(p))];
    if Stored(al', p) {
      var i :| 0 <= i < |al'| && al'[i].key == p && al'' == al'[..i] + al'[i + 1..];
      assert i == |al|;
      assert |Fit(p)| <= 15;
    } else {
      assert al'[|al|].key == Fit(p);
    }
  }

  /** Stored prefixes of at most `m` characters. */
  ghost predicate Within(al: seq<Pair>, m: nat) {
    forall i :: 0 <= i < |al| ==> |al[i].key| <= m
  }

  ghost predicate PrefixesWithin(cs: seq<Command>, m: nat) {
    forall i :: 0 <= i < |cs| ==> |cs[i].prefix| <= m
  }

  lemma CommandKeeps(al: seq<Pair>, c: Command, m: nat)
    requires Entries(al)
    ensures Entries(ApplyCommand(al, c))
    ensures Within(al, m) && |c.prefix| <= m ==> Within(ApplyCommand(al, c), m)
    ensures Unique(al) && |c.prefix| < IFNAMSIZ ==> Unique(ApplyCommand(al, c))
  {
    hide Entry, Drop, Lookup;
    if c.CreatePort? {
      EntryOfFit(c.prefix);
      if Unique(al) {
        AddKeepsUniqueIff(al, c.prefix);
      }
    } else {
      DropKeeps(al, c.prefix);
    }
  }

  /** Every registry reached with prefixes that fit the buffer holds each prefix once, with the names built from it. */
  lemma {:induction false} ReachableUnique(al: seq<Pair>, cs: seq<Command>, m: nat)
    requires Unique(al) && Entries(al) && Within(al, m) && PrefixesWithin(cs, m) && m < IFNAMSIZ
    ensures var r := ApplyAll(ApplyCommand, al, cs); Unique(r) && Entries(r) && Within(r, m)
    decreases |cs|
  {
    hide Unique, Entries, ApplyCommand;
    if cs != [] {
      CommandKeeps(al, cs[0], m);
      ReachableUnique(ApplyCommand(al, cs[0]), cs[1..], m);
    }
  }

  /** With prefixes of at most 13 characters the names of all interfaces ever registered together are distinct. */
  lemma {:induction false} ReachableNamesDistinct(cs: seq<Command>)
    requires PrefixesWithin(cs, 13)
    ensures NamesDistinct(ApplyAll(ApplyCommand, [], cs))
  {
    ReachableUnique([], cs, 13);
    NamesDistinctIff(ApplyAll(ApplyCommand, [], cs));
  }

  // ----- runs over registries that hold a prefix more than once

  lemma SameMembers(al: seq<Pair>, bl: seq<Pair>)
    requires multiset(al) == multiset(bl)
    ensures forall p :: p in al ==> p in bl
  {
    forall p | p in al ensures p in bl {
      assert p in multiset(al);
    }
  }

  /** A lookup cannot tell apart two lists with the same pairs in them. */
  lemma LookupOfSame(al: seq<Pair>, bl: seq<Pair>, key: string)
    requires Entries(al) && multiset(al) == multiset(bl)
    ensures Entries(bl) && Lookup(al, key) == Lookup(bl, key)
  {
    hide Lookup, Entry;
    SameMembers(al, bl);
    SameMembers(bl, al);
    LookupFinds(al, key);
    LookupFinds(bl, key);
    LookupIsMember(al, key);
    LookupIsMember(bl, key);
    assert forall i :: 0 <= i < |bl| ==> bl[i] in al;
    assert forall i :: 0 <= i < |al| ==> al[i] in bl;
  }

  lemma CommandOnSame(al: seq<Pair>, bl: seq<Pair>, c: Command)
    requires Entries(al) && multiset(al) == multiset(bl)
    ensures multiset(ApplyCommand(al, c)) == multiset(ApplyCommand(bl, c))
  {
    hide Lookup, Entry;
    LookupOfSame(al, bl, c.prefix);
    DropTakesOne(al, c.prefix);
    DropTakesOne(bl, c.prefix);
  }

  lemma {:induction false} RunOnSame(al: seq<Pair>, bl: seq<Pair>, cs: seq<Command>)
    requires Entries(al) && multiset(al) == multiset(bl)
    ensures multiset(ApplyAll(ApplyCommand, al, cs)) == multiset(ApplyAll(ApplyCommand, bl, cs))
    decreases |cs|
  {
    hide Entries, ApplyCommand;
    if cs != [] {
      CommandOnSame(al, bl, cs[0]);
      CommandKeeps(al, cs[0], 0);
      RunOnSame(ApplyCommand(al, cs[0]), ApplyCommand(bl, cs[0]), cs[1..]);
    }
  }

  // ----- the registry in the hash table

  /** Every entry is stored under its prefix and carries the names built from it. */
  ghost predicate Registry(t: HashTable)
    reads t, t.buckets, t.items, Members(t.chains)
  {
    t.Valid() && forall i :: 0 <= i < |t.items| ==>
                   t.items[i].data == Entry(t.items[i].key) && t.items[i].key == t.items[i].data.prefix
  }

  lemma RegistryIsValid(t: HashTable)
    requires Registry(t)
    ensures t.Valid()
  {
  }

  lemma RegistryEntries(t: HashTable)
    requires Registry(t)
    ensures Entries(Pairs(t.items)) && (Unique(Pairs(t.items)) <==> DistinctKeys(t.items))
  {
  }

  lemma EntryOfFit(prefix: string)
    ensures Entry(Fit(prefix)) == Entry(prefix)
  {
    if |prefix| >= IFNAMSIZ {
      var p := Fit(prefix);
      assert (p + "_inner")[..15] == p == (prefix + "_inner")[..15];
      assert (p + "_outer")[..15] == p == (prefix + "_outer")[..15];
    }
  }

  /** The chains in which the table puts a new entry. */
  ghost function OldChains(t: HashTable): seq<seq<Element>>
    reads t
  {
    if t.items == [] then EmptyChains() else t.chains
  }

  /** The part of veth_list_add behind the checks: a new entry is filled in and added. */
  method AddEntry(t: HashTable, prefix: string) returns (ghost entry: Element)
    requires Registry(t)
    modifies t, t.buckets, t.items`prev, t.items`next, t.items`hhPrev, t.items`hhNext
    ensures Registry(t) && (t.buckets == old(t.buckets) || fresh(t.buckets))
    ensures t.items == old(t.items) + [entry] && fresh(entry)
    ensures entry.key == Fit(prefix) && entry.data == Entry(prefix)
    ensures Chained(old(OldChains(t)), entry, t.chains)
  {
    hide HashTable.Structure, Fit, Chained;
    t.IterationFacts();
    var e := new Element(Data(Fit(prefix), Fit(prefix + "_inner"), Fit(prefix + "_outer")));
    entry := e;
    EntryOfFit(prefix);
    t.Add(e, e.data.prefix);
  }

  /** veth_list_add; `mallocOk` is the outcome of malloc. */
  method VethListAdd(t: HashTable, prefix: string, mallocOk: bool) returns (rc: int, ghost entry: Element?)
    requires Registry(t)
    modifies t, t.buckets, t.items`prev, t.items`next, t.items`hhPrev, t.items`hhNext
    ensures Registry(t) && (t.buckets == old(t.buckets) || fresh(t.buckets))
    ensures rc == if old(HasKey(t.items, prefix)) || !mallocOk then -1 else 0
    ensures rc < 0 ==> t.items == old(t.items) && t.chains == old(t.chains)
    ensures rc == 0 ==> entry != null && fresh(entry) && t.items == old(t.items) + [entry]
    ensures rc == 0 ==> entry.key == Fit(prefix) && entry.data == Entry(prefix)
    ensures rc == 0 ==> Chained(old(OldChains(t)), entry, t.chains)
    ensures Pairs(t.items) == if mallocOk then Added(old(Pairs(t.items)), prefix) else old(Pairs(t.items))
  {
    hide Registry, HashTable.Valid, Fit, Entry, Pairs, HasKey, Lookup, HashTable.Found, Chained;
    entry := null;
    RegistryIsValid(t);
    t.IterationFacts();
    LookupIsFind(t.items, prefix);
    var found := t.Find(prefix);
    if found != null {
      return -1, null;
    }
    if !mallocOk {
      return -1, null;
    }
    entry := AddNewKey(t, prefix);
    return 0, entry;
  }

  method AddNewKey(t: HashTable, prefix: string) returns (ghost entry: Element)
    requires Registry(t)
    modifies t, t.buckets, t.items`prev, t.items`next, t.items`hhPrev, t.items`hhNext
    ensures Registry(t) && (t.buckets == old(t.buckets) || fresh(t.buckets))
    ensures t.items == old(t.items) + [entry] && fresh(entry)
    ensures entry.key == Fit(prefix) && entry.data == Entry(prefix)
    ensures Chained(old(OldChains(t)), entry, t.chains)
    ensures Pairs(t.items) == old(Pairs(t.items)) + [Pair(Fit(prefix), Entry(prefix))]
  {
    hide HashTable.Structure, Fit, Entry, Pairs, Registry, Chained;
    ghost var items := t.items;
    entry := AddEntry(t, prefix);
    PairsOfAppend(items, entry);
  }

  /** What the list of pairs loses with an entry, and what it loses when there is none. */
  lemma PairsAfterRemoval(items: seq<Element>, e: Element?, key: string)
    requires Entries(Pairs(items))
    requires if e == null then !HasKey(items, key) else e in items && e.key == key
    ensures var rest := if e == null then items else Minus(items, e);
            && multiset(Pairs(rest)) == multiset(Drop(Pairs(items), key))
            && (DistinctKeys(items) ==> Pairs(rest) == Drop(Pairs(items), key))
  {
    hide Pairs, Drop, Lookup, Entry, DistinctKeys, HasKey, Minus;
    var al := Pairs(items);
    LookupIsFind(items, key);
    if e == null {
      DropAbsent(al, key);
    } else {
      MemberHasKey(items, e);
      DropTakesOne(al, key);
      MinusTakesOne(items, e);
      LookupIsMember(al, key);
      var i :| 0 <= i < |items| && items[i] == e;
      assert al[i] == Pair(key, e.data) && e.data == Entry(key) == Lookup(al, key).value;
      if DistinctKeys(items) {
        DropIsMinus(items, e);
      }
    }
  }

  lemma MemberHasKey(items: seq<Element>, e: Element)
    requires e in items
    ensures HasKey(items, e.key)
  {
  }

  /** veth_list_remove: the entry found is deleted and freed. */
  method VethListRemove(t: HashTable, prefix: string) returns (rc: int, ghost victim: Element?)
    requires Registry(t)
    modifies t, t.buckets, t.items`prev, t.items`next, t.items`hhPrev, t.items`hhNext, t.items`freed
    ensures Registry(t) && t.buckets == old(t.buckets)
    ensures victim == old(t.Found(prefix)) && rc == if victim == null then -1 else 0
    ensures victim == null <==> !old(HasKey(t.items, prefix))
    ensures victim == null ==> t.items == old(t.items) && t.chains == old(t.chains)
    ensures victim != null ==> victim in old(t.items) && victim.key == prefix && victim.freed
    ensures victim != null ==> t.items == Minus(old(t.items), victim)
    ensures victim != null && t.items != [] ==> t.chains == ChainsMinus(old(t.chains), victim)
    ensures forall e :: e in old(t.items) && e != victim ==> e.freed == old(e.freed)
    ensures multiset(Pairs(t.items)) == multiset(Drop(old(Pairs(t.items)), prefix))
    ensures old(DistinctKeys(t.items)) ==> Pairs(t.items) == Drop(old(Pairs(t.items)), prefix)
  {
    hide HashTable.Structure, Entry, Pairs, Drop, DistinctKeys, Minus, HasKey, HashTable.Found, ChainsMinus, Registry;
    var found, al := FindEntry(t, prefix);
    victim := found;
    if found == null {
      return -1, null;
    }
    DeleteAndFree(t, found);
    return 0, found;
  }

  /** The lookup of veth_list_remove, and what the list of pairs is without the entry found. */
  method FindEntry(t: HashTable, prefix: string) returns (found: Element?, ghost rest: seq<Pair>)
    requires Registry(t)
    ensures Registry(t) && found == old(t.Found(prefix)) && (found == null <==> !HasKey(t.items, prefix))
    ensures found != null ==> found in t.items && found.key == prefix
    ensures rest == Pairs(if found == null then t.items else Minus(t.items, found))
    ensures multiset(rest) == multiset(Drop(old(Pairs(t.items)), prefix))
    ensures old(DistinctKeys(t.items)) ==> rest == Drop(old(Pairs(t.items)), prefix)
  {
    hide HashTable.Structure, Entry, Pairs, Drop, DistinctKeys, Minus, HasKey, HashTable.Found, Entries;
    t.IterationFacts();
    RegistryEntries(t);
    found := t.Find(prefix);
    PairsAfterRemoval(t.items, found, prefix);
    rest := Pairs(if found == null then t.items else Minus(t.items, found));
  }

  /** HASH_DEL followed by free(). */
  method DeleteAndFree(t: HashTable, del: Element)
    requires Registry(t) && del in t.items
    modifies t, t.buckets, t.items`prev, t.items`next, t.items`hhPrev, t.items`hhNext, del`freed
    ensures Registry(t) && t.buckets == old(t.buckets)
    ensures t.items == Minus(old(t.items), del) && del.freed && Pairs(t.items) == old(Pairs(Minus(t.items, del)))
    ensures t.items != [] ==> t.chains == ChainsMinus(old(t.chains), del)
  {
    hide HashTable.Structure, Entry, Minus, Registry, HashTable.Valid, ChainsMinus, Pairs;
    MinusIsPart(t.items, del);
    DeleteEntry(t, del);
    FreeUnlinked(t, del);
  }

  method DeleteEntry(t: HashTable, del: Element)
    requires Registry(t) && del in t.items
    modifies t, t.buckets, t.items`prev, t.items`next, t.items`hhPrev, t.items`hhNext
    ensures Registry(t) && t.buckets == old(t.buckets)
    ensures t.items == Minus(old(t.items), del) && del !in t.items && !del.freed
    ensures t.items != [] ==> t.chains == ChainsMinus(old(t.chains), del)
  {
    hide HashTable.Structure, Entry, Minus, ChainsMinus;
    t.IterationFacts();
    MinusMembers(t.items, del);
    t.Delete(del);
  }

  /** Freeing an element that is in no list leaves the registry alone. */
  method FreeUnlinked(t: HashTable, e: Element)
    requires Registry(t) && e !in t.items && !e.freed
    modifies e`freed
    ensures Registry(t) && e.freed
  {
    hide HashTable.Structure, Entry;
    t.IterationFacts();
    e.Free();
  }

  // ----- iterations that delete

  /** The elements HASH_ITER holds at position `k`: the current one and its successor, which it saves. */
  ghost predicate AtCursor(l: seq<Element>, k: nat, el: Element?, tmp: Element?) {
    && k <= |l|
    && el == (if k < |l| then l[k] else null)
    && tmp == (if k + 1 < |l| then l[k + 1] else null)
  }

  /** Elements of a registry are not freed, and their links lead along the list. */
  lemma IterationStep(t: HashTable, k: nat, el: Element?)
    requires t.Valid() && k <= |t.items| && el == (if k < |t.items| then t.items[k] else null)
    ensures el != null ==> !el.freed
    ensures AtCursor(t.items, k, el, if el != null then el.next else null)
  {
    t.IterationFacts();
  }

  /** One iteration of veth_list_destroy: the loop body, then the step to the saved successor. */
  method DestroyStep(t: HashTable, el: Element, tmp: Element?, ghost all: seq<Element>, ghost i: nat)
    returns (el': Element?, tmp': Element?)
    requires Registry(t) && i < |all| && t.items == all[i..] && AtCursor(t.items, 0, el, tmp)
    modifies t, t.buckets, t.items`prev, t.items`next, t.items`hhPrev, t.items`hhNext, el`freed
    ensures Registry(t) && t.buckets == old(t.buckets) && t.items == all[i + 1..] && el.freed
    ensures all[..i + 1] == all[..i] + [el] && AtCursor(t.items, 0, el', tmp')
  {
    hide HashTable.Structure, Entry, Registry;
    DeleteAndFree(t, el);
    el' := tmp;
    RegistryIsValid(t);
    IterationStep(t, 0, el');
    tmp' := if el' != null then el'.Next() else null;
  }

  /** veth_list_destroy, which gets the head by value: the entries are visited and freed one by one, in the order of
      the list; the pointer that was passed is left as it is. */
  method VethListDestroy(t: HashTable, vethMap: Element?) returns (ghost visited: seq<Element>)
    requires Registry(t) && vethMap == t.head
    modifies t, t.buckets, t.items`prev, t.items`next, t.items`hhPrev, t.items`hhNext, t.items`freed
    ensures Registry(t) && t.items == [] && t.head == null && t.buckets == old(t.buckets)
    ensures visited == old(t.items) && forall i :: 0 <= i < |visited| ==> visited[i].freed
    ensures vethMap == if visited == [] then null else visited[0]
  {
    hide HashTable.Structure, Entry, Minus, Distinct, Registry;
    RegistryIsValid(t);
    t.IterationFacts();
    IterationStep(t, 0, vethMap);
    ghost var all := t.items;
    visited := [];
    var el := vethMap;
    var tmp: Element? := if vethMap != null then vethMap.Next() else null;
    while el != null
      invariant Registry(t) && t.buckets == old(t.buckets)
      invariant |visited| <= |all| && visited == all[..|visited|] && t.items == all[|visited|..]
      invariant AtCursor(t.items, 0, el, tmp)
      invariant forall i :: 0 <= i < |visited| ==> visited[i].freed
      decreases |all| - |visited|
    {
      visited := visited + [el];
      el, tmp := DestroyStep(t, el, tmp, all, |visited| - 1);
    }
    RegistryIsValid(t);
    t.IterationFacts();
  }

  /** The registry part of delete_port: the entry goes, and the names for the scripts are formed. */
  method DeletePort(t: HashTable, prefix: string) returns (inner: string, outer: string, ghost victim: Element?)
    requires Registry(t)
    modifies t, t.buckets, t.items`prev, t.items`next, t.items`hhPrev, t.items`hhNext, t.items`freed
    ensures Registry(t) && t.buckets == old(t.buckets) && inner == Inner(prefix) && outer == Outer(prefix)
    ensures victim == old(t.Found(prefix)) && (victim == null <==> !old(HasKey(t.items, prefix)))
    ensures victim == null ==> t.items == old(t.items) && t.chains == old(t.chains)
    ensures victim != null ==> victim in old(t.items) && victim.key == prefix && victim.freed
    ensures victim != null ==> t.items == Minus(old(t.items), victim)
    ensures victim != null && t.items != [] ==> t.chains == ChainsMinus(old(t.chains), victim)
    ensures forall e :: e in old(t.items) && e != victim ==> e.freed == old(e.freed)
    ensures multiset(Pairs(t.items)) == multiset(Drop(old(Pairs(t.items)), prefix))
    ensures old(DistinctKeys(t.items)) ==> Pairs(t.items) == Drop(old(Pairs(t.items)), prefix)
  {
    hide HashTable.Structure, Entry, Pairs, Drop, DistinctKeys, Minus, HasKey, HashTable.Found, ChainsMinus;
    inner, outer := Inner(prefix), Outer(prefix);
    var rc;
    rc, victim := VethListRemove(t, prefix);
  }

  // ----- unload_list

  /** What unload_list still does from position `k` of the registry on. */
  ghost function Outlook(t: HashTable, k: nat): Outcome
    reads t, t.items`key, Members(t.chains)`key
  {
    Unload(t.items, t.chains, t.hash, k)
  }

  lemma RegistryConsistent(t: HashTable)
    requires Registry(t) && t.items != []
    ensures t.head != null && Consistent(t.items, t.chains, t.hash)
    ensures forall e :: e in Members(t.chains) ==> e in t.items
  {
    t.IterationFacts();
  }

  /** Where the saved successor is after a deletion. */
  lemma CursorAfterMinus(l: seq<Element>, k: nat, v: Element)
    requires Distinct(l) && k < |l| && v in l && v != After(l, k)
    ensures var l', k' := Minus(l, v), NextPosition(l, k, v);
            k' <= |l'| && After(l, k) == (if k' < |l'| then l'[k'] else null)
  {
    hide Minus, Distinct;
    var p :| 0 <= p < |l| && l[p] == v;
    MinusIsWithout(l, p);
    if p <= k {
      assert l[..k + 1][p] == v;
    } else {
      assert p > k + 1;
      NotBefore(l, k, p);
    }
  }

  lemma NotBefore(l: seq<Element>, k: nat, p: nat)
    requires Distinct(l) && k < p < |l|
    ensures l[p] !in l[..k + 1]
  {
  }

  /** The lookup in the loop's body, and what the walk does with its result. */
  lemma UnloadVisit(t: HashTable, k: nat)
    requires Registry(t) && k < |t.items|
    ensures var l, v := t.items, t.Found(t.items[k].key);
            && v != null && v in l
            && (forall e :: e in Minus(l, v) || e in Members(ChainsMinus(t.chains, v)) ==> e in l)
            && Outlook(t, k) == (if v == After(l, k) then Faults
                                 else Unload(Minus(l, v), ChainsMinus(t.chains, v), t.hash, NextPosition(l, k, v)))
            && (v != After(l, k) ==>
                  var l', k' := Minus(l, v), NextPosition(l, k, v);
                  k <= k' <= |l'| && After(l, k) == (if k' < |l'| then l'[k'] else null))
  {
    hide Registry, Consistent, FoundIn, ChainsMinus, NextPosition, Distinct;
    RegistryConsistent(t);
    RegistryIsValid(t);
    t.DistinctItems();
    FoundIsThere(t.items, t.chains, t.hash, k);
    var v := t.Found(t.items[k].key);
    MinusIsPart(t.items, v);
    ChainsMinusIsPart(t.chains, v);
    if v != After(t.items, k) {
      CursorAfterMinus(t.items, k, v);
      PositionInBounds(t.items, k, v);
    }
  }

  lemma UnloadOfNothing(chains: seq<seq<Element>>, chains': seq<seq<Element>>, hash: string -> nat, k: nat)
    ensures Unload([], chains, hash, k) == Unload([], chains', hash, k) == Ends([])
  {
  }

  /** The body of unload_list's loop: the entry the lookup finds is deleted. */
  method UnloadBody(t: HashTable, el: Element, ghost k: nat) returns (ghost k': nat, ghost v: Element)
    requires Registry(t) && k < |t.items| && el == t.items[k]
    modifies t, t.buckets, t.items`prev, t.items`next, t.items`hhPrev, t.items`hhNext, t.items`freed
    ensures Registry(t) && t.buckets == old(t.buckets)
    ensures v in old(t.items) && v.freed && t.items == Minus(old(t.items), v) && k <= k'
    ensures v == old(After(t.items, k)) ==> old(Outlook(t, k)) == Faults
    ensures v != old(After(t.items, k)) ==>
              && Outlook(t, k') == old(Outlook(t, k)) && k' <= |t.items|
              && old(After(t.items, k)) == (if k' < |t.items| then t.items[k'] else null)
              && (k' == 0 ==> v == el)
  {
    hide HashTable.Structure, Entry, Pairs, Drop, DistinctKeys, Minus, HasKey, HashTable.Found, ChainsMinus, Unload;
    hide Lookup;
    t.IterationFacts();
    UnloadVisit(t, k);
    v := t.Found(el.key);
    k' := NextPosition(t.items, k, v);
    ghost var rest, chains := Minus(t.items, v), ChainsMinus(t.chains, v);
    ghost var outlook := Unload(rest, chains, t.hash, k');
    var inner, outer, victim := DeletePort(t, el.Prefix());
    assert victim == v;
    assert t.items == rest;
    assert Unload(rest, chains, t.hash, k') == outlook;
    if t.items == [] {
      UnloadOfNothing(t.chains, chains, t.hash, k');
    } else {
      assert t.chains == chains;
    }
  }

  /** One iteration of unload_list: the body, then the step to the saved successor, unless that has been freed. */
  method UnloadStep(t: HashTable, el: Element, tmp: Element?, ghost k: nat)
    returns (faulted: bool, el': Element?, tmp': Element?, ghost k': nat)
    requires Registry(t) && k < |t.items| && AtCursor(t.items, k, el, tmp)
    modifies t, t.buckets, t.items`prev, t.items`next, t.items`hhPrev, t.items`hhNext, t.items`freed
    ensures Registry(t) && t.buckets == old(t.buckets) && k <= k'
    ensures forall i :: 0 <= i < |t.items| ==> t.items[i] in old(t.items)
    ensures forall e :: e in old(t.items) && e !in t.items ==> e.freed
    ensures faulted ==> old(Outlook(t, k)) == Faults
    ensures !faulted ==> Outlook(t, k') == old(Outlook(t, k)) && AtCursor(t.items, k', el', tmp')
    ensures !faulted ==> |t.items| - k' < old(|t.items|) - k && (k' == 0 ==> t.items == old(t.items)[1..])
  {
    hide HashTable.Structure, Entry, Registry, Unload, NextPosition, Outlook;
    ghost var l := t.items;
    RegistryIsValid(t);
    t.DistinctItems();
    ghost var v;
    k', v := UnloadBody(t, el, k);
    MinusMembers(l, v);
    RegistryIsValid(t);
    if v != After(l, k) {
      IterationStep(t, k', tmp);
    }
    el', tmp' := null, null;
    faulted := tmp != null && tmp.freed;
    if !faulted {
      el' := tmp;
      tmp' := if tmp != null then tmp.Next() else null;
    }
  }

  /** unload_list, which starts from the daemon's head pointer `veths`. The run stops where it would follow a freed
      entry; `visited` are the entries it has come to. */
  method UnloadList(t: HashTable, veths: Element?) returns (faulted: bool, ghost visited: seq<Element>)
    requires Registry(t) && (veths == t.head || (veths != null && veths.freed))
    modifies t, t.buckets, t.items`prev, t.items`next, t.items`hhPrev, t.items`hhNext, t.items`freed
    ensures Registry(t)
    ensures veths != old(t.head) ==> faulted && t.items == old(t.items)
    ensures veths == old(t.head) ==> (faulted <==> old(Outlook(t, 0)) == Faults)
    ensures !faulted ==> old(Outlook(t, 0)) == Ends(t.items)
    ensures !faulted && t.items == [] ==> visited == old(t.items)
    ensures forall e :: e in old(t.items) ==> (e.freed <==> e !in t.items)
    ensures veths == old(t.head) && old(DistinctKeys(t.items)) ==> !faulted && t.items == []
    ensures !faulted && t.items == [] <==> veths == old(t.head) && old(InChainOrder(t.items, t.chains))
  {
    hide HashTable.Structure, Entry, Registry, Unload, Outlook, InChainOrder, DistinctKeys;
    RegistryIsValid(t);
    UnloadWhole(t);
    StillLive(t);
    if veths != null && veths.freed {
      return true, [];
    }
    IterationStep(t, 0, veths);
    faulted, visited := UnloadWalk(t, veths, if veths != null then veths.Next() else null);
  }

  /** The loop of unload_list. */
  method UnloadWalk(t: HashTable, first: Element?, second: Element?)
    returns (faulted: bool, ghost visited: seq<Element>)
    requires Registry(t) && AtCursor(t.items, 0, first, second)
    modifies t, t.buckets, t.items`prev, t.items`next, t.items`hhPrev, t.items`hhNext, t.items`freed
    ensures Registry(t) && old(Outlook(t, 0)) == if faulted then Faults else Ends(t.items)
    ensures !faulted && t.items == [] ==> visited == old(t.items)
    ensures forall e :: e in old(t.items) ==> (e.freed <==> e !in t.items)
  {
    hide HashTable.Structure, Entry, Registry, Unload, Outlook, AtCursor;
    RegistryIsValid(t);
    t.DistinctItems();
    var el, tmp := first, second;
    visited, faulted := [], false;
    ghost var k := 0;
    while el != null && !faulted
      invariant Registry(t) && t.buckets == old(t.buckets)
      invariant !faulted ==> AtCursor(t.items, k, el, tmp) && Outlook(t, k) == old(Outlook(t, 0))
      invariant faulted ==> old(Outlook(t, 0)) == Faults
      invariant forall i :: 0 <= i < |t.items| ==> t.items[i] in old(t.items)
      invariant forall e :: e in old(t.items) && e !in t.items ==> e.freed
      invariant !faulted && k == 0 ==> visited + t.items == old(t.items)
      decreases !faulted, |t.items| - k
    {
      CursorThere(t.items, k, el, tmp, visited);
      visited := visited + [el];
      faulted, el, tmp, k := UnloadStep(t, el, tmp, k);
    }
    StillLive(t);
    if !faulted {
      WalkOver(t, k, tmp);
    }
  }

  lemma UnloadWhole(t: HashTable)
    requires Registry(t)
    ensures Outlook(t, 0) == Ends([]) <==> InChainOrder(t.items, t.chains)
    ensures DistinctKeys(t.items) ==> InChainOrder(t.items, t.chains)
  {
    hide Registry, Consistent, Unload, InChainOrder, DistinctKeys;
    if DistinctKeys(t.items) {
      DistinctKeysInOrder(t.items, t.chains);
    }
    if t.items == [] {
      UnloadOfNothing(t.chains, t.chains, t.hash, 0);
      NothingInOrder(t.chains);
    } else {
      RegistryConsistent(t);
      UnloadCleanIff(t.items, t.chains, t.hash);
    }
  }

  lemma CursorThere(l: seq<Element>, k: nat, el: Element, tmp: Element?, visited: seq<Element>)
    requires AtCursor(l, k, el, tmp)
    ensures k < |l| && l[k] == el && (k == 0 ==> visited + [el] + l[1..] == visited + l)
  {
    assert k == 0 ==> l == [el] + l[1..];
  }

  lemma NothingInOrder(chains: seq<seq<Element>>)
    ensures InChainOrder([], chains)
  {
  }

  lemma StillLive(t: HashTable)
    requires Registry(t)
    ensures forall e :: e in t.items ==> !e.freed
    ensures t.head == if t.items == [] then null else t.items[0]
  {
    t.IterationFacts();
    forall e | e in t.items ensures !e.freed {
      var i :| 0 <= i < |t.items| && t.items[i] == e;
    }
  }

  lemma WalkOver(t: HashTable, k: nat, tmp: Element?)
    requires AtCursor(t.items, k, null, tmp)
    ensures Outlook(t, k) == Ends(t.items) && |t.items| == k
  {
  }

  /** The daemon's way out of its main loop: veth_list_destroy gets `veths` by value, so unload_list starts from the
      same pointer. It follows no freed entry exactly when the registry was empty. */
  method StopDaemon(t: HashTable) returns (faulted: bool)
    requires Registry(t)
    modifies t, t.buckets, t.items`prev, t.items`next, t.items`hhPrev, t.items`hhNext, t.items`freed
    ensures faulted <==> old(t.items) != []
    ensures Registry(t) && t.items == []
  {
    hide HashTable.Structure, Entry, Registry, InChainOrder, DistinctKeys, Outlook;
    var veths := t.head;
    ghost var visited := VethListDestroy(t, veths);
    NothingInOrder(t.chains);
    faulted, visited := UnloadList(t, veths);
  }

  // ----- commands

  /** The registry part of create_port: the interfaces are created whether or not the entry is new. */
  method CreatePort(t: HashTable, prefix: string, mallocOk: bool) returns (inner: string, outer: string)
    requires Registry(t)
    modifies t, t.buckets, t.items`prev, t.items`next, t.items`hhPrev, t.items`hhNext
    ensures Registry(t) && (t.buckets == old(t.buckets) || fresh(t.buckets))
    ensures inner == Inner(prefix) && outer == Outer(prefix)
    ensures Pairs(t.items) == if mallocOk then Added(old(Pairs(t.items)), prefix) else old(Pairs(t.items))
    ensures !mallocOk || old(HasKey(t.items, prefix)) ==> t.items == old(t.items)
    ensures forall i :: 0 <= i < |t.items| ==> t.items[i] in old(t.items) || fresh(t.items[i])
  {
    hide HashTable.Structure, Entry, Pairs, HasKey, Registry, Chained;
    var rc;
    ghost var entry;
    rc, entry := VethListAdd(t, prefix, mallocOk);
    inner, outer := Inner(prefix), Outer(prefix);
  }

  /** handle_command: create_port and delete_port are dispatched by name. */
  method HandleCommand(t: HashTable, c: Command)
    requires Registry(t)
    modifies t, t.buckets, t.items`prev, t.items`next, t.items`hhPrev, t.items`hhNext, t.items`freed
    ensures Registry(t) && (t.buckets == old(t.buckets) || fresh(t.buckets))
    ensures multiset(Pairs(t.items)) == multiset(ApplyCommand(old(Pairs(t.items)), c))
    ensures old(DistinctKeys(t.items)) ==> Pairs(t.items) == ApplyCommand(old(Pairs(t.items)), c)
    ensures forall i :: 0 <= i < |t.items| ==> t.items[i] in old(t.items) || fresh(t.items[i])
    ensures Commanded(old(Pairs(t.items)), c, Pairs(t.items))
  {
    hide HashTable.Structure, Entry, Pairs, DistinctKeys, Drop, Added, Registry, HasKey, HashTable.Found, ChainsMinus;
    hide Stored, TakenOut, Fit;
    ghost var items := t.items;
    RegistryDistinct(t);
    StoredIsKey(items, c.prefix);
    AddedIsCommanded(Pairs(items), c.prefix);
    match c
    case CreatePort(p, mallocOk) =>
      var inner, outer := CreatePort(t, p, mallocOk);
    case DeletePort(p) =>
      var inner, outer, victim := DeletePort(t, p);
      if victim != null {
        MinusIsPart(items, victim);
        MinusTakesOut(items, victim);
      }
  }

  lemma RegistryDistinct(t: HashTable)
    requires Registry(t)
    ensures Distinct(t.items)
  {
    t.DistinctItems();
  }

  lemma StoredIsKey(items: seq<Element>, key: string)
    ensures Stored(Pairs(items), key) <==> HasKey(items, key)
  {
    if HasKey(items, key) {
      var i :| 0 <= i < |items| && items[i].key == key;
      assert Pairs(items)[i].key == key;
    }
  }

  lemma AddedIsCommanded(al: seq<Pair>, p: string)
    ensures Added(al, p) == if Stored(al, p) then al else al + [Pair(Fit(p), Entry(p))]
  {
    hide Fit, Entry, Lookup;
    LookupFinds(al, p);
  }

  lemma MinusTakesOut(items: seq<Element>, e: Element)
    requires Distinct(items) && e in items
    ensures TakenOut(Pairs(items), e.key, Pairs(Minus(items, e)))
  {
    hide Pairs, Minus;
    var k :| 0 <= k < |items| && items[k] == e;
    MinusIsWithout(items, k);
    var al, l := Pairs(items), Without(items, k);
    assert Pairs(l) == al[..k] + al[k + 1..] by {
      assert forall i :: 0 <= i < |l| ==> l[i] == items[if i < k then i else i + 1];
    }
    assert al[k].key == e.key;
  }

  /** A run of client commands leaves in the registry the pairs it leaves in a list of pairs; their order is the same
      when no prefix exceeds the buffer. */
  method HandleCommands(t: HashTable, cs: seq<Command>) returns (ghost lists: seq<seq<Pair>>)
    requires Registry(t)
    modifies t, t.buckets, t.items`prev, t.items`next, t.items`hhPrev, t.items`hhNext, t.items`freed
    ensures Registry(t)
    ensures CommandedAll(old(Pairs(t.items)), cs, lists) && lists[|cs|] == Pairs(t.items)
    ensures multiset(Pairs(t.items)) == multiset(ApplyAll(ApplyCommand, old(Pairs(t.items)), cs))
    ensures old(DistinctKeys(t.items)) && PrefixesWithin(cs, IFNAMSIZ - 1) ==>
              Pairs(t.items) == ApplyAll(ApplyCommand, old(Pairs(t.items)), cs) && DistinctKeys(t.items)
  {
    hide HashTable.Structure, Entry, Pairs, ApplyCommand, Registry, DistinctKeys, PrefixesWithin;
    hide Commanded, CommandedAll, ApplyAll;
    ghost var al := Pairs(t.items);
    lists := [al];
    NothingCommanded(al);
    assert cs[..0] == [] && cs[0..] == cs;
    ghost var inOrder := DistinctKeys(t.items) && PrefixesWithin(cs, IFNAMSIZ - 1);
    for n := 0 to |cs|
      invariant Registry(t) && (t.buckets == old(t.buckets) || fresh(t.buckets))
      invariant forall i :: 0 <= i < |t.items| ==> t.items[i] in old(t.items) || fresh(t.items[i])
      invariant multiset(ApplyAll(ApplyCommand, Pairs(t.items), cs[n..])) == multiset(ApplyAll(ApplyCommand, al, cs))
      invariant |lists| == n + 1 && lists[n] == Pairs(t.items) && CommandedAll(al, cs[..n], lists)
      invariant inOrder ==> DistinctKeys(t.items)
      invariant inOrder ==> ApplyAll(ApplyCommand, Pairs(t.items), cs[n..]) == ApplyAll(ApplyCommand, al, cs)
    {
      ghost var was := Pairs(t.items);
      RegistryEntries(t);
      NextCommand(was, cs, n);
      HandleCommand(t, cs[n]);
      RegistryEntries(t);
      RunOnSame(ApplyCommand(was, cs[n]), Pairs(t.items), cs[n + 1..]);
      OneMoreCommanded(al, cs, n, lists, Pairs(t.items));
      lists := lists + [Pairs(t.items)];
    }
    assert cs[..|cs|] == cs && cs[|cs|..] == [];
    NoCommand(Pairs(t.items));
  }

  lemma NoCommand(al: seq<Pair>)
    ensures ApplyAll(ApplyCommand, al, []) == al
  {
  }

  lemma NextCommand(al: seq<Pair>, cs: seq<Command>, n: nat)
    requires n < |cs| && Entries(al)
    ensures ApplyAll(ApplyCommand, al, cs[n..]) == ApplyAll(ApplyCommand, ApplyCommand(al, cs[n]), cs[n + 1..])
    ensures Entries(ApplyCommand(al, cs[n]))
    ensures Unique(al) && PrefixesWithin(cs, IFNAMSIZ - 1) ==> Unique(ApplyCommand(al, cs[n]))
  {
    hide ApplyCommand, Entries, Unique;
    assert cs[n..][0] == cs[n] && cs[n..][1..] == cs[n + 1..];
    CommandKeeps(al, cs[n], 0);
  }

  // ----- what a prefix that does not fit leads to

  /** The chains after two adds that select the same of the empty buckets. */
  lemma SecondInFront(e: Element, e': Element, chains: seq<seq<Element>>, chains': seq<seq<Element>>,
                      hash: string -> nat)
    requires chains == EmptyChains()[Slot(e.hashv, INITIAL_NUM_BUCKETS) := [e]] && Chained(chains, e', chains')
    requires e.key == e'.key && e.hashv == e'.hashv == hash(e.key)
    ensures FoundIn(chains', hash, e.key) == e'
  {
    var b := Slot(e.hashv, INITIAL_NUM_BUCKETS);
    assert chains' == chains[b := [e'] + chains[b]];
  }

  lemma FirstInBucket(e: Element, chains: seq<seq<Element>>)
    requires Chained(EmptyChains(), e, chains)
    ensures chains == EmptyChains()[Slot(e.hashv, INITIAL_NUM_BUCKETS) := [e]]
  {
    assert [e] + [] == [e];
  }

  lemma SuccessorDeletedFaults(e: Element, e': Element, chains: seq<seq<Element>>, hash: string -> nat)
    requires FoundIn(chains, hash, e.key) == e'
    ensures Unload([e, e'], chains, hash, 0) == Faults
  {
    var l := [e, e'];
    assert l[1] in l && After(l, 0) == e';
  }

  /** A prefix of 16 or more characters that is added twice: unload_list frees the saved successor of the first entry
      and then follows it. */
  method LongPrefixUnloadFaults(t: HashTable, prefix: string) returns (faulted: bool)
    requires Registry(t) && t.items == [] && |prefix| >= IFNAMSIZ
    modifies t, t.buckets
    ensures faulted
  {
    hide HashTable.Structure, Entry, Registry, InChainOrder, Outlook, Pairs, Chained, FoundIn;
    var rc;
    ghost var e, e', visited;
    rc, e := VethListAdd(t, prefix, true);
    ghost var chains := t.chains;
    FirstInBucket(e, chains);
    rc, e' := VethListAdd(t, prefix, true);
    assert t.items == [e, e'];
    HashedEntries(t);
    SecondInFront(e, e', chains, t.chains, t.hash);
    SuccessorDeletedFaults(e, e', t.chains, t.hash);
    assert Outlook(t, 0) == Faults by { OutlookIs(t); }
    faulted, visited := UnloadList(t, t.head);
  }

  lemma HashedEntries(t: HashTable)
    requires Registry(t)
    ensures forall e :: e in t.items ==> e.hashv == t.hash(e.key)
  {
    forall e | e in t.items ensures e.hashv == t.hash(e.key) {
      var i :| 0 <= i < |t.items| && t.items[i] == e;
    }
  }

  lemma OutlookIs(t: HashTable)
    ensures Outlook(t, 0) == Unload(t.items, t.chains, t.hash, 0)
  {
  }
}
