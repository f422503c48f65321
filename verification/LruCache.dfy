/** SelectionLruCache: a list of entries in recency order and an index of its nodes. */
module LruCache {
  import opened Basics
  import Counting

  // ----- the cache as a sequence of entries, most recent first

  type Entries<K, V> = seq<(K, V)>

  function Lookup<K(==), V>(c: Entries<K, V>, k: K): Option<V> {
    if c == [] then None else if c[0].0 == k then Some(c[0].1) else Lookup(c[1..], k)
  }

  function Remove<K(==), V>(c: Entries<K, V>, k: K): Entries<K, V> {
    if c == [] then [] else if c[0].0 == k then c[1..] else [c[0]] + Remove(c[1..], k)
  }

  function AfterPut<K(==), V>(capacity: nat, c: Entries<K, V>, k: K, v: V): Entries<K, V> {
    if Lookup(c, k).Some? then [(k, v)] + Remove(c, k)
    else if |c| >= capacity && c != [] then [(k, v)] + c[..|c| - 1]
    else [(k, v)] + c
  }

  function AfterGet<K(==), V>(c: Entries<K, V>, k: K): Entries<K, V> {
    match Lookup(c, k)
    case Some(v) => [(k, v)] + Remove(c, k)
    case None => c
  }

  // ----- list nodes, and the index of a list

  class Node<K, V> {
    const key: K
    var value: V

    constructor (key: K, value: V)
      ensures this.key == key && this.value == value
    {
      this.key := key;
      this.value := value;
    }
  }

  type Index<K, V> = map<K, Node<K, V>>

  ghost function EntriesOf<K, V>(nodes: seq<Node<K, V>>): (c: Entries<K, V>)
    reads nodes
    ensures |c| == |nodes|
  {
    if nodes == [] then [] else [(nodes[0].key, nodes[0].value)] + EntriesOf(nodes[1..])
  }

  /** Each key with the node that carries it. */
  ghost function IndexOf<K, V>(nodes: seq<Node<K, V>>): Index<K, V> {
    if nodes == [] then map[] else IndexOf(nodes[1..])[nodes[0].key := nodes[0]]
  }

  ghost predicate DistinctKeys<K, V>(nodes: seq<Node<K, V>>) {
    nodes == [] || (nodes[0].key !in IndexOf(nodes[1..]) && DistinctKeys(nodes[1..]))
  }

  function Unlink<K, V>(nodes: seq<Node<K, V>>, n: Node<K, V>): (r: seq<Node<K, V>>)
    ensures forall m :: m in r ==> m in nodes
    ensures n in nodes ==> |r| == |nodes| - 1
  {
    if nodes == [] then [] else if nodes[0] == n then nodes[1..] else [nodes[0]] + Unlink(nodes[1..], n)
  }

  /** Every node is indexed under its key, and every indexed node is listed under it. */
  lemma {:induction false} IndexBijection<K, V>(nodes: seq<Node<K, V>>)
    requires DistinctKeys(nodes)
    ensures forall n :: n in nodes ==> n.key in IndexOf(nodes) && IndexOf(nodes)[n.key] == n
    ensures forall k :: k in IndexOf(nodes) ==> IndexOf(nodes)[k] in nodes && IndexOf(nodes)[k].key == k
  {
    if nodes != [] {
      IndexBijection(nodes[1..]);
    }
  }

  lemma {:induction false} UnlinkIndex<K, V>(nodes: seq<Node<K, V>>, n: Node<K, V>)
    requires DistinctKeys(nodes) && n in nodes
    ensures DistinctKeys(Unlink(nodes, n)) && IndexOf(Unlink(nodes, n)) == IndexOf(nodes) - {n.key}
    ensures n !in Unlink(nodes, n)
  {
    IndexBijection(nodes);
    IndexBijection(nodes[1..]);
    if nodes[0] != n {
      UnlinkIndex(nodes[1..], n);
      assert Unlink(nodes, n)[1..] == Unlink(nodes[1..], n);
    }
  }

  lemma {:induction false} UnlinkEntries<K, V>(nodes: seq<Node<K, V>>, n: Node<K, V>)
    requires DistinctKeys(nodes) && n in nodes
    ensures EntriesOf(Unlink(nodes, n)) == Remove(EntriesOf(nodes), n.key)
  {
    IndexBijection(nodes);
    IndexBijection(nodes[1..]);
    assert EntriesOf(nodes)[1..] == EntriesOf(nodes[1..]);
    if nodes[0] != n {
      UnlinkEntries(nodes[1..], n);
      assert Unlink(nodes, n)[1..] == Unlink(nodes[1..], n);
    }
  }

  lemma {:induction false} IndexedLookup<K, V>(nodes: seq<Node<K, V>>, k: K)
    requires DistinctKeys(nodes)
    ensures Lookup(EntriesOf(nodes), k) == if k in IndexOf(nodes) then Some(IndexOf(nodes)[k].value) else None
  {
    if nodes != [] {
      IndexedLookup(nodes[1..], k);
      assert EntriesOf(nodes)[1..] == EntriesOf(nodes[1..]);
    }
  }

  lemma {:induction false} PopBack<K, V>(nodes: seq<Node<K, V>>)
    requires DistinctKeys(nodes) && nodes != []
    ensures var last := nodes[|nodes| - 1];
            Unlink(nodes, last) == nodes[..|nodes| - 1]
    ensures EntriesOf(nodes[..|nodes| - 1]) == EntriesOf(nodes)[..|nodes| - 1]
  {
    if |nodes| > 1 {
      IndexBijection(nodes[1..]);
      assert nodes[|nodes| - 1] in nodes[1..];
      PopBack(nodes[1..]);
      assert nodes[1..][..|nodes| - 2] == nodes[..|nodes| - 1][1..];
    }
  }

  // ----- the cache itself

  class SelectionLruCache<K(==), V> {
    const capacity: nat
    var items: seq<Node<K, V>>
    var indexMap: Index<K, V>
    var hitCount: nat
    var missCount: nat
    var evictCount: nat

    /** The listed nodes have distinct keys and the index is exactly the index of the list. */
    ghost predicate Valid()
      reads this
    {
      0 < capacity && |items| <= capacity && DistinctKeys(items) && indexMap == IndexOf(items)
    }

    ghost function Contents(): Entries<K, V>
      reads this, items
    {
      EntriesOf(items)
    }

    constructor (capacity: nat)
      ensures Valid() && Contents() == [] && this.capacity == (if capacity == 0 then 64 else capacity)
      ensures hitCount == missCount == evictCount == 0
    {
      this.capacity := if capacity == 0 then 64 else capacity;
      items, indexMap := [], map[];
      hitCount, missCount, evictCount := 0, 0, 0;
    }

    /** splice: move the node an iterator points at to the front. */
    method MoveToFront(n: Node<K, V>)
      requires Valid() && n in items
      modifies this`items
      ensures Valid() && items == [n] + Unlink(old(items), n)
    {
      UnlinkIndex(items, n);
      IndexBijection(items);
      items := [n] + Unlink(items, n);
      assert items[1..] == Unlink(old(items), n);
    }

    method Put(key: K, value: V)
      requires Valid()
      modifies this, items
      ensures Valid() && Contents() == AfterPut(capacity, old(Contents()), key, value)
      ensures hitCount == old(hitCount) && missCount == old(missCount)
      ensures evictCount + |items| == old(evictCount + |items|) + if Lookup(old(Contents()), key).Some? then 0 else 1
    {
      IndexedLookup(items, key);
      IndexBijection(items);
      if key in indexMap {
        Overwrite(indexMap[key], value);
        return;
      }
      if |items| >= capacity {
        EvictLast();
      }
      var n := new Node(key, value);
      items := [n] + items;
      assert items[1..] == items[1..];
      indexMap := indexMap[key := n];
    }

    method Overwrite(n: Node<K, V>, value: V)
      requires Valid() && n in items
      modifies this`items, n
      ensures Valid() && Contents() == [(n.key, value)] + Remove(old(Contents()), n.key)
      ensures |items| == old(|items|)
    {
      ghost var rest := Unlink(items, n);
      UnlinkIndex(items, n);
      UnlinkEntries(items, n);
      ghost var others := EntriesOf(rest);
      n.value := value;
      assert EntriesOf(rest) == others;
      MoveToFront(n);
      assert items[1..] == rest;
      assert EntriesOf(items[1..]) == others;
    }

    method EvictLast()
      requires Valid() && items != []
      modifies this`items, this`indexMap, this`evictCount
      ensures Valid() && |items| == old(|items|) - 1 && items == old(items)[..|items|]
      ensures Contents() == old(Contents())[..|items|] && evictCount == old(evictCount) + 1
      ensures forall k :: k in indexMap ==> k in old(indexMap)
    {
      UnlinkIndex(items, items[|items| - 1]);
      PopBack(items);
      indexMap := indexMap - {items[|items| - 1].key};
      items := items[..|items| - 1];
      evictCount := evictCount + 1;
    }

    method Get(key: K) returns (result: Option<V>)
      requires Valid()
      modifies this
      ensures Valid() && Contents() == AfterGet(old(Contents()), key) && result == Lookup(old(Contents()), key)
      ensures hitCount == old(hitCount) + (if result.Some? then 1 else 0) && evictCount == old(evictCount)
      ensures missCount == old(missCount) + (if result.None? then 1 else 0)
    {
      IndexedLookup(items, key);
      if key !in indexMap {
        missCount := missCount + 1;
        return None;
      }
      IndexBijection(items);
      var n := indexMap[key];
      ghost var rest := Unlink(items, n);
      UnlinkEntries(items, n);
      ghost var others := EntriesOf(rest);
      MoveToFront(n);
      hitCount := hitCount + 1;
      assert items[1..] == rest && EntriesOf(rest) == others;
      return Some(n.value);
    }

    method Erase(key: K) returns (erased: bool)
      requires Valid()
      modifies this
      ensures Valid() && Contents() == Remove(old(Contents()), key)
      ensures erased == Lookup(old(Contents()), key).Some?
    {
      IndexedLookup(items, key);
      if key !in indexMap {
        RemoveAbsent(Contents(), key);
        return false;
      }
      IndexBijection(items);
      UnlinkIndex(items, indexMap[key]);
      UnlinkEntries(items, indexMap[key]);
      items := Unlink(items, indexMap[key]);
      indexMap := indexMap - {key};
      return true;
    }

    method Clear()
      requires Valid()
      modifies this
      ensures Valid() && Contents() == []
    {
      items := [];
      indexMap := map[];
    }
  }

  lemma {:induction false} RemoveAbsent<K, V>(c: Entries<K, V>, k: K)
    requires Lookup(c, k).None?
    ensures Remove(c, k) == c
  {
    if c != [] {
      RemoveAbsent(c[1..], k);
    }
  }

  // ----- whole runs

  datatype Op<K, V> = Put(key: K, value: V) | Get(key: K) | Erase(key: K) | Clear

  function Apply<K(==), V>(capacity: nat, c: Entries<K, V>, op: Op<K, V>): Entries<K, V> {
    match op
    case Put(k, v) => AfterPut(capacity, c, k, v)
    case Get(k) => AfterGet(c, k)
    case Erase(k) => Remove(c, k)
    case Clear => []
  }

  function Run<K(==), V>(capacity: nat, ops: seq<Op<K, V>>): Entries<K, V> {
    if ops == [] then [] else Apply(capacity, Run(capacity, ops[..|ops| - 1]), ops[|ops| - 1])
  }

  /** Every Put touches its key, and every Get that hits. */
  predicate Touching<K(==), V>(c: Entries<K, V>, op: Op<K, V>) {
    op.Put? || (op.Get? && Lookup(c, op.key).Some?)
  }

  /** The keys touched by a run, in order. */
  function Touches<K(==), V>(capacity: nat, ops: seq<Op<K, V>>): seq<K> {
    if ops == [] then [] else
    var init, op := ops[..|ops| - 1], ops[|ops| - 1];
    Touches(capacity, init) + if Touching(Run(capacity, init), op) then [op.key] else []
  }

  function Drop<K(==)>(s: seq<K>, k: K): (r: seq<K>)
    ensures |r| == if k in s then |s| - 1 else |s|
    ensures forall x :: x in r ==> x in s
    ensures forall x :: x in s && x != k ==> x in r
  {
    if s == [] then [] else if s[0] == k then s[1..] else [s[0]] + Drop(s[1..], k)
  }

  /** All touched keys, most recently touched first. */
  function Recency<K(==)>(touches: seq<K>): seq<K> {
    if touches == [] then [] else
    var k := touches[|touches| - 1];
    [k] + Drop(Recency(touches[..|touches| - 1]), k)
  }

  function Take<K>(s: seq<K>, n: nat): seq<K> {
    if s == [] || n == 0 then [] else [s[0]] + Take(s[1..], n - 1)
  }

  function KeysOf<K, V>(c: Entries<K, V>): (r: seq<K>)
    ensures |r| == |c|
  {
    if c == [] then [] else [c[0].0] + KeysOf(c[1..])
  }

  lemma {:induction false} KeysOfRemove<K, V>(c: Entries<K, V>, k: K)
    ensures KeysOf(Remove(c, k)) == Drop(KeysOf(c), k)
    ensures Lookup(c, k).Some? <==> k in KeysOf(c)
  {
    if c != [] {
      KeysOfRemove(c[1..], k);
      assert Remove(c, k) == if c[0].0 == k then c[1..] else [c[0]] + Remove(c[1..], k);
    }
  }

  lemma {:induction false} KeysOfPrefix<K, V>(c: Entries<K, V>, n: nat)
    requires n <= |c|
    ensures KeysOf(c[..n]) == Take(KeysOf(c), n)
  {
    if n > 0 {
      KeysOfPrefix(c[1..], n - 1);
      assert c[..n][1..] == c[1..][..n - 1];
    }
  }

  lemma {:induction false} TakeFewer<K>(r: seq<K>, n: nat)
    requires n > 0
    ensures |Take(r, n)| <= n
    ensures |Take(r, n)| < n ==> Take(r, n) == Take(r, n - 1)
    ensures Take(Take(r, n), n - 1) == Take(r, n - 1)
  {
    if r != [] && n > 1 {
      TakeFewer(r[1..], n - 1);
    }
  }

  /** Moving a listed key out of the way first, or truncating first, is the same. */
  lemma {:induction false} TakeOfDropped<K>(r: seq<K>, n: nat, k: K)
    requires n > 0
    ensures k in Take(r, n) ==> Drop(Take(r, n), k) == Take(Drop(r, k), n - 1)
    ensures k !in Take(r, n) ==> Take(Drop(r, k), n - 1) == Take(r, n - 1)
  {
    if r != [] && n > 1 {
      var rest := r[1..];
      assert Take(r, n) == [r[0]] + Take(rest, n - 1);
      assert Take(r, n)[1..] == Take(rest, n - 1);
      if r[0] != k {
        TakeOfDropped(rest, n - 1, k);
        assert Drop(r, k) == [r[0]] + Drop(rest, k) && Drop(r, k)[1..] == Drop(rest, k);
      }
    }
  }

  ghost predicate PutsAndGets<K(!new), V(!new)>(ops: seq<Op<K, V>>) { forall op :: op in ops ==> op.Put? || op.Get? }

  /** After any run of puts and gets the cache lists exactly the `capacity` most recently touched
      keys, in recency order. */
  lemma {:induction false} RunIsMostRecent<K(!new), V(!new)>(capacity: nat, ops: seq<Op<K, V>>)
    requires capacity > 0 && PutsAndGets(ops)
    ensures KeysOf(Run(capacity, ops)) == Take(Recency(Touches(capacity, ops)), capacity)
  {
    if ops != [] {
      var init, op := ops[..|ops| - 1], ops[|ops| - 1];
      assert op in ops;
      RunIsMostRecent(capacity, init);
      StepIsMostRecent(capacity, Run(capacity, init), Touches(capacity, init), op);
    }
  }

  lemma StepIsMostRecent<K, V>(capacity: nat, c: Entries<K, V>, touches: seq<K>, op: Op<K, V>)
    requires capacity > 0 && KeysOf(c) == Take(Recency(touches), capacity) && (op.Put? || op.Get?)
    ensures var more := touches + if Touching(c, op) then [op.key] else [];
            KeysOf(Apply(capacity, c, op)) == Take(Recency(more), capacity)
  {
    var k := op.key;
    KeysOfRemove(c, k);
    if Touching(c, op) {
      TouchIsMostRecent(capacity, Recency(touches), c, k);
      assert (touches + [k])[..|touches|] == touches;
      if Lookup(c, k).None? && |c| >= capacity {
        KeysOfPrefix(c, |c| - 1);
      }
    } else {
      assert touches + [] == touches;
    }
  }

  /** What a touch does to the listed keys is what it does to the full recency list, cut off. */
  lemma TouchIsMostRecent<K, V>(capacity: nat, r: seq<K>, c: Entries<K, V>, k: K)
    requires capacity > 0 && KeysOf(c) == Take(r, capacity)
    ensures k in KeysOf(c) ==> [k] + Drop(KeysOf(c), k) == Take([k] + Drop(r, k), capacity)
    ensures k !in KeysOf(c) && |c| < capacity ==> [k] + KeysOf(c) == Take([k] + Drop(r, k), capacity)
    ensures k !in KeysOf(c) && |c| >= capacity ==> [k] + Take(KeysOf(c), |c| - 1) == Take([k] + Drop(r, k), capacity)
  {
    TakeFewer(r, capacity);
    TakeOfDropped(r, capacity, k);
    assert ([k] + Drop(r, k))[1..] == Drop(r, k);
  }

  /** The value last put since the key was last erased or the cache cleared. */
  function LastPut<K(==), V>(ops: seq<Op<K, V>>, k: K): Option<V> {
    if ops == [] then None else
    var before := LastPut(ops[..|ops| - 1], k);
    match ops[|ops| - 1]
    case Put(x, v) => if x == k then Some(v) else before
    case Get(_) => before
    case Erase(x) => if x == k then None else before
    case Clear => None
  }

  lemma {:induction false} LookupElsewhere<K, V>(c: Entries<K, V>, k: K, other: K)
    requires other != k
    ensures Lookup(Remove(c, k), other) == Lookup(c, other)
  {
    if c != [] {
      LookupElsewhere(c[1..], k, other);
    }
  }

  lemma {:induction false} LookupPrefix<K, V>(c: Entries<K, V>, n: nat, k: K)
    requires n <= |c|
    ensures Lookup(c[..n], k).Some? ==> Lookup(c[..n], k) == Lookup(c, k)
  {
    if n > 0 {
      LookupPrefix(c[1..], n - 1, k);
      assert c[..n][1..] == c[1..][..n - 1];
    }
  }

  ghost predicate DistinctEntries<K, V>(c: Entries<K, V>) {
    c == [] || (Lookup(c[1..], c[0].0).None? && DistinctEntries(c[1..]))
  }

  lemma {:induction false} RemoveDistinct<K, V>(c: Entries<K, V>, k: K)
    requires DistinctEntries(c)
    ensures DistinctEntries(Remove(c, k)) && Lookup(Remove(c, k), k).None?
  {
    if c != [] && c[0].0 != k {
      RemoveDistinct(c[1..], k);
      LookupElsewhere(c[1..], k, c[0].0);
    }
  }

  lemma {:induction false} PrefixDistinct<K, V>(c: Entries<K, V>, n: nat)
    requires DistinctEntries(c) && n <= |c|
    ensures DistinctEntries(c[..n])
  {
    if n > 0 {
      PrefixDistinct(c[1..], n - 1);
      assert c[..n][1..] == c[1..][..n - 1];
      LookupPrefix(c[1..], n - 1, c[0].0);
    }
  }

  /** One step keeps keys distinct, and a key found after it was found before or just put. */
  lemma StepLooksUp<K, V>(capacity: nat, c: Entries<K, V>, op: Op<K, V>, k: K)
    requires DistinctEntries(c)
    ensures var d := Apply(capacity, c, op);
            && DistinctEntries(d)
            && (Lookup(d, k).Some? ==> if op.Put? && op.key == k then Lookup(d, k) == Some(op.value)
                                       else Lookup(d, k) == Lookup(c, k) && !op.Clear? && !(op.Erase? && op.key == k))
  {
    if !op.Clear? {
      RemoveDistinct(c, op.key);
      if op.key != k { LookupElsewhere(c, op.key, k); }
      if c != [] {
        PrefixDistinct(c, |c| - 1);
        LookupPrefix(c, |c| - 1, k);
        LookupPrefix(c, |c| - 1, op.key);
      }
    }
  }

  /** Whatever a lookup finds is the value of the key's last Put since it was last erased. */
  lemma {:induction false} RunHoldsLastPut<K, V>(capacity: nat, ops: seq<Op<K, V>>, k: K)
    ensures Lookup(Run(capacity, ops), k).Some? ==> Lookup(Run(capacity, ops), k) == LastPut(ops, k)
    ensures DistinctEntries(Run(capacity, ops))
  {
    if ops != [] {
      var init, op := ops[..|ops| - 1], ops[|ops| - 1];
      RunHoldsLastPut(capacity, init, k);
      StepLooksUp(capacity, Run(capacity, init), op, k);
    }
  }

  // ----- which keys are found

  /** One more key used after this one; it is pushed out when they are `capacity`. */
  function Pushed<K(==)>(newer: Option<set<K>>, x: K, capacity: nat): Option<set<K>> {
    if newer.None? || |newer.value + {x}| >= capacity then None else Some(newer.value + {x})
  }

  /** Whether a key is still there after one more step, and which others were used after it. A
      Get counts when it hits. */
  function NextNewer<K(==), V>(was: Option<set<K>>, op: Op<K, V>, hit: bool, k: K, capacity: nat): Option<set<K>> {
    if op.Clear? then None
    else if op.Erase? then if op.key == k || was.None? then None else Some(was.value - {op.key})
    else if op.Get? && !hit then was
    else if op.key == k then Some({}) else Pushed(was, op.key, capacity)
  }

  /** Whether a key is still there, and which others were used after it and not erased since. */
  function Newer<K(==), V>(capacity: nat, ops: seq<Op<K, V>>, k: K): Option<set<K>>
    decreases |ops|
  {
    if ops == [] then None else
    var init, op := ops[..|ops| - 1], ops[|ops| - 1];
    var hit := op.Get? && Newer(capacity, init, op.key).Some?;
    NextNewer(Newer(capacity, init, k), op, hit, k, capacity)
  }

  /** The keys listed before k. */
  function Ahead<K(==), V>(c: Entries<K, V>, k: K): set<K> {
    if c == [] || c[0].0 == k then {} else {c[0].0} + Ahead(c[1..], k)
  }

  lemma {:induction false} AheadMembers<K, V>(c: Entries<K, V>, k: K)
    ensures forall x :: x in Ahead(c, k) ==> Lookup(c, x).Some? && x != k
  {
    if c != [] && c[0].0 != k {
      AheadMembers(c[1..], k);
    }
  }

  lemma {:induction false} AheadSize<K, V>(c: Entries<K, V>, k: K)
    requires DistinctEntries(c) && Lookup(c, k).Some?
    ensures |Ahead(c, k)| < |c|
    ensures Lookup(c[..|c| - 1], k).None? <==> |Ahead(c, k)| == |c| - 1
    ensures Lookup(c[..|c| - 1], k).Some? ==> Ahead(c[..|c| - 1], k) == Ahead(c, k)
  {
    if c[0].0 != k {
      var rest := c[1..];
      AheadSize(rest, k);
      AheadMembers(rest, k);
      assert c[0].0 !in Ahead(rest, k);
      assert c[..|c| - 1][1..] == rest[..|rest| - 1];
    } else if |c| > 1 {
      assert c[..|c| - 1][0] == c[0];
    }
  }

  lemma {:induction false} AheadRemove<K, V>(c: Entries<K, V>, k: K, x: K)
    requires DistinctEntries(c) && x != k && Lookup(c, k).Some?
    ensures Ahead(Remove(c, x), k) == Ahead(c, k) - {x}
  {
    if c[0].0 == x {
      AheadMembers(c[1..], k);
    } else if c[0].0 != k {
      AheadRemove(c[1..], k, x);
      assert Remove(c, x)[1..] == Remove(c[1..], x);
    }
  }

  lemma AheadFront<K, V>(e: (K, V), c: Entries<K, V>, k: K)
    ensures Ahead([e] + c, k) == if e.0 == k then {} else {e.0} + Ahead(c, k)
    ensures Lookup([e] + c, k) == if e.0 == k then Some(e.1) else Lookup(c, k)
  {
    assert ([e] + c)[1..] == c;
  }

  ghost predicate FindsNewer<K, V>(c: Entries<K, V>, k: K, newer: Option<set<K>>) {
    (Lookup(c, k).Some? <==> newer.Some?) && (newer.Some? ==> newer.value == Ahead(c, k))
  }

  /** A listed key moves to the front: another key k is one further back, unless it already was. */
  lemma MoveFinds<K, V>(capacity: nat, c: Entries<K, V>, e: (K, V), k: K, newer: Option<set<K>>)
    requires DistinctEntries(c) && |c| <= capacity && FindsNewer(c, k, newer)
    requires Lookup(c, e.0).Some? && e.0 != k
    ensures FindsNewer([e] + Remove(c, e.0), k, Pushed(newer, e.0, capacity))
  {
    var d := [e] + Remove(c, e.0);
    RemoveDistinct(c, e.0);
    LookupElsewhere(c, e.0, k);
    AheadFront(e, Remove(c, e.0), k);
    RemoveLength(c, e.0);
    if newer.Some? {
      AheadRemove(c, k, e.0);
      assert {e.0} + (Ahead(c, k) - {e.0}) == Ahead(c, k) + {e.0};
      assert d[1..] == Remove(c, e.0);
      AheadSize(d, k);
    }
  }

  lemma {:induction false} RemoveLength<K, V>(c: Entries<K, V>, k: K)
    ensures |Remove(c, k)| == if Lookup(c, k).Some? then |c| - 1 else |c|
  {
    if c != [] && c[0].0 != k {
      RemoveLength(c[1..], k);
    }
  }

  /** A new key comes in, pushing out the last one if the cache is full. */
  lemma InsertFinds<K, V>(capacity: nat, c: Entries<K, V>, e: (K, V), k: K, newer: Option<set<K>>)
    requires capacity > 0 && DistinctEntries(c) && |c| <= capacity && FindsNewer(c, k, newer)
    requires Lookup(c, e.0).None? && e.0 != k
    ensures FindsNewer(AfterPut(capacity, c, e.0, e.1), k, Pushed(newer, e.0, capacity))
  {
    AheadMembers(c, k);
    if |c| >= capacity {
      InsertFull(c, e, k, newer);
    } else {
      AheadFront(e, c, k);
      if newer.Some? {
        AheadSize(c, k);
        OneMore(newer.value, e.0);
      }
    }
  }

  lemma OneMore<K>(s: set<K>, x: K)
    requires x !in s
    ensures |s + {x}| == |s| + 1 && s + {x} == {x} + s
  {
  }

  lemma InsertFull<K, V>(c: Entries<K, V>, e: (K, V), k: K, newer: Option<set<K>>)
    requires c != [] && DistinctEntries(c) && FindsNewer(c, k, newer) && e.0 !in Ahead(c, k) && e.0 != k
    ensures FindsNewer([e] + c[..|c| - 1], k, Pushed(newer, e.0, |c|))
  {
    var front := c[..|c| - 1];
    AheadFront(e, front, k);
    LookupPrefix(c, |c| - 1, k);
    if newer.Some? {
      AheadSize(c, k);
      OneMore(newer.value, e.0);
    }
  }

  lemma StepFinds<K, V>(capacity: nat, c: Entries<K, V>, op: Op<K, V>, k: K, was: Option<set<K>>, hit: bool)
    requires capacity > 0 && DistinctEntries(c) && |c| <= capacity && FindsNewer(c, k, was)
    requires hit == (op.Get? && Lookup(c, op.key).Some?)
    ensures FindsNewer(Apply(capacity, c, op), k, NextNewer(was, op, hit, k, capacity))
  {
    match op {
      case Put(x, v) =>
        if x == k {
          assert Apply(capacity, c, op)[0] == (x, v);
        } else if Lookup(c, x).Some? {
          MoveFinds(capacity, c, (x, v), k, was);
        } else {
          InsertFinds(capacity, c, (x, v), k, was);
        }
      case Get(x) =>
        if hit && x != k {
          MoveFinds(capacity, c, (x, Lookup(c, x).value), k, was);
        }
      case Erase(x) =>
        RemoveDistinct(c, x);
        if x != k {
          LookupElsewhere(c, x, k);
          if was.Some? {
            AheadRemove(c, k, x);
          }
        }
      case Clear =>
    }
  }

  /** After any run: a key is found exactly when it was put, and neither erased nor cleared nor
      pushed out by `capacity` others since; listed before it are those used after it. */
  lemma {:induction false} FoundExactly<K, V>(capacity: nat, ops: seq<Op<K, V>>, k: K)
    requires capacity > 0
    ensures var c := Run(capacity, ops); |c| <= capacity && FindsNewer(c, k, Newer(capacity, ops, k))
    decreases |ops|
  {
    if ops != [] {
      var init, op := ops[..|ops| - 1], ops[|ops| - 1];
      var c := Run(capacity, init);
      FoundExactly(capacity, init, k);
      RunHoldsLastPut(capacity, init, k);
      if op.Get? {
        FoundExactly(capacity, init, op.key);
      }
      StepFinds(capacity, c, op, k, Newer(capacity, init, k), op.Get? && Lookup(c, op.key).Some?);
      if !op.Clear? {
        RemoveLength(c, op.key);
      }
    }
  }

  /** The keys touched after the last touch of k. */
  function TouchedSince<K(==)>(touches: seq<K>, k: K): set<K> {
    if touches == [] || touches[|touches| - 1] == k then {} else
    TouchedSince(touches[..|touches| - 1], k) + {touches[|touches| - 1]}
  }

  lemma SinceSnoc<K>(touches: seq<K>, x: K, k: K)
    ensures TouchedSince(touches + [x], k) == if x == k then {} else TouchedSince(touches, k) + {x}
  {
    assert (touches + [x])[..|touches|] == touches;
  }

  /** In a run of puts and gets a lookup hits exactly when the key was touched and fewer than
      `capacity` other keys were touched since. */
  lemma {:induction false} HitIffRecent<K(!new), V(!new)>(capacity: nat, ops: seq<Op<K, V>>, k: K)
    requires capacity > 0 && PutsAndGets(ops)
    ensures var touches := Touches(capacity, ops);
            && (Lookup(Run(capacity, ops), k).Some? <==> k in touches && |TouchedSince(touches, k)| < capacity)
            && (Newer(capacity, ops, k).Some? ==> Newer(capacity, ops, k).value == TouchedSince(touches, k))
    decreases |ops|
  {
    FoundExactly(capacity, ops, k);
    if ops != [] {
      var init, op := ops[..|ops| - 1], ops[|ops| - 1];
      assert op in ops;
      var c, touches := Run(capacity, init), Touches(capacity, init);
      HitIffRecent(capacity, init, k);
      FoundExactly(capacity, init, k);
      FoundExactly(capacity, init, op.key);
      if Touching(c, op) {
        SinceSnoc(touches, op.key, k);
        Counting.SubsetSize(TouchedSince(touches, k), TouchedSince(touches, k) + {op.key});
      } else {
        assert touches + [] == touches;
      }
    }
  }

  /** After any run the listed keys stand in the order of their last touch, latest first. */
  lemma {:induction false} RunInOrder<K(!new), V>(capacity: nat, ops: seq<Op<K, V>>)
    ensures LatestFirst(KeysOf(Run(capacity, ops)), Touches(capacity, ops))
  {
    if ops != [] {
      var init, op := ops[..|ops| - 1], ops[|ops| - 1];
      RunInOrder(capacity, init);
      StepInOrder(capacity, Run(capacity, init), Touches(capacity, init), op);
    }
  }

  lemma StepInOrder<K(!new), V>(capacity: nat, c: Entries<K, V>, touches: seq<K>, op: Op<K, V>)
    requires LatestFirst(KeysOf(c), touches)
    ensures LatestFirst(KeysOf(Apply(capacity, c, op)), touches + if Touching(c, op) then [op.key] else [])
  {
    if op.Clear? {
      return;
    }
    var k := op.key;
    KeysOfRemove(c, k);
    DropLatestFirst(KeysOf(c), touches, k);
    if Touching(c, op) {
      if Lookup(c, k).Some? {
        TouchInOrder(Drop(KeysOf(c), k), touches, k);
      } else if |c| >= capacity && c != [] {
        KeysOfPrefix(c, |c| - 1);
        TakeInOrder(KeysOf(c), touches, |c| - 1);
        TouchInOrder(Take(KeysOf(c), |c| - 1), touches, k);
      } else {
        TouchInOrder(KeysOf(c), touches, k);
      }
    } else {
      assert touches + [] == touches;
    }
  }

  lemma TouchInOrder<K(!new)>(s: seq<K>, touches: seq<K>, k: K)
    requires LatestFirst(s, touches) && k !in s
    ensures LatestFirst([k] + s, touches + [k])
  {
    LatestFirstSnoc(s, touches, k);
    assert ([k] + s)[1..] == s;
  }

  lemma {:induction false} TakeInOrder<K(!new)>(s: seq<K>, touches: seq<K>, n: nat)
    requires LatestFirst(s, touches)
    ensures LatestFirst(Take(s, n), touches) && forall x :: x in Take(s, n) ==> x in s
  {
    if s != [] && n > 0 {
      TakeInOrder(s[1..], touches, n - 1);
      assert Take(s, n)[1..] == Take(s[1..], n - 1);
    }
  }

  // ----- the recency order

  function LastTouch<K(==)>(touches: seq<K>, k: K): int {
    if touches == [] then -1 else
    if touches[|touches| - 1] == k then |touches| - 1 else LastTouch(touches[..|touches| - 1], k)
  }

  /** Each listed key was last touched later than every key listed after it. */
  ghost predicate LatestFirst<K(!new)>(s: seq<K>, touches: seq<K>) {
    s == [] || ((forall x :: x in s[1..] ==> LastTouch(touches, s[0]) > LastTouch(touches, x))
                && LatestFirst(s[1..], touches))
  }

  lemma {:induction false} DropLatestFirst<K(!new)>(s: seq<K>, touches: seq<K>, k: K)
    requires LatestFirst(s, touches)
    ensures LatestFirst(Drop(s, k), touches) && k !in Drop(s, k)
  {
    if s != [] && s[0] != k {
      DropLatestFirst(s[1..], touches, k);
    }
  }

  /** A new touch of a key does not change when the others were last touched. */
  lemma {:induction false} LatestFirstSnoc<K(!new)>(s: seq<K>, touches: seq<K>, k: K)
    requires LatestFirst(s, touches) && k !in s
    ensures LatestFirst(s, touches + [k])
    ensures forall x :: x in s ==> LastTouch(touches + [k], x) == LastTouch(touches, x) < |touches|
  {
    assert (touches + [k])[..|touches|] == touches;
    forall x | x in s ensures LastTouch(touches + [k], x) == LastTouch(touches, x) < |touches| {
      LastTouchBound(touches, x);
    }
    if s != [] {
      LatestFirstSnoc(s[1..], touches, k);
    }
  }

  /** Recency lists exactly the touched keys, later touches first (hence without repeats). */
  lemma {:induction false} RecencyMeaning<K(!new)>(touches: seq<K>)
    ensures forall k :: k in Recency(touches) <==> k in touches
    ensures LatestFirst(Recency(touches), touches)
  {
    if touches != [] {
      var init, k := touches[..|touches| - 1], touches[|touches| - 1];
      assert touches == init + [k];
      RecencyMeaning(init);
      DropLatestFirst(Recency(init), init, k);
      LatestFirstSnoc(Drop(Recency(init), k), init, k);
      assert ([k] + Drop(Recency(init), k))[1..] == Drop(Recency(init), k);
    }
  }

  lemma {:induction false} LastTouchBound<K>(touches: seq<K>, k: K)
    ensures -1 <= LastTouch(touches, k) < |touches|
  {
    if touches != [] {
      LastTouchBound(touches[..|touches| - 1], k);
    }
  }
}
