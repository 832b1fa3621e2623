/** The hash table of list.c and list.h over its buckets, and the map it stands for. */
module HashTables {
  import opened Options
  import opened HashBuckets

  type Table<K, V> = seq<seq<Entry<K, V>>>

  /** hv & mask, where the number of buckets is a power of 2. */
  function Home(hv: nat, n: nat): (b: nat)
    requires 0 < n
    ensures b < n
  {
    hv % n
  }

  predicate KeyIn<K(==), V>(entries: seq<Entry<K, V>>, k: K) {
    exists i :: 0 <= i < |entries| && entries[i].key == Some(k)
  }

  /** The bucket holds keys of its own, each once, with the values the map gives them. */
  ghost predicate BucketOk<K, V>(entries: seq<Entry<K, V>>, b: nat, n: nat, f: K -> nat, m: map<K, V>)
    requires 0 < n
  {
    && (forall i | 0 <= i < |entries| && entries[i].key.Some? ::
          var k := entries[i].key.value;
          entries[i].hashValue == f(k) && Home(f(k), n) == b && k in m && m[k] == entries[i].value)
    && (forall i, j | 0 <= i < j < |entries| && entries[i].key.Some? :: entries[i].key != entries[j].key)
  }

  /** The table stands for the map m. */
  ghost predicate Represents<K, V>(t: Table<K, V>, f: K -> nat, m: map<K, V>) {
    && 0 < |t|
    && (forall b | 0 <= b < |t| :: BucketOk(t[b], b, |t|, f, m))
    && (forall k | k in m :: KeyIn(t[Home(f(k), |t|)], k))
  }

  predicate AllKeyed<K, V>(entries: seq<Entry<K, V>>) {
    forall i | 0 <= i < |entries| :: entries[i].key.Some?
  }

  // ------------------------------------------------------------------ what each operation does to the map

  lemma ToFrontKeeps<K, V>(t: Table<K, V>, f: K -> nat, m: map<K, V>, b: nat, i: nat)
    requires Represents(t, f, m) && b < |t| && i < |t[b]|
    ensures Represents(t[b := ToFront(t[b], i)], f, m)
  {
    var t' := t[b := ToFront(t[b], i)];
    assert BucketOk(t[b], b, |t|, f, m);
    forall k | k in m ensures KeyIn(t'[Home(f(k), |t|)], k) {
      if Home(f(k), |t|) == b {
        var j :| 0 <= j < |t[b]| && t[b][j].key == Some(k);
        assert t'[b][if j < i then j + 1 else if j == i then 0 else j].key == Some(k);
      }
    }
  }

  lemma AddAdds<K, V>(t: Table<K, V>, f: K -> nat, m: map<K, V>, k: K, v: V)
    requires Represents(t, f, m) && k !in m
    ensures var b := Home(f(k), |t|);
            Represents(t[b := [Entry(Some(k), f(k), v)] + t[b]], f, m[k := v])
  {
    var b := Home(f(k), |t|);
    var added := [Entry(Some(k), f(k), v)] + t[b];
    var t' := t[b := added];
    forall c | 0 <= c < |t'| ensures BucketOk(t'[c], c, |t'|, f, m[k := v]) {
      assert BucketOk(t[c], c, |t|, f, m);
    }
    forall o | o in m[k := v] ensures KeyIn(t'[Home(f(o), |t'|)], o) {
      if o == k {
        assert added[0].key == Some(k);
      } else if Home(f(o), |t|) == b {
        var j :| 0 <= j < |t[b]| && t[b][j].key == Some(o);
        assert added[j + 1].key == Some(o);
      }
    }
  }

  /** Writing element i: the same key with a new value, or no key. */
  lemma UpdateUpdates<K, V>(t: Table<K, V>, f: K -> nat, m: map<K, V>, b: nat, i: nat, k: K, key: Option<K>, v: V)
    requires Represents(t, f, m) && b < |t| && i < |t[b]| && t[b][i].key == Some(k)
    requires key == Some(k) || key == None
    ensures Represents(t[b := t[b][i := Entry(key, t[b][i].hashValue, v)]], f, if key == None then m - {k} else m[k := v])
  {
    var t' := t[b := t[b][i := Entry(key, t[b][i].hashValue, v)]];
    var m' := if key == None then m - {k} else m[k := v];
    assert BucketOk(t[b], b, |t|, f, m);
    forall c | 0 <= c < |t'| ensures BucketOk(t'[c], c, |t'|, f, m') {
      assert BucketOk(t[c], c, |t|, f, m);
    }
    forall o | o in m' ensures KeyIn(t'[Home(f(o), |t'|)], o) {
      if Home(f(o), |t|) == b {
        var j :| 0 <= j < |t[b]| && t[b][j].key == Some(o);
        assert t'[b][j].key == Some(o);
      }
    }
  }

  lemma WithoutRemoves<K, V>(t: Table<K, V>, f: K -> nat, m: map<K, V>, b: nat, i: nat, k: K)
    requires Represents(t, f, m) && b < |t| && i < |t[b]| && t[b][i].key == Some(k)
    ensures Represents(t[b := Without(t[b], i)], f, m - {k})
  {
    var t' := t[b := Without(t[b], i)];
    assert BucketOk(t[b], b, |t|, f, m);
    forall c | 0 <= c < |t'| ensures BucketOk(t'[c], c, |t'|, f, m - {k}) {
      assert BucketOk(t[c], c, |t|, f, m);
    }
    forall o | o in m - {k} ensures KeyIn(t'[Home(f(o), |t'|)], o) {
      if Home(f(o), |t|) == b {
        var j :| 0 <= j < |t[b]| && t[b][j].key == Some(o);
        assert t'[b][if j < i then j else j - 1].key == Some(o);
      }
    }
  }

  lemma {:induction false} UnmarkedKeyIn<K, V>(entries: seq<Entry<K, V>>, k: K)
    ensures KeyIn(entries, k) <==> KeyIn(Unmarked(entries), k)
    decreases |entries|
  {
    if entries != [] {
      var rest := entries[1..];
      var kept := Unmarked(entries);
      UnmarkedKeyIn(rest, k);
      if KeyIn(rest, k) {
        var i, j :| 0 <= i < |rest| && rest[i].key == Some(k) && 0 <= j < |Unmarked(rest)| && Unmarked(rest)[j].key == Some(k);
        assert entries[i + 1].key == Some(k);
        assert kept[if entries[0].key.Some? then j + 1 else j].key == Some(k);
      } else if entries[0].key == Some(k) {
        assert kept[0].key == Some(k);
      } else {
        assert forall i | 0 < i < |entries| :: entries[i] == rest[i - 1];
        assert forall j | 0 <= j < |kept| ::
            kept[j] == if !entries[0].key.Some? then Unmarked(rest)[j] else if j == 0 then entries[0] else Unmarked(rest)[j - 1];
      }
    }
  }

  lemma {:induction false} UnmarkedKeeps<K, V>(entries: seq<Entry<K, V>>, b: nat, n: nat, f: K -> nat, m: map<K, V>)
    requires 0 < n && BucketOk(entries, b, n, f, m)
    ensures BucketOk(Unmarked(entries), b, n, f, m)
    decreases |entries|
  {
    if entries != [] {
      var rest := entries[1..];
      var kept := Unmarked(rest);
      assert forall i | 0 <= i < |rest| :: rest[i] == entries[i + 1];
      UnmarkedKeeps(rest, b, n, f, m);
      if entries[0].key.Some? {
        UnmarkedKeyed(rest);
        forall j | 0 <= j < |kept| ensures kept[j].key != entries[0].key {
          var k := kept[j].key.value;
          assert KeyIn(kept, k);
          UnmarkedKeyIn(rest, k);
          var i :| 0 <= i < |rest| && rest[i].key == Some(k);
          assert entries[0].key != entries[i + 1].key;
        }
      }
    }
  }

  lemma {:induction false} UnmarkedKeyed<K, V>(entries: seq<Entry<K, V>>)
    ensures AllKeyed(Unmarked(entries))
    decreases |entries|
  {
    if entries != [] { UnmarkedKeyed(entries[1..]); }
  }

  /** Dropping a bucket's marked elements changes nothing in the map. */
  lemma SweepKeeps<K, V>(t: Table<K, V>, f: K -> nat, m: map<K, V>, b: nat)
    requires Represents(t, f, m) && b < |t|
    ensures Represents(t[b := Unmarked(t[b])], f, m)
  {
    var t' := t[b := Unmarked(t[b])];
    assert BucketOk(t[b], b, |t|, f, m);
    UnmarkedKeeps(t[b], b, |t|, f, m);
    forall k | k in m ensures KeyIn(t'[Home(f(k), |t|)], k) {
      UnmarkedKeyIn(t[b], k);
    }
  }

  // ------------------------------------------------------------------ n_elements

  ghost function Total<T>(chains: seq<seq<T>>): nat {
    if chains == [] then 0 else |chains[0]| + Total(chains[1..])
  }

  lemma {:induction false} TotalUpdate<T>(chains: seq<seq<T>>, b: nat, chain: seq<T>)
    requires b < |chains|
    ensures Total(chains[b := chain]) == Total(chains) - |chains[b]| + |chain|
    decreases |chains|
  {
    if b == 0 {
      assert chains[b := chain][1..] == chains[1..];
    } else {
      TotalUpdate(chains[1..], b - 1, chain);
      assert chains[b := chain][1..] == chains[1..][b - 1 := chain];
    }
  }

  lemma {:induction false} TotalEmpty<T>(chains: seq<seq<T>>)
    ensures (forall b | 0 <= b < |chains| :: chains[b] == []) <==> Total(chains) == 0
    decreases |chains|
  {
    if chains != [] {
      var rest := chains[1..];
      TotalEmpty(rest);
      assert forall b | 0 <= b < |rest| :: rest[b] == chains[b + 1];
    }
  }

  /** Taking the first entry of a bucket out takes one key out of the map. */
  lemma FirstOut<K, V>(t: Table<K, V>, f: K -> nat, m: map<K, V>, b: nat) returns (k: K)
    requires Represents(t, f, m) && b < |t| && t[b] != [] && forall i | 0 <= i < |t| :: AllKeyed(t[i])
    ensures var t' := t[b := Without(t[b], 0)];
            && k in m && Represents(t', f, m - {k}) && Total(t') == Total(t) - 1
            && forall i | 0 <= i < |t'| :: AllKeyed(t'[i])
  {
    assert AllKeyed(t[b]);
    k := t[b][0].key.value;
    assert BucketOk(t[b], b, |t|, f, m);
    WithoutRemoves(t, f, m, b, 0, k);
    TotalUpdate(t, b, Without(t[b], 0));
  }

  lemma NoEntryNoKey<K, V>(t: Table<K, V>, f: K -> nat, m: map<K, V>)
    requires Represents(t, f, m) && forall b | 0 <= b < |t| :: t[b] == []
    ensures |m| == 0
  {
    forall k ensures k !in m {
      assert k in m ==> KeyIn(t[Home(f(k), |t|)], k);
    }
    assert m.Keys == {};
  }

  /** With nothing marked, the table's element count is the number of keys. */
  lemma {:induction false} CountIsSize<K, V>(t: Table<K, V>, f: K -> nat, m: map<K, V>)
    requires Represents(t, f, m) && forall b | 0 <= b < |t| :: AllKeyed(t[b])
    ensures Total(t) == |m|
    decreases Total(t)
  {
    hide Represents, Without, AllKeyed, Total;
    TotalEmpty(t);
    if Total(t) == 0 {
      NoEntryNoKey(t, f, m);
    } else {
      var b :| 0 <= b < |t| && t[b] != [];
      var k := FirstOut(t, f, m, b);
      CountIsSize(t[b := Without(t[b], 0)], f, m - {k});
      assert (m - {k}).Keys == m.Keys - {k};
      assert |m.Keys| == |m| && |(m - {k}).Keys| == |m - {k}|;
    }
  }

  /** Looking a key up in its bucket answers for the map. */
  lemma FindIs<K, V>(t: Table<K, V>, f: K -> nat, m: map<K, V>, k: K)
    requires Represents(t, f, m)
    ensures var b := Home(f(k), |t|);
            && (if Find(t[b], k) < |t[b]| then k in m && t[b][Find(t[b], k)] == Entry(Some(k), f(k), m[k]) else k !in m)
            && (forall i | 0 <= i < |t[b]| && t[b][i].key == Some(k) :: t[b][i].hashValue == f(k))
  {
    var b := Home(f(k), |t|);
    assert BucketOk(t[b], b, |t|, f, m);
    if k in m {
      assert KeyIn(t[b], k);
    }
  }

  /** A lookup changes the order of one bucket and nothing else. */
  lemma LookedKeeps<K, V>(t: Table<K, V>, f: K -> nat, m: map<K, V>, k: K)
    requires Represents(t, f, m) && AllKeyed(t[Home(f(k), |t|)])
    ensures var b := Home(f(k), |t|);
            var t' := t[b := Looked(t[b], k)];
            && Represents(t', f, m) && Total(t') == Total(t) && AllKeyed(t'[b])
            && (Find(t[b], k) == |t[b]| <==> k !in m)
            && (k in m ==> |t'[b]| > 0 && t'[b][0] == Entry(Some(k), f(k), m[k]))
            && Searchable(t[b], k, f(k))
  {
    var b := Home(f(k), |t|);
    FindIs(t, f, m, k);
    var i := Find(t[b], k);
    if i < |t[b]| {
      ToFrontKeeps(t, f, m, b, i);
      TotalUpdate(t, b, ToFront(t[b], i));
    } else {
      assert t[b := t[b]] == t;
    }
  }

  /** A removal takes the key, and only it, out of the map. */
  lemma RemovedRemoves<K, V>(t: Table<K, V>, f: K -> nat, m: map<K, V>, k: K)
    requires Represents(t, f, m) && AllKeyed(t[Home(f(k), |t|)])
    ensures var b := Home(f(k), |t|);
            var t' := t[b := Removed(t[b], k)];
            && Represents(t', f, m - {k}) && Total(t') == Total(t) - (if k in m then 1 else 0) && AllKeyed(t'[b])
            && (Find(t[b], k) < |t[b]| <==> k in m)
            && Searchable(t[b], k, f(k))
  {
    var b := Home(f(k), |t|);
    FindIs(t, f, m, k);
    var i := Find(t[b], k);
    if i < |t[b]| {
      WithoutRemoves(t, f, m, b, i, k);
      TotalUpdate(t, b, Without(t[b], i));
    } else {
      assert t[b := t[b]] == t;
      assert m - {k} == m;
    }
  }

  lemma EmptyRepresents<K, V>(t: Table<K, V>, f: K -> nat)
    requires 0 < |t| && forall b | 0 <= b < |t| :: t[b] == []
    ensures Represents(t, f, map[]) && Total(t) == 0
  {
    TotalEmpty(t);
  }

  // ------------------------------------------------------------------ the table itself

  /** The bucket array of hash_init. */
  method MakeBuckets<K(==), V>(n: nat) returns (buckets: array<Bucket<K, V>>, ghost owned: set<object>)
    ensures fresh(buckets) && fresh(owned) && buckets !in owned && buckets.Length == n
    ensures forall b | 0 <= b < n :: buckets[b] in owned && buckets[b].repr <= owned && buckets[b].Valid() && buckets[b].entries == []
    ensures forall b, c | 0 <= b < c < n :: buckets[b].repr !! buckets[c].repr
  {
    hide Bucket.Valid;
    var first := new Bucket<K, V>();
    buckets := new Bucket<K, V>[n](_ => first);
    owned := {};
    var i := 0;
    while i < n
      invariant 0 <= i <= n && fresh(owned) && buckets !in owned
      invariant forall b | 0 <= b < i :: buckets[b] in owned && buckets[b].repr <= owned && buckets[b].Valid() && buckets[b].entries == []
      invariant forall b, c | 0 <= b < c < i :: buckets[b].repr !! buckets[c].repr
    {
      var bucket := new Bucket<K, V>();
      buckets[i] := bucket;
      owned := owned + bucket.repr;
      i := i + 1;
    }
  }

  /** struct hash. */
  class Hash<K(==), V> {
    const nBuckets: nat
    const hashFunction: K -> nat
    const buckets: array<Bucket<K, V>>
    var nElements: int

    /** What each bucket shows, the map that stands for, and the objects that make it up. */
    ghost var table: Table<K, V>
    ghost var contents: map<K, V>
    ghost var repr: set<object>

    ghost predicate Owns(b: nat)
      requires b < buckets.Length
      reads this, buckets, buckets[b]
    {
      && buckets[b].repr <= repr
      && this !in buckets[b].repr && buckets !in buckets[b].repr
    }

    ghost predicate Valid()
      reads this, repr
      ensures Valid() ==> this in repr && buckets in repr && 0 < nBuckets == buckets.Length == |table|
    {
      && this in repr && buckets in repr
      && 0 < nBuckets == buckets.Length == |table|
      && (forall b | 0 <= b < nBuckets :: buckets[b] in repr && Owns(b) && buckets[b].Valid() && buckets[b].entries == table[b])
      && (forall b, c | 0 <= b < c < nBuckets :: buckets[b].repr !! buckets[c].repr)
      && Represents(table, hashFunction, contents)
      && nElements == Total(table)
    }

    lemma Core()
      requires Valid()
      ensures Represents(table, hashFunction, contents) && nElements == Total(table)
    {
    }

    lemma Facts(b: nat)
      requires Valid() && b < nBuckets
      ensures Owns(b) && buckets[b] in repr && buckets[b].Valid() && buckets[b].entries == table[b]
    {
    }

    /** No element waits to be deleted. */
    ghost predicate Settled()
      reads this
    {
      forall b | 0 <= b < |table| :: AllKeyed(table[b])
    }

    /** hash_init, for a number of buckets already rounded up to a power of 2. */
    constructor (n: nat, f: K -> nat)
      requires 0 < n
      ensures Valid() && Settled() && fresh(repr) && contents == map[] && nElements == 0
      ensures nBuckets == n && hashFunction == f
    {
      var made, owned := MakeBuckets<K, V>(n);
      nBuckets, hashFunction, nElements := n, f, 0;
      buckets := made;
      table, contents := seq(n, _ => []), map[];
      repr := {this, made} + owned;
      new;
      hide Bucket.Valid, Represents, Total;
      EmptyRepresents(table, f);
    }

    /** With nothing waiting to be deleted, n_elements is the size of the map. */
    lemma CountIsRight()
      requires Valid() && Settled()
      ensures nElements == |contents|
    {
      CountIsSize(table, hashFunction, contents);
    }

    /** hash_bucket. */
    function HomeOf(key: K): (b: nat)
      requires 0 < nBuckets
      ensures b < nBuckets
    {
      Home(hashFunction(key), nBuckets)
    }

    /** Every bucket but b is as the table says, and b's own objects are nobody else's. */
    ghost predicate ValidBut(b: nat)
      reads this, repr
    {
      && this in repr && buckets in repr
      && b < nBuckets == buckets.Length == |table|
      && (forall c | 0 <= c < nBuckets :: buckets[c] in repr && Owns(c))
      && (forall c | 0 <= c < nBuckets && c != b :: buckets[c].Valid() && buckets[c].entries == table[c])
      && (forall c, d | 0 <= c < d < nBuckets :: buckets[c].repr !! buckets[d].repr)
    }

    /** An operation that writes only what bucket b owns leaves the rest of the table standing. */
    twostate lemma OthersStand(b: nat)
      requires old(ValidBut(b)) && b < old(|table|)
      requires unchanged(this) && unchanged(buckets)
      requires buckets[b].repr == old(buckets[b].repr)
      requires forall o: object | o in old(repr) && o !in old(buckets[b].repr) :: unchanged(o)
      ensures ValidBut(b)
    {
      forall c | 0 <= c < nBuckets && c != b
        ensures buckets[c].Valid() && buckets[c].entries == table[c] && buckets[c].repr == old(buckets[c].repr)
      {
        assert old(buckets[c].repr) !! old(buckets[b].repr);
        assert old(buckets[c].Valid());
      }
    }

    /** The same when the bucket has grown by new objects. */
    twostate lemma OthersStandGrown(b: nat)
      requires old(ValidBut(b)) && b < old(|table|)
      requires unchanged(`table) && unchanged(buckets)
      requires repr == old(repr) + buckets[b].repr
      requires old(buckets[b].repr) <= buckets[b].repr && fresh(buckets[b].repr - old(buckets[b].repr))
      requires forall o: object | o in old(repr) && o !in old(buckets[b].repr) && o != this :: unchanged(o)
      ensures ValidBut(b)
    {
      forall c | 0 <= c < nBuckets && c != b
        ensures buckets[c].Valid() && buckets[c].entries == table[c] && buckets[c].repr == old(buckets[c].repr)
      {
        assert old(buckets[c].repr) !! old(buckets[b].repr);
        assert old(buckets[c].Valid());
      }
    }

    /** Taking note of what bucket b now holds. */
    ghost method Refresh(b: nat, m: map<K, V>)
      requires ValidBut(b) && buckets[b].Valid()
      requires Represents(table[b := buckets[b].entries], hashFunction, m)
      requires nElements == Total(table[b := buckets[b].entries])
      modifies `table, `contents
      ensures Valid() && table == old(table)[b := buckets[b].entries] && contents == m
    {
      table := table[b := buckets[b].entries];
      contents := m;
    }

    /** hash_lookup_fast, once it is known what the reordered bucket stands for. */
    method LookupFast(b: nat, key: K, hv: nat) returns (he: Element?<K, V>)
      requires Valid() && b < nBuckets && Searchable(table[b], key, hv)
      requires Represents(table[b := Looked(table[b], key)], hashFunction, contents)
      requires Total(table[b := Looked(table[b], key)]) == nElements
      modifies repr
      ensures Valid() && repr == old(repr) && contents == old(contents) && nElements == old(nElements)
      ensures table == old(table)[b := Looked(old(table[b]), key)]
      ensures he == null <==> Find(old(table[b]), key) == |old(table[b])|
      ensures he != null ==> |buckets[b].chain| > 0 && he == buckets[b].chain[0] && table[b][0] == Entry(Some(key), hv, he.value)
    {
      hide Represents, Bucket.Valid, Find, Looked, Searchable, Total;
      assert Owns(b);
      label before:
      he := buckets[b].LookupFast(key, hv);
      OthersStand@before(b);
      Refresh(b, contents);
    }

    /** he is what looking up key left at the head of its bucket. */
    ghost predicate Found(he: Element?<K, V>, key: K)
      requires Valid()
      reads this, repr, he
    {
      var b := HomeOf(key);
      if he == null then key !in contents
      else
        && key in contents && he.value == contents[key]
        && |buckets[b].chain| > 0 && he == buckets[b].chain[0] && |table[b]| > 0 && table[b][0].key == Some(key)
    }

    /** Looking an element up by key alone; it ends up at the head of its bucket. */
    method LookupElement(key: K) returns (he: Element?<K, V>)
      requires Valid() && AllKeyed(table[HomeOf(key)])
      modifies repr
      ensures Valid() && repr == old(repr) && contents == old(contents) && nElements == old(nElements)
      ensures Found(he, key)
      ensures AllKeyed(table[HomeOf(key)]) && forall c | 0 <= c < |table| && c != HomeOf(key) :: table[c] == old(table[c])
    {
      LookedKeeps(table, hashFunction, contents, key);
      he := LookupFast(HomeOf(key), key, hashFunction(key));
    }

    /** hash_lookup. */
    method Lookup(key: K) returns (r: Option<V>)
      requires Valid() && AllKeyed(table[HomeOf(key)])
      modifies repr
      ensures Valid() && repr == old(repr) && contents == old(contents) && nElements == old(nElements)
      ensures r == if key in contents then Some(contents[key]) else None
      ensures old(Settled()) ==> Settled()
    {
      var he := LookupElement(key);
      if he != null {
        r := Some(he.value);
      } else {
        r := None;
      }
    }

    /** hash_add_fast, once it is known what the grown bucket stands for. */
    method AddFast(b: nat, key: K, hv: nat, value: V, ghost m: map<K, V>)
      requires Valid() && b < nBuckets
      requires Represents(table[b := [Entry(Some(key), hv, value)] + table[b]], hashFunction, m)
      requires Total(table[b := [Entry(Some(key), hv, value)] + table[b]]) == nElements + 1
      modifies repr
      ensures Valid() && fresh(repr - old(repr)) && contents == m && nElements == old(nElements) + 1
      ensures table == old(table)[b := [Entry(Some(key), hv, value)] + old(table[b])]
    {
      hide Represents, Bucket.Valid, Total;
      assert Owns(b);
      label before:
      buckets[b].AddFast(key, hv, value);
      repr := repr + buckets[b].repr;
      OthersStandGrown@before(b);
      nElements := nElements + 1;
      Refresh(b, m);
    }

    /** Adding a key that is not a duplicate, as hash_add_fast assumes. */
    method AddNew(key: K, value: V)
      requires Valid() && key !in contents
      modifies repr
      ensures Valid() && fresh(repr - old(repr)) && contents == old(contents)[key := value] && nElements == old(nElements) + 1
      ensures old(Settled()) ==> Settled()
    {
      hide Hash.Valid, Bucket.Valid, Home, Represents, Total;
      Core();
      AddAdds(table, hashFunction, contents, key, value);
      TotalUpdate(table, HomeOf(key), [Entry(Some(key), hashFunction(key), value)] + table[HomeOf(key)]);
      AddFast(HomeOf(key), key, hashFunction(key), value, contents[key := value]);
    }

    /** hash_add. */
    method Add(key: K, value: V, replace: bool) returns (ret: bool)
      requires Valid() && AllKeyed(table[HomeOf(key)])
      modifies repr
      ensures Valid() && fresh(repr - old(repr))
      ensures ret == (key !in old(contents) || replace)
      ensures contents == if ret then old(contents)[key := value] else old(contents)
      ensures nElements == old(nElements) + if key in old(contents) then 0 else 1
      ensures old(Settled()) ==> Settled()
    {
      hide Hash.Valid, Bucket.Valid, Home;
      Facts(HomeOf(key));
      var b := HomeOf(key);
      var he := LookupElement(key);
      if he == null {
        AddNew(key, value);
        return true;
      }
      if replace {
        Facts(b);
        WriteElement(b, 0, he, key, Some(key), value);
      }
      return replace;
    }

    /** Writing into an element of the table: a new value, or no key any more. */
    method WriteElement(ghost b: nat, ghost i: nat, he: Element<K, V>, ghost k: K, key: Option<K>, value: V)
      requires Valid() && b < nBuckets && i < |table[b]|
      requires i < |buckets[b].chain| && he == buckets[b].chain[i] && table[b][i].key == Some(k)
      requires key == Some(k) || key == None
      modifies repr
      ensures Valid() && repr == old(repr) && nElements == old(nElements)
      ensures contents == if key == None then old(contents) - {k} else old(contents)[k := value]
      ensures table == old(table)[b := old(table[b])[i := Entry(key, old(table[b][i].hashValue), value)]]
      ensures buckets[..] == old(buckets[..]) && buckets[b].chain == old(buckets[b].chain)
    {
      hide Represents, Total;
      ghost var m := if key == None then contents - {k} else contents[k := value];
      UpdateUpdates(table, hashFunction, contents, b, i, k, key, value);
      TotalUpdate(table, b, table[b][i := Entry(key, table[b][i].hashValue, value)]);
      assert Owns(b);
      label before:
      he.key := key;
      he.value := value;
      assert buckets[b].ValidExcept(i);
      buckets[b].NoteWrite(i);
      OthersStand@before(b);
      Refresh(b, m);
    }

    /** hash_remove_fast, once it is known what the shrunk bucket stands for. */
    method RemoveFast(b: nat, key: K, hv: nat, ghost m: map<K, V>) returns (found: bool)
      requires Valid() && b < nBuckets && Searchable(table[b], key, hv)
      requires Represents(table[b := Removed(table[b], key)], hashFunction, m)
      requires Total(table[b := Removed(table[b], key)]) == nElements - if Find(table[b], key) < |table[b]| then 1 else 0
      modifies repr
      ensures Valid() && repr == old(repr) && contents == m
      ensures found == (Find(old(table[b]), key) < |old(table[b])|)
      ensures table == old(table)[b := Removed(old(table[b]), key)]
      ensures nElements == old(nElements) - if found then 1 else 0
    {
      hide Represents, Bucket.Valid, Find, Removed, Searchable, Total;
      assert Owns(b);
      label before:
      found := buckets[b].RemoveFast(key, hv);
      OthersStand@before(b);
      if found {
        nElements := nElements - 1;
      }
      Refresh(b, m);
    }

    /** hash_remove. */
    method Remove(key: K) returns (found: bool)
      requires Valid() && AllKeyed(table[HomeOf(key)])
      modifies repr
      ensures Valid() && repr == old(repr)
      ensures found == (key in old(contents)) && contents == old(contents) - {key}
      ensures nElements == old(nElements) - if found then 1 else 0
      ensures old(Settled()) ==> Settled()
    {
      RemovedRemoves(table, hashFunction, contents, key);
      found := RemoveFast(HomeOf(key), key, hashFunction(key), contents - {key});
    }

    /** hash_remove_marked. */
    method RemoveMarked(bucket: Bucket<K, V>, ghost b: nat)
      requires Valid() && b < nBuckets && bucket == buckets[b]
      modifies repr
      ensures Valid() && repr == old(repr) && contents == old(contents)
      ensures buckets[..] == old(buckets[..]) && table == old(table)[b := Unmarked(old(table[b]))]
      ensures nElements == old(nElements) - |old(table[b])| + |Unmarked(old(table[b]))|
    {
      hide Represents, Bucket.Valid, Total, Home;
      SweepKeeps(table, hashFunction, contents, b);
      TotalUpdate(table, b, Unmarked(table[b]));
      assert Owns(b);
      label before:
      var removed := bucket.RemoveMarked();
      OthersStand@before(b);
      nElements := nElements - removed;
      Refresh(b, contents);
    }
  }
}
