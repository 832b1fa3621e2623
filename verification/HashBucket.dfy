/** The buckets of the hash table in list.c and list.h: chains of elements relinked on the heap. */
module HashBuckets {
  import opened Options


  /** struct hash_element; a key of None is the NULL that marks an element for deletion. */
  class Element<K, V> {
    var value: V
    var key: Option<K>
    const hashValue: nat
    var next: Element?<K, V>

    constructor (value: V, key: K, hashValue: nat, next: Element?<K, V>)
      ensures this.value == value && this.key == Some(key) && this.hashValue == hashValue && this.next == next
    {
      this.value, this.key, this.hashValue, this.next := value, Some(key), hashValue, next;
    }
  }

  /** An element as seen from outside. */
  datatype Entry<K, V> = Entry(key: Option<K>, hashValue: nat, value: V)

  ghost function Shown<K, V>(e: Element<K, V>): Entry<K, V>
    reads e`key, e`value
  {
    Entry(e.key, e.hashValue, e.value)
  }

  /** Element i of a chain before it moved to the front, from its place afterwards. */
  function Behind(i: nat, j: nat): nat {
    if j == 0 then i else if j <= i then j - 1 else j
  }

  /** The element at a place of a chain, null past its end. */
  ghost function Nth<K, V>(chain: seq<Element<K, V>>, i: int): Element?<K, V> {
    if 0 <= i < |chain| then chain[i] else null
  }

  /** Item i moved to the head, and taken out. */
  function ToFront<T>(s: seq<T>, i: nat): (r: seq<T>)
    requires i < |s|
    ensures |r| == |s|
    ensures forall j | 0 <= j < |s| :: r[j] == s[Behind(i, j)]
  {
    seq(|s|, j requires 0 <= j < |s| => s[Behind(i, j)])
  }

  /** Place j once item i is gone, as it was before. */
  function Skip(i: nat, j: nat): nat {
    if j < i then j else j + 1
  }

  function Without<T>(s: seq<T>, i: nat): (r: seq<T>)
    requires i < |s|
    ensures |r| == |s| - 1
    ensures forall j | 0 <= j < |r| :: r[j] == s[Skip(i, j)]
  {
    seq(|s| - 1, j requires 0 <= j < |s| - 1 => s[Skip(i, j)])
  }

  /** The place of a key among the entries, or their number. */
  function Find<K(==), V>(entries: seq<Entry<K, V>>, key: K): (i: nat)
    ensures i <= |entries|
    ensures i < |entries| ==> entries[i].key == Some(key)
    ensures forall j | 0 <= j < i :: entries[j].key != Some(key)
  {
    if entries == [] || entries[0].key == Some(key) then 0 else 1 + Find(entries[1..], key)
  }

  /** Comparing keys is safe, as nothing is marked, and equal keys have equal hash values. */
  predicate Searchable<K(==), V>(entries: seq<Entry<K, V>>, key: K, hv: nat) {
    forall i | 0 <= i < |entries| :: entries[i].key.Some? && (entries[i].key.value == key ==> entries[i].hashValue == hv)
  }

  /** The entries after a lookup, and after a removal, of a key. */
  function Looked<K(==), V>(entries: seq<Entry<K, V>>, key: K): seq<Entry<K, V>> {
    var i := Find(entries, key);
    if i < |entries| then ToFront(entries, i) else entries
  }

  function Removed<K(==), V>(entries: seq<Entry<K, V>>, key: K): seq<Entry<K, V>> {
    var i := Find(entries, key);
    if i < |entries| then Without(entries, i) else entries
  }

  /** The entries that are not marked. */
  function Unmarked<K, V>(entries: seq<Entry<K, V>>): seq<Entry<K, V>> {
    if entries == [] then []
    else (if entries[0].key.Some? then [entries[0]] else []) + Unmarked(entries[1..])
  }

  /** Where a chain's next pointers should lead. */
  ghost predicate Linked<K, V>(head: Element?<K, V>, chain: seq<Element<K, V>>)
    reads chain`next
  {
    head == Nth(chain, 0) && forall i {:trigger chain[i].next} | 0 <= i < |chain| :: chain[i].next == Nth(chain, i + 1)
  }

  /** The entries are what the elements of the chain show. */
  ghost predicate Shows<K, V>(entries: seq<Entry<K, V>>, chain: seq<Element<K, V>>)
    reads chain`key, chain`value
  {
    |entries| == |chain| && forall i {:trigger entries[i]} | 0 <= i < |chain| :: entries[i] == Shown(chain[i])
  }

  lemma FrontIn<K, V>(chain: seq<Element<K, V>>, i: nat, owned: set<object>)
    requires i < |chain| && forall j | 0 <= j < |chain| :: chain[j] in owned
    ensures forall j | 0 <= j < |ToFront(chain, i)| :: ToFront(chain, i)[j] in owned
  {
    forall j | 0 <= j < |chain| ensures ToFront(chain, i)[j] in owned {
      assert ToFront(chain, i)[j] == chain[Behind(i, j)];
    }
  }

  lemma WithoutIn<K, V>(chain: seq<Element<K, V>>, i: nat, owned: set<object>)
    requires i < |chain| && forall j | 0 <= j < |chain| :: chain[j] in owned
    ensures forall j | 0 <= j < |Without(chain, i)| :: Without(chain, i)[j] in owned
  {
    forall j | 0 <= j < |chain| - 1 ensures Without(chain, i)[j] in owned {
      assert Without(chain, i)[j] == chain[Skip(i, j)];
    }
  }

  lemma FrontShows<K, V>(entries: seq<Entry<K, V>>, chain: seq<Element<K, V>>, i: nat)
    requires i < |chain| && Shows(entries, chain)
    ensures Shows(ToFront(entries, i), ToFront(chain, i))
  {
  }

  lemma WithoutShows<K, V>(entries: seq<Entry<K, V>>, chain: seq<Element<K, V>>, i: nat)
    requires i < |chain| && Shows(entries, chain)
    ensures Shows(Without(entries, i), Without(chain, i))
  {
  }

  lemma IsShown<K, V>(he: Element<K, V>)
    ensures Shown(he) == Entry(he.key, he.hashValue, he.value)
  {
  }

  lemma ConsShows<K, V>(entries: seq<Entry<K, V>>, chain: seq<Element<K, V>>, he: Element<K, V>)
    requires Shows(entries, chain)
    ensures Shows([Shown(he)] + entries, [he] + chain)
  {
  }

  ghost predicate Placed<T>(s: seq<T>, place: map<T, nat>) {
    forall i | 0 <= i < |s| :: s[i] in place && place[s[i]] == i
  }

  /** Two pointer writes are all it takes to move element i to the head. */
  lemma FrontLinked<K, V>(chain: seq<Element<K, V>>, i: nat)
    requires 0 < i < |chain|
    requires chain[i].next == chain[0] && chain[i - 1].next == Nth(chain, i + 1)
    requires forall j {:trigger chain[j].next} | 0 <= j < |chain| && j != i && j != i - 1 :: chain[j].next == Nth(chain, j + 1)
    ensures Linked(chain[i], ToFront(chain, i))
  {
    var front := ToFront(chain, i);
    forall j | 0 <= j < |front| ensures front[j].next == Nth(front, j + 1) {
      assert front[j] == chain[Behind(i, j)];
    }
  }

  function FrontPlaces<T>(place: map<T, nat>, i: nat): map<T, nat> {
    map e | e in place :: if place[e] == i then 0 else if place[e] < i then place[e] + 1 else place[e]
  }

  lemma FrontPlaced<T>(s: seq<T>, place: map<T, nat>, i: nat)
    requires i < |s| && Placed(s, place)
    ensures Placed(ToFront(s, i), FrontPlaces(place, i))
  {
  }

  lemma ConsLinked<K, V>(head: Element?<K, V>, chain: seq<Element<K, V>>, he: Element<K, V>)
    requires Linked(head, chain) && he.next == head
    ensures Linked(he, [he] + chain)
  {
    var more := [he] + chain;
    forall j | 0 <= j < |more| ensures more[j].next == Nth(more, j + 1) {
      if j > 0 { assert more[j] == chain[j - 1]; }
    }
  }

  function ConsPlaces<T>(place: map<T, nat>, e: T): map<T, nat> {
    (map o | o in place :: place[o] + 1)[e := 0]
  }

  lemma ConsPlaced<T>(s: seq<T>, place: map<T, nat>, e: T)
    requires Placed(s, place) && e !in s
    ensures Placed([e] + s, ConsPlaces(place, e))
  {
  }

  /** One pointer write takes element i out. */
  lemma WithoutLinked<K, V>(head: Element?<K, V>, chain: seq<Element<K, V>>, i: nat)
    requires i < |chain| && head == if i == 0 then Nth(chain, 1) else chain[0]
    requires i > 0 ==> chain[i - 1].next == Nth(chain, i + 1)
    requires forall j {:trigger chain[j].next} | 0 <= j < |chain| && j != i - 1 :: chain[j].next == Nth(chain, j + 1)
    ensures Linked(head, Without(chain, i))
  {
    var less := Without(chain, i);
    forall j | 0 <= j < |less| ensures less[j].next == Nth(less, j + 1) {
      assert less[j] == chain[Skip(i, j)];
    }
  }

  function WithoutPlaces<T>(place: map<T, nat>, i: nat): map<T, nat> {
    map e | e in place :: if place[e] > i then place[e] - 1 else place[e]
  }

  lemma WithoutPlaced<T>(s: seq<T>, place: map<T, nat>, i: nat)
    requires i < |s| && Placed(s, place)
    ensures Placed(Without(s, i), WithoutPlaces(place, i))
  {
  }

  /** A sweep that has settled the first `kept` entries has only the rest left to look at. */
  ghost predicate Swept<K, V>(goal: seq<Entry<K, V>>, entries: seq<Entry<K, V>>, kept: nat) {
    kept <= |entries| && goal == entries[..kept] + Unmarked(entries[kept..])
  }

  lemma SweepStep<K, V>(goal: seq<Entry<K, V>>, entries: seq<Entry<K, V>>, kept: nat)
    requires Swept(goal, entries, kept) && kept < |entries|
    ensures if entries[kept].key.None? then Swept(goal, Without(entries, kept), kept)
            else Swept(goal, entries, kept + 1)
  {
    assert entries[kept..][1..] == entries[kept + 1..];
    if entries[kept].key.None? {
      var less := Without(entries, kept);
      assert less[..kept] == entries[..kept] && less[kept..] == entries[kept + 1..];
    } else {
      assert entries[..kept + 1] == entries[..kept] + [entries[kept]];
    }
  }

  lemma SweepEnds<K, V>(entries: seq<Entry<K, V>>)
    ensures Swept(Unmarked(entries), entries, 0)
    ensures forall goal :: Swept(goal, entries, |entries|) ==> goal == entries
  {
    assert entries[0..] == entries;
  }

  /** struct hash_bucket. */
  class Bucket<K(==), V> {
    var list: Element?<K, V>

    /** The elements in chain order, their places, what they show, and a set that owns them. */
    ghost var chain: seq<Element<K, V>>
    ghost var place: map<Element<K, V>, nat>
    ghost var entries: seq<Entry<K, V>>
    ghost var repr: set<object>

    ghost predicate Valid()
      reads this, repr
      ensures Valid() ==> this in repr && |entries| == |chain| && forall i | 0 <= i < |chain| :: chain[i] in repr
    {
      && this in repr
      && |entries| == |chain|
      && (forall i | 0 <= i < |chain| :: chain[i] in repr)
      && Placed(chain, place) && Linked(list, chain) && Shows(entries, chain)
    }

    lemma At(i: nat)
      requires Valid()
      ensures list == Nth(chain, 0)
      ensures i < |chain| ==> chain[i] in repr && chain[i].next == Nth(chain, i + 1) && entries[i] == Shown(chain[i])
    {
    }

    /** Places tell elements apart. */
    lemma Apart(i: nat)
      requires Valid() && 0 < i < |chain|
      ensures forall j | 0 <= j < |chain| && j != i :: chain[j] != chain[i]
      ensures forall j | 0 <= j < |chain| && j != i - 1 :: chain[j] != chain[i - 1]
    {
    }

    constructor ()
      ensures Valid() && fresh(repr) && entries == [] && this in repr
    {
      list, chain, place, entries := null, [], map[], [];
      repr := {this};
    }

    /** Relinking element i behind `prev` to the head. */
    method MoveToFront(ghost i: nat, prev: Element<K, V>, he: Element<K, V>)
      requires Valid() && 0 < i < |chain| && prev == chain[i - 1] && he == chain[i]
      modifies repr
      ensures Valid() && repr == old(repr)
      ensures chain == ToFront(old(chain), i) && entries == ToFront(old(entries), i)
    {
      hide Shows, Shown, Placed, ToFront;
      ghost var was := chain;
      Apart(i);
      FrontIn(chain, i, repr);
      FrontShows(entries, chain, i);
      FrontPlaced(was, place, i);
      assert he.next == Nth(was, i + 1);
      prev.next := he.next;
      he.next := list;
      list := he;
      FrontLinked(was, i);
      chain, entries, place := ToFront(chain, i), ToFront(entries, i), FrontPlaces(place, i);
    }

    /** The loop hash_lookup_fast and hash_remove_fast share: the element of a key, and the one before it. */
    method Scan(key: K, hv: nat) returns (prev: Element?<K, V>, he: Element?<K, V>)
      requires Valid() && Searchable(entries, key, hv)
      ensures var i := Find(entries, key); he == Nth(chain, i) && prev == Nth(chain, i - 1)
    {
      At(0);
      prev, he := null, list;
      ghost var i := 0;
      while he != null
        invariant 0 <= i <= |chain|
        invariant he == Nth(chain, i) && prev == Nth(chain, i - 1)
        invariant Find(entries, key) >= i
        decreases |chain| - i
      {
        At(i);
        if hv == he.hashValue && key == he.key.value {
          return;
        }
        prev := he;
        he := he.next;
        i := i + 1;
      }
    }

    /** hash_lookup_fast: an element found moves to the head. */
    method LookupFast(key: K, hv: nat) returns (he: Element?<K, V>)
      requires Valid()
      requires Searchable(entries, key, hv)
      modifies repr
      ensures Valid() && repr == old(repr)
      ensures entries == Looked(old(entries), key)
      ensures he == null <==> Find(old(entries), key) == |old(entries)|
      ensures he != null ==> |chain| > 0 && he == chain[0] && he in repr && entries[0] == Entry(Some(key), hv, he.value)
    {
      hide Valid;
      ghost var i := Find(entries, key);
      At(i);
      var prev: Element?<K, V>;
      prev, he := Scan(key, hv);
      if he != null {
        if prev != null {
          MoveToFront(i, prev, he);
        } else {
          assert ToFront(entries, 0) == entries;
        }
        At(0);
      }
    }

    /** hash_add_fast, on its bucket: a new element at the head. */
    method AddFast(key: K, hv: nat, value: V)
      requires Valid()
      modifies this
      ensures Valid() && fresh(repr - old(repr)) && old(repr) <= repr
      ensures entries == [Entry(Some(key), hv, value)] + old(entries)
    {
      hide Shows, Shown, Linked;
      var he := new Element<K, V>(value, key, hv, list);
      ConsShows(entries, chain, he);
      ConsLinked(list, chain, he);
      ConsPlaced(chain, place, he);
      list := he;
      chain, place := [he] + chain, ConsPlaces(place, he);
      entries := [Shown(he)] + entries;
      repr := repr + {he};
      IsShown(he);
    }

    /** Taking element i, behind `prev` if there is one, out of the chain. */
    method Unlink(ghost i: nat, prev: Element?<K, V>, he: Element<K, V>)
      requires Valid() && i < |chain| && prev == Nth(chain, i - 1) && he == chain[i]
      modifies repr
      ensures Valid() && repr == old(repr)
      ensures chain == Without(old(chain), i) && entries == Without(old(entries), i)
    {
      hide Shows, Shown, Placed, Without;
      ghost var was := chain;
      if i > 0 {
        Apart(i);
      }
      WithoutIn(chain, i, repr);
      WithoutShows(entries, chain, i);
      WithoutPlaced(was, place, i);
      assert he.next == Nth(was, i + 1);
      if prev != null {
        prev.next := he.next;
      } else {
        list := he.next;
      }
      WithoutLinked(list, was, i);
      chain, entries, place := Without(chain, i), Without(entries, i), WithoutPlaces(place, i);
    }

    /** hash_remove_fast, on its bucket. */
    method RemoveFast(key: K, hv: nat) returns (found: bool)
      requires Valid()
      requires Searchable(entries, key, hv)
      modifies repr
      ensures Valid() && repr == old(repr)
      ensures entries == Removed(old(entries), key)
      ensures found <==> Find(old(entries), key) < |old(entries)|
    {
      hide Valid;
      ghost var i := Find(entries, key);
      At(i);
      var prev, he := Scan(key, hv);
      found := he != null;
      if found {
        Unlink(i, prev, he);
      }
    }

    /** One turn of hash_remove_marked: drop a marked element or step over it. */
    method Sweep(ghost kept: nat, prev: Element?<K, V>, he: Element<K, V>)
      returns (prev': Element?<K, V>, next: Element?<K, V>, gone: bool)
      requires Valid() && kept < |chain| && prev == Nth(chain, kept - 1) && he == chain[kept]
      modifies repr
      ensures Valid() && repr == old(repr) && gone == old(entries[kept]).key.None?
      ensures entries == if gone then Without(old(entries), kept) else old(entries)
      ensures var at := if gone then kept else kept + 1;
              at <= |chain| && next == Nth(chain, at) && prev' == Nth(chain, at - 1)
    {
      gone := he.key.None?;
      next := he.next;
      assert next == Nth(chain, kept + 1);
      if gone {
        Unlink(kept, prev, he);
        prev' := prev;
      } else {
        prev' := he;
      }
    }

    /** hash_remove_marked, on its bucket. */
    method RemoveMarked() returns (removed: nat)
      requires Valid()
      modifies repr
      ensures Valid() && repr == old(repr)
      ensures entries == Unmarked(old(entries)) && removed == |old(entries)| - |entries|
    {
      hide Valid, Shown, Unmarked;
      At(0);
      var prev: Element?<K, V> := null;
      var he := list;
      removed := 0;
      ghost var goal := Unmarked(entries);
      ghost var kept := 0;
      SweepEnds(entries);
      while he != null
        invariant Valid() && repr == old(repr)
        invariant 0 <= kept <= |chain| && removed == |old(entries)| - |entries|
        invariant he == Nth(chain, kept) && prev == Nth(chain, kept - 1)
        invariant Swept(goal, entries, kept)
        decreases |entries| - kept
      {
        SweepStep(goal, entries, kept);
        var gone;
        prev, he, gone := Sweep(kept, prev, he);
        if gone {
          removed := removed + 1;
        } else {
          kept := kept + 1;
        }
      }
      assert kept == |entries|;
      SweepEnds(entries);
    }

    /** Sound but for what entry i should now show. */
    ghost predicate ValidExcept(i: nat)
      reads this, repr
    {
      && this in repr
      && |entries| == |chain|
      && (forall j | 0 <= j < |chain| :: chain[j] in repr)
      && Placed(chain, place) && Linked(list, chain)
      && (forall j {:trigger entries[j]} | 0 <= j < |chain| && j != i :: entries[j] == Shown(chain[j]))
    }

    /** Someone has written the key or value of element i. */
    ghost method NoteWrite(i: nat)
      requires i < |chain| && ValidExcept(i)
      modifies `entries
      ensures Valid() && entries == old(entries)[i := Shown(chain[i])]
    {
      entries := entries[i := Shown(chain[i])];
    }
  }
}
