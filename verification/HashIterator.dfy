/** The iterator of list.c, which puts off deletions until it leaves a bucket. */
module HashIterators {
  import opened Options
  import opened HashBuckets
  import opened HashTables
  import opened Sequences

  /** What buckets [from, end) have for an iterator. */
  function Ahead<T>(t: seq<seq<T>>, from: int, end: nat): seq<T>
    requires end <= |t|
  {
    if 0 <= from < end then Joined(t[from..end]) else []
  }

  lemma AheadStep<T>(t: seq<seq<T>>, from: nat, end: nat)
    requires from < end <= |t|
    ensures Ahead(t, from, end) == t[from] + Ahead(t, from + 1, end)
  {
    var w := t[from..end];
    assert w[0] == t[from] && w[1..] == t[from + 1..end];
    assert Joined(w) == w[0] + Joined(w[1..]);
    assert from + 1 == end ==> w[1..] == [];
  }

  lemma AheadNone<T>(t: seq<seq<T>>, from: int, end: nat)
    requires end <= |t| && end <= from
    ensures Ahead(t, from, end) == []
  {
  }

  /** struct hash_iterator. */
  class HashIterator<K(==), V> {
    const hash: Hash<K, V>
    const bucketIndexEnd: nat
    var bucketIndex: int
    var bucket: Bucket?<K, V>
    var elem: Element?<K, V>
    var last: Element?<K, V>
    var bucketMarked: bool

    /** Where the iterator is, and the entries it has yet to visit. */
    ghost var cur: nat
    ghost var pos: nat
    ghost var rest: seq<Entry<K, V>>

    ghost predicate Valid()
      reads this, hash, hash.repr
      ensures Valid() ==> hash.Valid() && this !in hash.repr
    {
      && hash.Valid() && this !in hash.repr
      && -1 <= bucketIndex && bucketIndexEnd <= hash.nBuckets
      && (if bucket == null then
            && elem == null && last == null && !bucketMarked && hash.Settled()
            && rest == Ahead(hash.table, bucketIndex + 1, bucketIndexEnd)
          else
            && cur < hash.nBuckets && cur <= bucketIndex && bucket == hash.buckets[cur]
            && 1 <= pos <= |bucket.chain| && elem == Nth(bucket.chain, pos) && last == bucket.chain[pos - 1]
            && (elem != null ==> cur == bucketIndex < bucketIndexEnd)
            && (forall b | 0 <= b < hash.nBuckets && b != cur :: AllKeyed(hash.table[b]))
            && (!bucketMarked ==> AllKeyed(hash.table[cur]))
            && AllKeyed(hash.table[cur][pos..])
            && rest == hash.table[cur][pos..] + Ahead(hash.table, bucketIndex + 1, bucketIndexEnd))
    }

    /** hash_iterator_init_range. */
    constructor (hash: Hash<K, V>, start: nat, end: nat)
      requires hash.Valid() && hash.Settled() && start <= if end > hash.nBuckets then hash.nBuckets else end
      ensures Valid() && this.hash == hash
      ensures rest == Ahead(hash.table, start, if end > hash.nBuckets then hash.nBuckets else end)
    {
      hide Hash.Valid, Bucket.Valid, Ahead, AllKeyed;
      this.hash := hash;
      bucketIndexEnd := if end > hash.nBuckets then hash.nBuckets else end;
      elem, bucket, last, bucketMarked := null, null, null, false;
      bucketIndex := start - 1;
      cur, pos := 0, 0;
      rest := Ahead(hash.table, start, if end > hash.nBuckets then hash.nBuckets else end);
    }

    /** hash_iterator_unlock: the bucket is left, and now its marked elements go. */
    method Unlock()
      requires Valid()
      modifies this, hash.repr
      ensures hash.Valid() && hash.Settled() && hash.repr == old(hash.repr) && hash.contents == old(hash.contents)
      ensures bucket == null && bucketIndex == old(bucketIndex) && elem == old(elem)
      ensures elem == null ==> Valid() && rest == old(rest)
    {
      hide Hash.Valid, Bucket.Valid, Ahead, AllKeyed, Unmarked;
      if bucket != null {
        hash.Facts(cur);
        AheadElsewhere(hash.table, cur, Unmarked(hash.table[cur]), bucketIndex + 1, bucketIndexEnd);
        if bucketMarked {
          UnmarkedKeyed(hash.table[cur]);
          hash.RemoveMarked(bucket, cur);
          bucketMarked := false;
        }
        bucket := null;
        last := null;
        if elem == null {
          rest := Ahead(hash.table, bucketIndex + 1, bucketIndexEnd);
        }
      }
    }

    /** hash_iterator_next within its bucket. */
    method NextHere() returns (ret: Element?<K, V>)
      requires Valid() && elem != null
      modifies this, hash.repr
      ensures Valid() && hash.repr == old(hash.repr) && hash.contents == old(hash.contents)
      ensures if old(rest) == [] then ret == null && rest == []
              else ret != null && ret == last && ret.key.Some? && Shown(ret) == old(rest)[0] && rest == old(rest)[1..]
    {
      hide Hash.Valid, Bucket.Valid, Ahead;
      hash.Facts(cur);
      bucket.At(pos);
      DropOne(hash.table[cur], pos, Ahead(hash.table, bucketIndex + 1, bucketIndexEnd));
      ret := elem;
      last := elem;
      elem := elem.next;
      pos := pos + 1;
      rest := rest[1..];
    }

    /** Entering the bucket at `bucketIndex`, whose list is not empty. */
    method Enter(b: Bucket<K, V>) returns (ret: Element?<K, V>)
      requires hash.Valid() && this !in hash.repr && hash.Settled()
      requires bucket == null && elem == null && last == null
      requires 0 <= bucketIndex < bucketIndexEnd <= hash.nBuckets
      requires b == hash.buckets[bucketIndex] && b.list != null
      requires rest == Ahead(hash.table, bucketIndex, bucketIndexEnd)
      modifies this
      ensures Valid()
      ensures old(rest) != [] && ret != null && ret == last && ret.key.Some? && Shown(ret) == old(rest)[0] && rest == old(rest)[1..]
    {
      hide Hash.Valid, Bucket.Valid, Ahead;
      hash.Facts(bucketIndex);
      b.At(0);
      AheadStep(hash.table, bucketIndex, bucketIndexEnd);
      DropOne(hash.table[bucketIndex], 0, Ahead(hash.table, bucketIndex + 1, bucketIndexEnd));
      bucket := b;
      bucketMarked := false;
      ret := b.list;
      last := b.list;
      elem := b.list.next;
      cur, pos := bucketIndex, 1;
      rest := rest[1..];
    }

    /** hash_iterator_next: exactly the next entry in order, or nothing when none is left. */
    method Next() returns (ret: Element?<K, V>)
      requires Valid()
      modifies this, hash.repr
      ensures Valid() && hash.repr == old(hash.repr) && hash.contents == old(hash.contents)
      ensures if old(rest) == [] then ret == null && rest == []
              else ret != null && ret == last && ret.key.Some? && Shown(ret) == old(rest)[0] && rest == old(rest)[1..]
    {
      hide Hash.Valid, Bucket.Valid, Ahead;
      ret := null;
      if elem != null {
        ret := NextHere();
      } else {
        while bucketIndex + 1 < bucketIndexEnd
          invariant Valid() && elem == null && ret == null
          invariant hash.repr == old(hash.repr) && hash.contents == old(hash.contents) && rest == old(rest)
          decreases bucketIndexEnd - bucketIndex
        {
          Unlock();
          bucketIndex := bucketIndex + 1;
          hash.Facts(bucketIndex);
          var b := hash.buckets[bucketIndex];
          if b.list != null {
            ret := Enter(b);
            return;
          }
          AheadStep(hash.table, bucketIndex, bucketIndexEnd);
          b.At(0);
        }
        AheadNone(hash.table, bucketIndex + 1, bucketIndexEnd);
        AheadNone(hash.table, bucketIndex + 2, bucketIndexEnd);
        if bucket != null {
          hash.Facts(cur);
        }
        bucketIndex := bucketIndex + 1;
      }
    }

    /** The element just visited is still what the table maps its key to. */
    lemma LastStands()
      requires Valid() && last != null && last.key.Some?
      ensures last.key.value in hash.contents && hash.contents[last.key.value] == last.value
    {
      hide Bucket.Valid, Ahead;
      hash.Facts(cur);
      hash.Core();
      bucket.At(pos - 1);
      assert hash.table[cur][pos - 1] == Shown(last);
    }

    /** hash_iterator_delete_element: the last element visited loses its key at once, its place later. */
    method DeleteElement()
      requires Valid() && last != null
      modifies this, hash.repr
      ensures Valid() && hash.repr == old(hash.repr) && last == old(last) && rest == old(rest)
      ensures hash.contents == if old(last.key).Some? then old(hash.contents) - {old(last.key).value} else old(hash.contents)
    {
      hide Hash.Valid, Bucket.Valid, Ahead;
      hash.Facts(cur);
      bucket.At(pos - 1);
      AheadElsewhere(hash.table, cur, hash.table[cur][pos - 1 := Entry(None, last.hashValue, last.value)], bucketIndex + 1, bucketIndexEnd);
      if last.key.Some? {
        ghost var k := last.key.value;
        hash.WriteElement(cur, pos - 1, last, k, None, last.value);
      }
      assert hash.table[cur][pos..] == old(hash.table[cur][pos..]);
      bucketMarked := true;
    }
  }

  /** Visiting one more entry of a bucket. */
  lemma DropOne<K, V>(entries: seq<Entry<K, V>>, pos: nat, more: seq<Entry<K, V>>)
    requires pos < |entries| && AllKeyed(entries[pos..])
    ensures AllKeyed(entries[pos + 1..])
    ensures (entries[pos..] + more)[0] == entries[pos] && (entries[pos..] + more)[1..] == entries[pos + 1..] + more
    ensures entries[0..] == entries
  {
    var tail := entries[pos..];
    assert forall i | pos <= i < |entries| :: entries[i] == tail[i - pos];
  }

  lemma AheadElsewhere<T>(t: seq<seq<T>>, b: nat, s: seq<T>, from: int, end: nat)
    requires b < |t| && b < from && end <= |t|
    ensures Ahead(t[b := s], from, end) == Ahead(t, from, end)
  {
    if from < end {
      assert t[b := s][from..end] == t[from..end];
    }
  }

  // ------------------------------------------------------------------ a whole pass

  predicate Doomed<K(==), V>(visited: seq<Entry<K, V>>, dead: (K, V) -> bool, k: K) {
    exists i :: 0 <= i < |visited| && visited[i].key == Some(k) && dead(k, visited[i].value)
  }

  /** The map once the visited entries that `dead` condemns are gone. */
  ghost function Survivors<K, V>(m: map<K, V>, visited: seq<Entry<K, V>>, dead: (K, V) -> bool): map<K, V> {
    map k | k in m && !Doomed(visited, dead, k) :: m[k]
  }

  lemma SurvivorsStep<K, V>(m: map<K, V>, visited: seq<Entry<K, V>>, dead: (K, V) -> bool, e: Entry<K, V>)
    requires e.key.Some?
    ensures Survivors(m, visited + [e], dead)
         == if dead(e.key.value, e.value) then Survivors(m, visited, dead) - {e.key.value} else Survivors(m, visited, dead)
  {
    var more := visited + [e];
    forall k ensures Doomed(more, dead, k) <==> Doomed(visited, dead, k) || (e.key == Some(k) && dead(k, e.value)) {
      if Doomed(visited, dead, k) {
        var i :| 0 <= i < |visited| && visited[i].key == Some(k) && dead(k, visited[i].value);
        assert more[i] == visited[i];
      }
      if e.key == Some(k) && dead(k, e.value) {
        assert more[|visited|] == e;
      }
    }
  }

  /** The entries of a range of buckets are those whose keys hash into it. */
  lemma {:induction false} FlatHas<T>(s: seq<seq<T>>, b: nat, i: nat)
    requires b < |s| && i < |s[b]|
    ensures s[b][i] in Joined(s)
    decreases b
  {
    if b > 0 { FlatHas(s[1..], b - 1, i); }
  }

  lemma {:induction false} FlatFrom<T>(s: seq<seq<T>>, x: T) returns (b: nat, i: nat)
    requires x in Joined(s)
    ensures b < |s| && i < |s[b]| && s[b][i] == x
    decreases |s|
  {
    if x in s[0] {
      b := 0;
      i :| 0 <= i < |s[0]| && s[0][i] == x;
    } else {
      b, i := FlatFrom(s[1..], x);
      b := b + 1;
    }
  }

  /** The range a pass covers: its end is cut to the number of buckets. */
  function Cut(end: nat, n: nat): nat {
    if end > n then n else end
  }

  lemma DoomedInRange<K, V>(t: Table<K, V>, f: K -> nat, m: map<K, V>, from: nat, end: nat, dead: (K, V) -> bool, k: K)
    requires Represents(t, f, m) && from <= end <= |t| && k in m
    ensures Doomed(Ahead(t, from, end), dead, k) <==> from <= Home(f(k), |t|) < end && dead(k, m[k])
  {
    var order := Ahead(t, from, end);
    var b := Home(f(k), |t|);
    assert KeyIn(t[b], k);
    var i :| 0 <= i < |t[b]| && t[b][i].key == Some(k);
    assert BucketOk(t[b], b, |t|, f, m);
    if from <= b < end {
      var part := t[from..end];
      assert part[b - from] == t[b];
      FlatHas(part, b - from, i);
      var j :| 0 <= j < |order| && order[j] == t[b][i];
      assert order[j].key == Some(k);
    }
    if Doomed(order, dead, k) {
      var j :| 0 <= j < |order| && order[j].key == Some(k) && dead(k, order[j].value);
      assert from < end && order[j] in order;
      var c, l := FlatFrom(t[from..end], order[j]);
      assert BucketOk(t[from + c], from + c, |t|, f, m);
    }
  }

  /** The map without the condemned keys that hash into [from, end). */
  ghost function Reaped<K, V>(m: map<K, V>, f: K -> nat, n: nat, from: nat, end: nat, dead: (K, V) -> bool): map<K, V>
    requires 0 < n
  {
    map k | k in m && !(from <= Home(f(k), n) < end && dead(k, m[k])) :: m[k]
  }

  lemma PassReaps<K, V>(t: Table<K, V>, f: K -> nat, m: map<K, V>, from: nat, end: nat, dead: (K, V) -> bool)
    requires Represents(t, f, m) && from <= end <= |t|
    ensures Survivors(m, Ahead(t, from, end), dead) == Reaped(m, f, |t|, from, end, dead)
  {
    forall k | k in m
      ensures Doomed(Ahead(t, from, end), dead, k) <==> from <= Home(f(k), |t|) < end && dead(k, m[k])
    {
      DoomedInRange(t, f, m, from, end, dead, k);
    }
  }

  /**
    The loop of multi_reap_range and hash_remove_by_value: visit a range of buckets and delete
    as it goes.  Every entry of the range is visited exactly once, in order; afterwards exactly
    the condemned keys of the range are gone, nothing waits to be deleted, and the count is right.
  */
  method RemoveWhere<K(==), V>(hash: Hash<K, V>, start: nat, end: nat, dead: (K, V) -> bool)
    returns (ghost visited: seq<Entry<K, V>>)
    requires hash.Valid() && hash.Settled() && start <= Cut(end, hash.nBuckets)
    modifies hash.repr
    ensures hash.Valid() && hash.Settled() && hash.repr == old(hash.repr)
    ensures visited == Ahead(old(hash.table), start, Cut(end, hash.nBuckets))
    ensures hash.contents == Reaped(old(hash.contents), hash.hashFunction, hash.nBuckets, start, Cut(end, hash.nBuckets), dead)
    ensures hash.nElements == |hash.contents|
  {
    PassReaps(hash.table, hash.hashFunction, hash.contents, start, Cut(end, hash.nBuckets), dead);
    hide HashIterator.Valid, Hash.Valid, Survivors, Ahead, Reaped, Hash.Settled;
    var hi := new HashIterator(hash, start, end);
    visited := [];
    ghost var order := hi.rest;
    ghost var m := hash.contents;
    SurvivorsNone(m, dead);
    while true
      invariant hi.Valid() && hi.hash == hash && fresh(hi) && hash.repr == old(hash.repr)
      invariant hash.contents == Survivors(m, visited, dead) && order == visited + hi.rest
      decreases |hi.rest|
    {
      ghost var rest := hi.rest;
      var he := hi.Next();
      if he == null {
        break;
      }
      SurvivorsStep(m, visited, dead, rest[0]);
      Regroup(visited, rest);
      visited := visited + [rest[0]];
      if dead(he.key.value, he.value) {
        hi.DeleteElement();
      }
    }
    hi.Unlock();
    hash.CountIsRight();
  }

  lemma Regroup<T>(a: seq<T>, b: seq<T>)
    requires b != []
    ensures a + b == a + [b[0]] + b[1..]
  {
  }

  lemma SurvivorsNone<K, V>(m: map<K, V>, dead: (K, V) -> bool)
    ensures Survivors(m, [], dead) == m
  {
  }
}
