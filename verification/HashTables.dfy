/** The hash table the weak containers sit on: entries with a stored hash in slots, no two with matching keys.
    Where an entry is put, and so the order of enumeration, is left open. */
module HashTables {
  import opened Options

  datatype Entry<K, V> = Entry(hash: nat, key: K, value: V)

  type Slots<K, V> = seq<Option<Entry<K, V>>>

  predicate Holds<K(==), V>(s: Slots<K, V>, i: nat, k: K) {
    i < |s| && s[i].Some? && s[i].value.key == k
  }

  ghost predicate UniqueKeys<K, V>(s: Slots<K, V>) {
    forall i, j :: 0 <= i < j < |s| && s[i].Some? && s[j].Some? ==> s[i].value.key != s[j].value.key
  }

  /** Every entry is stored under the hash of its key, so that a lookup finds it. */
  ghost predicate Findable<K, V>(s: Slots<K, V>, hashOf: K -> nat) {
    forall i :: 0 <= i < |s| && s[i].Some? ==> s[i].value.hash == hashOf(s[i].value.key)
  }

  ghost function Keys<K, V>(s: Slots<K, V>): set<K> {
    set i | 0 <= i < |s| && s[i].Some? :: s[i].value.key
  }

  ghost function SlotOf<K, V>(s: Slots<K, V>, k: K): (i: nat)
    requires k in Keys(s)
    ensures Holds(s, i, k)
  {
    var i :| 0 <= i < |s| && s[i].Some? && s[i].value.key == k;
    i
  }

  /** The table as a map. */
  ghost function Contents<K, V>(s: Slots<K, V>): map<K, V> {
    map k | k in Keys(s) :: s[SlotOf(s, k)].value.value
  }

  lemma ContentsAt<K, V>(s: Slots<K, V>, i: nat)
    requires UniqueKeys(s) && i < |s| && s[i].Some?
    ensures s[i].value.key in Contents(s) && Contents(s)[s[i].value.key] == s[i].value.value
  {
    assert s[i].value.key in Keys(s);
  }

  /** A map is the table's contents when it agrees with every slot and has no other key. */
  lemma ContentsAre<K, V>(s: Slots<K, V>, m: map<K, V>)
    requires UniqueKeys(s)
    requires forall i :: 0 <= i < |s| && s[i].Some? ==>
      s[i].value.key in m && m[s[i].value.key] == s[i].value.value
    requires forall k :: k in m ==> exists i :: Holds(s, i, k)
    ensures Contents(s) == m
  {
    forall k | k in m ensures k in Contents(s) && Contents(s)[k] == m[k] {
      var i :| Holds(s, i, k);
      ContentsAt(s, i);
    }
  }

  lemma RemovedContents<K, V>(s: Slots<K, V>, i: nat)
    requires UniqueKeys(s) && i < |s| && s[i].Some?
    ensures UniqueKeys(s[i := None]) && Contents(s[i := None]) == Contents(s) - {s[i].value.key}
  {
    var s', m := s[i := None], Contents(s) - {s[i].value.key};
    forall j | 0 <= j < |s'| && s'[j].Some? ensures s'[j].value.key in m && m[s'[j].value.key] == s'[j].value.value {
      ContentsAt(s, j);
    }
    forall k | k in m ensures exists j :: Holds(s', j, k) {
      assert Holds(s', SlotOf(s, k), k);
    }
    ContentsAre(s', m);
  }

  lemma AddedContents<K, V>(s: Slots<K, V>, i: nat, e: Entry<K, V>)
    requires UniqueKeys(s) && i < |s| && s[i].None? && e.key !in Contents(s)
    ensures UniqueKeys(s[i := Some(e)]) && Contents(s[i := Some(e)]) == Contents(s)[e.key := e.value]
  {
    var s', m := s[i := Some(e)], Contents(s)[e.key := e.value];
    forall j | 0 <= j < |s| && s[j].Some? ensures s[j].value.key != e.key {
      ContentsAt(s, j);
    }
    forall j | 0 <= j < |s'| && s'[j].Some? ensures s'[j].value.key in m && m[s'[j].value.key] == s'[j].value.value {
      if j != i {
        ContentsAt(s, j);
      }
    }
    forall k | k in m ensures exists j :: Holds(s', j, k) {
      if k == e.key {
        assert Holds(s', i, k);
      } else {
        assert Holds(s', SlotOf(s, k), k);
      }
    }
    ContentsAre(s', m);
  }

  lemma UpdatedContents<K, V>(s: Slots<K, V>, i: nat, v: V)
    requires UniqueKeys(s) && i < |s| && s[i].Some?
    ensures var s' := s[i := Some(s[i].value.(value := v))];
      UniqueKeys(s') && Contents(s') == Contents(s)[s[i].value.key := v]
  {
    var e := s[i].value;
    RemovedContents(s, i);
    var r := s[i := None];
    AddedContents(r, i, e.(value := v));
    assert r[i := Some(e.(value := v))] == s[i := Some(e.(value := v))];
    ContentsAt(s, i);
    assert (Contents(s) - {e.key})[e.key := v] == Contents(s)[e.key := v];
  }

  lemma GrownContents<K, V>(s: Slots<K, V>)
    requires UniqueKeys(s)
    ensures UniqueKeys(s + [None]) && Contents(s + [None]) == Contents(s)
  {
    var s' := s + [None];
    forall k | k in Contents(s) ensures exists i :: Holds(s', i, k) {
      assert Holds(s', SlotOf(s, k), k);
    }
    forall j | 0 <= j < |s'| && s'[j].Some?
      ensures s'[j].value.key in Contents(s) && Contents(s)[s'[j].value.key] == s'[j].value.value
    {
      ContentsAt(s, j);
    }
    ContentsAre(s', Contents(s));
  }

  // ----- keys that match -----

  /** How a table compares keys. */
  type Match<!K> = (K, K) -> bool

  /** What the table asks of it: an equivalence that the hash respects. It may be coarser than
      equality. */
  ghost predicate IsMatch<K(!new)>(matches: Match<K>, hashOf: K -> nat) {
    && (forall x :: matches(x, x))
    && (forall x, y :: matches(x, y) ==> matches(y, x) && hashOf(x) == hashOf(y))
    && (forall x, y, z :: matches(x, y) && matches(y, z) ==> matches(x, z))
  }

  lemma Reflexive<K(!new)>(matches: Match<K>, hashOf: K -> nat, k: K)
    requires IsMatch(matches, hashOf)
    ensures matches(k, k)
  {
  }

  lemma Symmetric<K(!new)>(matches: Match<K>, hashOf: K -> nat, x: K, y: K)
    requires IsMatch(matches, hashOf)
    ensures matches(x, y) <==> matches(y, x)
  {
  }

  predicate Hits<K, V>(s: Slots<K, V>, i: nat, matches: Match<K>, k: K) {
    i < |s| && s[i].Some? && matches(s[i].value.key, k)
  }

  /** No two entries have matching keys. */
  ghost predicate Apart<K, V>(s: Slots<K, V>, matches: Match<K>) {
    forall i, j :: 0 <= i < j < |s| && s[i].Some? && s[j].Some? ==> !matches(s[i].value.key, s[j].value.key)
  }

  ghost predicate ApartKeys<K, V>(m: map<K, V>, matches: Match<K>) {
    forall x, y :: x in m && y in m && matches(x, y) ==> x == y
  }

  ghost predicate HasMatch<K, V>(m: map<K, V>, matches: Match<K>, k: K) {
    exists x :: x in m && matches(x, k)
  }

  /** The key in the map that matches k. */
  ghost function KeyIn<K, V>(m: map<K, V>, matches: Match<K>, k: K): (x: K)
    requires HasMatch(m, matches, k)
    ensures x in m && matches(x, k)
  {
    var x :| x in m && matches(x, k);
    x
  }

  /** What a lookup finds in the map: the value under a matching key. */
  ghost function Find<K, V>(m: map<K, V>, matches: Match<K>, k: K): Option<V> {
    if HasMatch(m, matches, k) then Some(m[KeyIn(m, matches, k)]) else None
  }

  lemma ContentsApart<K(!new), V>(s: Slots<K, V>, matches: Match<K>, hashOf: K -> nat)
    requires IsMatch(matches, hashOf) && Apart(s, matches)
    ensures UniqueKeys(s) && ApartKeys(Contents(s), matches)
  {
    forall x, y | x in Contents(s) && y in Contents(s) && matches(x, y) ensures x == y {
      assert matches(y, x);
      assert SlotOf(s, x) == SlotOf(s, y);
    }
  }

  lemma FoundAt<K(!new), V>(m: map<K, V>, matches: Match<K>, hashOf: K -> nat, x: K, k: K)
    requires IsMatch(matches, hashOf) && ApartKeys(m, matches) && x in m && matches(x, k)
    ensures HasMatch(m, matches, k) && KeyIn(m, matches, k) == x && Find(m, matches, k) == Some(m[x])
  {
    assert HasMatch(m, matches, k);
    assert matches(k, KeyIn(m, matches, k));
  }

  lemma FindAfterRemove<K(!new), V>(m: map<K, V>, matches: Match<K>, hashOf: K -> nat, x: K, q: K)
    requires IsMatch(matches, hashOf) && ApartKeys(m, matches) && x in m
    ensures ApartKeys(m - {x}, matches)
    ensures Find(m - {x}, matches, q) == if matches(x, q) then None else Find(m, matches, q)
  {
    if HasMatch(m - {x}, matches, q) {
      var y := KeyIn(m - {x}, matches, q);
      FoundAt(m, matches, hashOf, y, q);
      FoundAt(m - {x}, matches, hashOf, y, q);
      assert matches(x, q) ==> matches(q, y) && matches(x, y);
    } else if HasMatch(m, matches, q) {
      assert KeyIn(m, matches, q) == x;
    }
  }

  /** Putting a value under a key that is there, or one that matches none. */
  lemma FindAfterPut<K(!new), V>(m: map<K, V>, matches: Match<K>, hashOf: K -> nat, x: K, v: V, q: K)
    requires IsMatch(matches, hashOf) && ApartKeys(m, matches) && (x in m || !HasMatch(m, matches, x))
    ensures ApartKeys(m[x := v], matches)
    ensures Find(m[x := v], matches, q) == if matches(x, q) then Some(v) else Find(m, matches, q)
  {
    var n := m[x := v];
    forall y, z | y in n && z in n && matches(y, z) ensures y == z {
      assert matches(z, y);
    }
    if HasMatch(m, matches, q) {
      assert KeyIn(m, matches, q) in n;
    }
    if HasMatch(n, matches, q) {
      var y :| y in n && matches(y, q);
      FoundAt(n, matches, hashOf, y, q);
      if y in m {
        FoundAt(m, matches, hashOf, y, q);
      }
      assert matches(x, q) ==> matches(q, y) && matches(x, y);
    }
  }

  lemma PlainFind<K(!new), V>(m: map<K, V>, matches: Match<K>, k: K)
    requires forall x, y :: matches(x, y) <==> x == y
    ensures HasMatch(m, matches, k) <==> k in m
    ensures Find(m, matches, k) == if k in m then Some(m[k]) else None
  {
    if k in m {
      assert matches(k, k);
    }
  }

  lemma NoHit<K(!new), V>(s: Slots<K, V>, matches: Match<K>, k: K)
    requires forall i :: 0 <= i < |s| ==> !Hits(s, i, matches, k)
    ensures !HasMatch(Contents(s), matches, k)
  {
    if HasMatch(Contents(s), matches, k) {
      assert Hits(s, SlotOf(s, KeyIn(Contents(s), matches, k)), matches, k);
    }
  }

  /** A slot that hits holds the entry that a lookup finds. */
  lemma HitIsFound<K(!new), V>(s: Slots<K, V>, matches: Match<K>, hashOf: K -> nat, i: nat, k: K)
    requires IsMatch(matches, hashOf) && Apart(s, matches) && Hits(s, i, matches, k)
    ensures var m, e := Contents(s), s[i].value;
      && e.key in m && m[e.key] == e.value
      && HasMatch(m, matches, k) && KeyIn(m, matches, k) == e.key && Find(m, matches, k) == Some(e.value)
  {
    ContentsApart(s, matches, hashOf);
    ContentsAt(s, i);
    FoundAt(Contents(s), matches, hashOf, s[i].value.key, k);
  }

  lemma NothingMatches<K(!new), V>(s: Slots<K, V>, matches: Match<K>, hashOf: K -> nat, k: K)
    requires IsMatch(matches, hashOf) && Apart(s, matches) && !HasMatch(Contents(s), matches, k)
    ensures k !in Contents(s)
    ensures forall i :: 0 <= i < |s| && s[i].Some? ==> !matches(s[i].value.key, k) && !matches(k, s[i].value.key)
  {
    ContentsApart(s, matches, hashOf);
    forall i | 0 <= i < |s| && s[i].Some? ensures !matches(s[i].value.key, k) {
      ContentsAt(s, i);
    }
    assert matches(k, k);
  }

  /** Adding an entry whose key matches none. */
  lemma AddedApart<K(!new), V>(s: Slots<K, V>, matches: Match<K>, hashOf: K -> nat, i: nat, e: Entry<K, V>)
    requires IsMatch(matches, hashOf) && Apart(s, matches)
    requires i < |s| && s[i].None? && !HasMatch(Contents(s), matches, e.key)
    ensures Apart(s[i := Some(e)], matches) && Contents(s[i := Some(e)]) == Contents(s)[e.key := e.value]
  {
    NothingMatches(s, matches, hashOf, e.key);
    ContentsApart(s, matches, hashOf);
    AddedContents(s, i, e);
  }

  lemma RemovedApart<K(!new), V>(s: Slots<K, V>, matches: Match<K>, hashOf: K -> nat, i: nat)
    requires IsMatch(matches, hashOf) && Apart(s, matches) && i < |s| && s[i].Some?
    ensures Apart(s[i := None], matches) && Contents(s[i := None]) == Contents(s) - {s[i].value.key}
  {
    ContentsApart(s, matches, hashOf);
    RemovedContents(s, i);
  }

  class HashTable<K(==, !new), V(!new)> {
    var slots: Slots<K, V>
    const hashOf: K -> nat
    const matches: Match<K>

    ghost predicate Valid()
      reads this
    {
      IsMatch(matches, hashOf) && Apart(slots, matches) && Findable(slots, hashOf)
    }

    ghost function Map(): map<K, V>
      reads this
    {
      Contents(slots)
    }

    constructor (hashOf: K -> nat, matches: Match<K>)
      requires IsMatch(matches, hashOf)
      ensures Valid() && Map() == map[] && this.hashOf == hashOf && this.matches == matches
    {
      this.hashOf, this.matches := hashOf, matches;
      slots := [];
    }

    lemma MapApart()
      requires Valid()
      ensures UniqueKeys(slots) && ApartKeys(Map(), matches)
    {
      ContentsApart(slots, matches, hashOf);
    }

    /** Looks only at entries stored under the hash of the key asked for. */
    method Lookup(k: K) returns (p: Option<nat>)
      requires Valid()
      ensures p.Some? <==> HasMatch(Map(), matches, k)
      ensures p.Some? ==> Hits(slots, p.value, matches, k)
      ensures p.Some? ==>
        var e := slots[p.value].value;
        && e.key == KeyIn(Map(), matches, k) && Map()[e.key] == e.value && Find(Map(), matches, k) == Some(e.value)
    {
      var h := hashOf(k);
      for i := 0 to |slots|
        invariant forall j :: 0 <= j < i ==> !Hits(slots, j, matches, k)
      {
        if slots[i].Some? && slots[i].value.hash == h && matches(slots[i].value.key, k) {
          HitIsFound(slots, matches, hashOf, i, k);
          return Some(i);
        }
      }
      NoHit(slots, matches, k);
      p := None;
    }

    method RemoveAt(i: nat)
      requires Valid() && i < |slots| && slots[i].Some?
      modifies this
      ensures Valid() && slots == old(slots)[i := None]
      ensures Map() == old(Map()) - {old(slots)[i].value.key}
    {
      MapApart();
      RemovedContents(slots, i);
      slots := slots[i := None];
    }

    /** Adds an entry whose key matches none, in any free slot. */
    method PutNew(k: K, v: V)
      requires Valid() && !HasMatch(Map(), matches, k)
      modifies this
      ensures Valid() && Map() == old(Map())[k := v]
    {
      MapApart();
      GrownContents(slots);
      slots := slots + [None];
      assert slots[|slots| - 1].None?;
      var i :| 0 <= i < |slots| && slots[i].None?;
      AddedApart(slots, matches, hashOf, i, Entry(hashOf(k), k, v));
      slots := slots[i := Some(Entry(hashOf(k), k, v))];
    }

    /** Overwrites the value of an entry whose key matches, and leaves its key; adds the entry
        otherwise. Returns the key that the value is then under. */
    method Put(k: K, v: V) returns (ghost left: K)
      requires Valid()
      modifies this
      ensures Valid() && Map() == old(Map())[left := v] && matches(left, k)
      ensures left == if HasMatch(old(Map()), matches, k) then KeyIn(old(Map()), matches, k) else k
    {
      var p := Lookup(k);
      match p
      case Some(i) =>
        left := slots[i].value.key;
        MapApart();
        UpdatedContents(slots, i, v);
        slots := slots[i := Some(slots[i].value.(value := v))];
      case None =>
        left := k;
        PutNew(k, v);
    }
  }
}
