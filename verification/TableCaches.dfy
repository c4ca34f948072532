/** The lookup for adding of a weak map, on the table in memory: removing a dead entry may shrink the
    store and move every other entry, which is why the lookup is then done again. */
module TableCaches {
  import opened Options
  import opened Probing
  import opened HashTables
  import opened GCPolicy
  import opened WeakSweeping
  import WeakCaches
  import opened HashCells
  import opened DoubleHashing

  /** The part of a map that clients see. */
  function Seeable<K, V>(barrier: Option<EntryPolicy<K, V>>, m: map<K, V>): map<K, V> {
    if barrier.Some? then LiveOf(barrier.value, m) else m
  }

  predicate IsDead<K, V>(barrier: Option<EntryPolicy<K, V>>, k: K, v: V) {
    barrier.Some? && barrier.value.needsSweep(k, v)
  }

  /** A live entry is found as in the table without the dead ones; if none is found, the slot returned
      is one that an entry for the key can be added at, in the store as it is now. */
  method LookupForAdd<K(==, !new), V(!new)>(table: DoubleHashTable<K, V>, barrier: Option<EntryPolicy<K, V>>, key: K,
                                            storageAvailable: bool) returns (i: nat, found: bool)
    requires table.Valid()
    modifies table, table.cells
    ensures table.Valid() && (table.cells == old(table.cells) || fresh(table.cells))
    ensures Seeable(barrier, table.Map()) == old(Seeable(barrier, table.Map())) && table.log <= old(table.log)
    ensures found ==>
      && FoundIn(table.View(), i, table.policy.matches, key)
      && !IsDead(barrier, table.View()[i].value.key, table.View()[i].value.value)
    ensures !found ==> !HasMatch(table.Map(), table.policy.matches, key)
    ensures !found && table.stored ==>
      && i < table.cells.Length == Capacity(table.log) && !table.cells[i].IsLive()
      && Reached(table.cells[..], table.log, table.policy.hash(key), i)
      && FirstNonLive(table.cells[..], table.log, table.policy.hash(key), i)
  {
    hide Good, PolicyOk, Apart, Contents, LiveOf, Reached, FirstNonLive, LiveSet, RemovedSet, HasMatch, KeyIn;
    i, found := table.LookupForAdd(key);
    GoodFacts(table.cells[..], table.log, table.policy);
    if !found || barrier.None? {
      return;
    }
    var entry := table.cells[i].item.value;
    if !barrier.value.needsSweep(entry.0, entry.1) {
      return;
    }
    ghost var m := table.Map();
    WeakCaches.LiveWithoutDead(barrier.value, m, entry.0);
    NoneAfterRemoval(table.View(), table.policy, i, key);
    table.RemoveFound(i, storageAvailable);
    i, found := table.LookupForAdd(key);
    GoodFacts(table.cells[..], table.log, table.policy);
  }

  /** Once the entry that a lookup finds is removed, no key matches. */
  lemma NoneAfterRemoval<K(!new), V>(v: Slots<K, V>, policy: HashPolicy<K>, i: nat, key: K)
    requires PolicyOk(policy) && Apart(v, policy.matches) && FoundIn(v, i, policy.matches, key)
    ensures var m, k := Contents(v), v[i].value.key;
      k in m && m[k] == v[i].value.value && !HasMatch(m - {k}, policy.matches, key)
  {
    var k := v[i].value.key;
    ContentsApart(v, policy.matches, policy.Hashing());
    FindAfterRemove(Contents(v), policy.matches, policy.Hashing(), k, key);
  }

  /** Looking up and then adding: the slot returned is good for adding at, even after a dead entry was
      removed and the store replaced. */
  method LookupOrAdd<K(==, !new), V(!new)>(table: DoubleHashTable<K, V>, barrier: Option<EntryPolicy<K, V>>, key: K,
                                           value: V, storageAvailable: bool) returns (found: Option<V>, ok: bool)
    requires table.Valid()
    modifies table, table.cells
    ensures table.Valid()
    ensures found == Find(old(Seeable(barrier, table.Map())), table.policy.matches, key)
    ensures found.Some? || !ok ==> Seeable(barrier, table.Map()) == old(Seeable(barrier, table.Map()))
    ensures found.Some? || (storageAvailable && old(table.log) < 30) ==> ok
    ensures found.None? && ok ==> key in table.Map() && table.Map()[key] == value
    ensures found.None? && ok && !IsDead(barrier, key, value) ==>
      Seeable(barrier, table.Map()) == old(Seeable(barrier, table.Map()))[key := value]
  {
    hide Good, PolicyOk, Apart, Contents, LiveOf, Reached, FirstNonLive, LiveSet, RemovedSet, HasMatch, Find, KeyIn;
    var i, hit := LookupForAdd(table, barrier, key, storageAvailable);
    GoodFacts(table.cells[..], table.log, table.policy);
    FindSeeable(barrier, table.Map(), table.policy, table.View(), i, hit, key);
    if hit {
      found, ok := Some(table.cells[i].item.value.1), true;
    } else {
      ghost var m := table.Map();
      ok := table.AddAt(i, key, value, storageAvailable);
      found := None;
      if barrier.Some? && ok {
        WeakCaches.LiveOfPut(barrier.value, m, key, value);
      }
    }
  }

  lemma FindSeeable<K(!new), V>(barrier: Option<EntryPolicy<K, V>>, m: map<K, V>, policy: HashPolicy<K>,
                                v: Slots<K, V>, i: nat, hit: bool, key: K)
    requires PolicyOk(policy) && Apart(v, policy.matches) && m == Contents(v)
    requires hit ==> FoundIn(v, i, policy.matches, key) && !IsDead(barrier, v[i].value.key, v[i].value.value)
    requires !hit ==> !HasMatch(m, policy.matches, key)
    ensures Find(Seeable(barrier, m), policy.matches, key) == if hit then Some(v[i].value.value) else None
  {
    ContentsApart(v, policy.matches, policy.Hashing());
    if hit {
      ContentsAt(v, i);
    }
    if barrier.Some? {
      WeakCaches.FindLive(barrier.value, m, policy.matches, policy.Hashing(), key);
    }
  }
}
