/** The rekeying sweep on the table in memory: rekeying may use up its free slots, and what follows
    the enumeration gives them back. */
module TableSweeping {
  import opened Options
  import opened Probing
  import opened HashTables
  import opened GCPolicy
  import opened WeakSweeping
  import opened HashCells
  import opened DoubleHashing

  /** How far the sweep has come, in the slots of the table. */
  ghost predicate SweptTo<K(!new), V(!new)>(table: DoubleHashTable<K, V>, policy: EntryPolicy<K, V>, s: Slots<K, V>,
                                            i: nat, place: map<int, int>)
    reads table, table.cells
  {
    Progress(policy, s, table.policy.Hashing(), table.policy.matches, table.View(), i, place)
  }

  ghost predicate SweepableFrom<K(!new), V(!new)>(table: DoubleHashTable<K, V>, policy: EntryPolicy<K, V>,
                                                  s: Slots<K, V>) {
    Sweepable(policy, s, table.policy.Hashing(), table.policy.matches)
  }

  /** GCRekeyableHashMap::traceWeak with the enumeration of the table in memory: removes dying entries,
      relocates the others and rekeys those whose new key does not match the stored one; then, when
      the enumeration is over, rebuilds and shrinks the table as needed. It ends in order and holds
      exactly what the live entries end as. */
  method TraceWeakRekeying<K(==, !new), V(!new)>(table: DoubleHashTable<K, V>, policy: EntryPolicy<K, V>,
                                                 storageAvailable: bool) returns (any: bool)
    requires table.Valid() && Relocates(policy, table.View(), table.policy.matches)
    modifies table, table.cells
    ensures table.Valid()
    ensures IsLeftMap(policy, old(table.View()), table.policy.Hashing(), table.policy.matches, table.Map())
    ensures IsImageMap(policy, old(table.View()), table.Map())
       <==> KeptKeysAreNew(policy, old(table.View()), table.policy.matches)
    ensures any <==> exists a :: Alive(policy, old(table.View()), a)
    ensures any <==> table.entryCount > 0
    ensures storageAvailable && any && (exists a :: Dies(policy, old(table.View()), a)) ==>
      forall k: Log :: 4 * table.entryCount <= 3 * Capacity(k) ==> table.log <= k
    ensures !any && (exists a :: Dies(policy, old(table.View()), a)) ==> !table.stored && table.log == 2
    ensures !(exists a :: Dies(policy, old(table.View()), a)) ==>
      table.entryCount == old(table.entryCount) && table.log >= old(table.log)
    ensures table.log > old(table.log) ==> 2 * table.entryCount > Capacity(old(table.log))
  {
    hide DoubleHashTable.Counted, DoubleHashTable.View, SweptTo, SweepableFrom, Relocates, IsLeftMap, IsImageMap,
      KeptKeysAreNew, Alive, Dies, Contents, Capacity, PolicyOk, Apart;
    ghost var s, place: map<int, int> := table.View(), map[];
    ghost var cells := table.cells;
    SweepStart(table, policy);
    var rekeyed, removed := false, false;
    var i := 0;
    while i < table.cells.Length
      invariant table.cells == cells && i <= cells.Length == |s| && table.Counted()
      invariant SweptTo(table, policy, s, i, place)
      invariant rekeyed ==> table.stored
      invariant removed <==> exists a :: 0 <= a < i && Dies(policy, s, a)
      invariant table.log == old(table.log) && (!removed ==> table.entryCount == old(table.entryCount))
      invariant !rekeyed ==> 4 * (table.entryCount + table.removedCount) <= 3 * Capacity(table.log)
    {
      if table.cells[i].IsLive() {
        var moved, died;
        moved, died, place := SweepFront(table, policy, s, i, place);
        rekeyed := rekeyed || moved;
        removed := removed || died;
      } else {
        SweepSkip(table, policy, s, i, place);
      }
      i := i + 1;
    }
    SweepEnd(table, policy, s, i, place);
    any := table.entryCount != 0;
    if rekeyed {
      table.InfallibleRehashIfOverloaded(storageAvailable);
    }
    if removed {
      table.Compact(storageAvailable);
    }
  }

  lemma SweepStart<K(!new), V(!new)>(table: DoubleHashTable<K, V>, policy: EntryPolicy<K, V>)
    requires table.Valid() && Relocates(policy, table.View(), table.policy.matches)
    ensures SweepableFrom(table, policy, table.View()) && SweptTo(table, policy, table.View(), 0, map[])
  {
    hide Relocates, Apart, IsMatch, AllReached;
    ProgressStart(policy, table.View(), table.policy.Hashing(), table.policy.matches);
  }

  lemma SweepSkip<K(!new), V(!new)>(table: DoubleHashTable<K, V>, policy: EntryPolicy<K, V>, s: Slots<K, V>, i: nat,
                                    place: map<int, int>)
    requires table.Counted() && i < table.cells.Length && !table.cells[i].IsLive()
    requires SweptTo(table, policy, s, i, place)
    ensures SweptTo(table, policy, s, i + 1, place) && !Dies(policy, s, i)
  {
    hide AllReached;
    assert table.View()[i].None?;
    ProgressSkip(policy, s, table.policy.Hashing(), table.policy.matches, table.View(), i, place);
  }

  /** At the end of the enumeration keys are apart again, and the contents are what they should be. */
  lemma SweptContentsAre<K(!new), V>(policy: EntryPolicy<K, V>, s: Slots<K, V>, hashOf: K -> nat, matches: Match<K>,
                                     t: Slots<K, V>, place: map<int, int>)
    requires Sweepable(policy, s, hashOf, matches) && Progress(policy, s, hashOf, matches, t, |s|, place)
    ensures Apart(t, matches) && IsLeftMap(policy, s, hashOf, matches, Contents(t))
    ensures IsImageMap(policy, s, Contents(t)) <==> KeptKeysAreNew(policy, s, matches)
    ensures Contents(t) != map[] <==> exists a :: Alive(policy, s, a)
  {
    hide Apart, Findable, Relocates, IsMatch, IsLeft, IsLeftMap, IsImageMap, KeptKeysAreNew, Progress, Alive, Contents,
      ApartKeys, UniqueKeys, Left;
    ProgressDone(policy, s, hashOf, matches, t, place);
    LeftIsLeftMap(policy, s, hashOf, matches, t);
    ContentsApart(t, matches, hashOf);
    LeftMapIsImageIff(policy, s, hashOf, matches, Contents(t));
    AnyLeftIn(policy, s, hashOf, matches, Contents(t));
  }

  lemma AnyLeftIn<K, V>(policy: EntryPolicy<K, V>, s: Slots<K, V>, hashOf: K -> nat, matches: Match<K>, m: map<K, V>)
    requires IsLeftMap(policy, s, hashOf, matches, m)
    ensures m != map[] <==> exists a :: Alive(policy, s, a)
  {
    hide Left;
    if m != map[] {
      assert m.Keys != {};
      var k :| k in m;
    }
  }

  lemma SweepEnd<K(!new), V(!new)>(table: DoubleHashTable<K, V>, policy: EntryPolicy<K, V>, s: Slots<K, V>, i: nat,
                                   place: map<int, int>)
    requires table.Counted() && SweepableFrom(table, policy, s) && i == |s| && SweptTo(table, policy, s, i, place)
    ensures table.InOrder()
    ensures IsLeftMap(policy, s, table.policy.Hashing(), table.policy.matches, table.Map())
    ensures IsImageMap(policy, s, table.Map()) <==> KeptKeysAreNew(policy, s, table.policy.matches)
    ensures table.entryCount != 0 <==> exists a :: Alive(policy, s, a)
    ensures forall a :: Dies(policy, s, a) ==> 0 <= a < i
  {
    hide IsLeftMap, IsImageMap, KeptKeysAreNew, Progress, Relocates, Apart, Findable, IsMatch, AllReached, Contents,
      Alive;
    SweptContentsAre(policy, s, table.policy.Hashing(), table.policy.matches, table.View(), place);
    AnyEntry(table);
  }

  lemma TableKeysApart<K(!new), V(!new)>(table: DoubleHashTable<K, V>)
    requires PolicyOk(table.policy) && Apart(table.View(), table.policy.matches)
    ensures UniqueKeys(table.View())
  {
    hide IsMatch, Apart;
    ContentsApart(table.View(), table.policy.matches, table.policy.Hashing());
  }

  lemma AnyEntry<K(!new), V(!new)>(table: DoubleHashTable<K, V>)
    requires table.Counted() && PolicyOk(table.policy) && Apart(table.View(), table.policy.matches)
    ensures table.entryCount != 0 <==> table.Map() != map[]
  {
    var s := table.cells[..];
    hide PolicyOk, Apart, AllReached, Contents;
    if table.entryCount == 0 {
      NothingLive(s, table.log, table.policy);
    } else {
      var i :| i in LiveSet(s);
      assert table.View()[i].Some?;
      TableKeysApart(table);
      ContentsAt(table.View(), i);
    }
  }

  lemma LiveSlot<K(!new), V(!new)>(table: DoubleHashTable<K, V>, policy: EntryPolicy<K, V>, s: Slots<K, V>, i: nat,
                                   place: map<int, int>)
    requires table.Counted() && SweepableFrom(table, policy, s)
    requires i < table.cells.Length && table.cells[i].IsLive() && SweptTo(table, policy, s, i, place)
    ensures table.stored
    ensures table.cells[i].item.Some? && table.View()[i].Some?
    ensures table.View()[i].value.key == table.cells[i].item.value.0
    ensures table.View()[i].value.value == table.cells[i].item.value.1
    ensures AtFront(policy, s, table.policy.Hashing(), table.policy.matches, table.View(), i, place)
  {
    hide AllReached, Sweepable;
    assert i as int in LiveSet(table.cells[..]);
  }

  /** One turn of the sweep. */
  method SweepFront<K(==, !new), V(!new)>(table: DoubleHashTable<K, V>, policy: EntryPolicy<K, V>, ghost s: Slots<K, V>,
                                          i: nat, ghost place: map<int, int>)
    returns (moved: bool, died: bool, ghost place': map<int, int>)
    requires table.Counted() && SweepableFrom(table, policy, s)
    requires i < table.cells.Length && table.cells[i].IsLive() && SweptTo(table, policy, s, i, place)
    modifies table.cells, table`entryCount, table`removedCount
    ensures table.Counted() && SweptTo(table, policy, s, i + 1, place')
    ensures table.stored && (died <==> Dies(policy, s, i))
    ensures table.entryCount == old(table.entryCount) - if died then 1 else 0
    ensures !moved ==> table.entryCount + table.removedCount <= old(table.entryCount + table.removedCount)
  {
    hide DoubleHashTable.Counted, DoubleHashTable.View, SweepableFrom, Progress, AtFront, Dies;
    ghost var t := table.View();
    LiveSlot(table, policy, s, i, place);
    var item := table.cells[i].item.value;
    var r := policy.traceWeak(item.0, item.1);
    table.SetValueAt(i, r.value);
    ghost var h, m := table.policy.Hashing(), table.policy.matches;
    moved, died := false, !r.alive;
    place' := place;
    if !r.alive {
      table.RemoveAt(i);
      assert table.View() == t[i := None];
      TurnRemoves(policy, s, h, m, t, i, place);
    } else if !table.policy.matches(r.key, item.0) {
      moved := true;
      ghost var at := table.RekeyWithoutRehash(i, r.key);
      assert table.View() == t[i := None][at := Some(Entry(h(r.key), r.key, r.value))];
      TurnRekeys(policy, s, h, m, t, i, place, r, at);
      place' := place[i as int := at as int];
    } else {
      place' := TurnKeeps(policy, s, h, m, t, i, place, r);
    }
  }
}
