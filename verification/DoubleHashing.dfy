/** The table in memory, with a store that is allocated when the first entry is added. It answers
    for what the abstract table of the weak containers takes as given. */
module DoubleHashing {
  import opened Options
  import Words
  import opened Probing
  import opened HashTables
  import opened HashCells

  datatype RebuildStatus = NotOverloaded | Rehashed | RehashFailed

  class DoubleHashTable<K(==, !new), V(!new)> {
    var log: Log
    /** Whether the store is allocated. As long as it is not, the cells stand for an empty one. */
    var stored: bool
    var cells: array<Cell<K, V>>
    var entryCount: nat
    var removedCount: nat
    const policy: HashPolicy<K>

    /** Probing finds every live entry. */
    ghost predicate Sound()
      reads this, cells
    {
      Good(cells[..], log, policy)
    }

    /** And the counts are right, and entries take up at most three quarters. This holds even in the
        middle of a sweep, when two entries may for a while have matching keys. */
    ghost predicate Counted()
      reads this, cells
    {
      && Sound() && 4 * entryCount <= 3 * Capacity(log)
      && entryCount == |LiveSet(cells[..])| && removedCount == |RemovedSet(cells[..])|
      && (!stored ==> entryCount == 0 && removedCount == 0)
    }

    /** In order, but perhaps without a free slot: what holds while entries are rekeyed. */
    ghost predicate InOrder()
      reads this, cells
    {
      Counted() && PolicyOk(policy) && Apart(View(), policy.matches)
    }

    /** In order, with at most three quarters of the slots live or removed: a free one is left to stop a
        probe. */
    ghost predicate Valid()
      reads this, cells
    {
      InOrder() && 4 * (entryCount + removedCount) <= 3 * Capacity(log)
    }

    ghost function View(): (v: Slots<K, V>)
      ensures |v| == cells.Length
      reads this, cells
    {
      AsSlots(cells[..])
    }

    ghost function Map(): map<K, V>
      reads this, cells
    {
      Contents(View())
    }

    /** A new table, without a store. */
    constructor (k: Log, policy: HashPolicy<K>)
      requires PolicyOk(policy)
      ensures Valid() && fresh(cells) && log == k && this.policy == policy && !stored && Map() == map[]
    {
      this.policy := policy;
      log := k;
      stored := false;
      entryCount, removedCount := 0, 0;
      cells := new Cell<K, V>[Capacity(k)](_ => Cell(0, None));
      new;
      AllFree(cells[..], k, policy);
      CapacityFacts(k);
    }

    // ----- looking up -----

    /** Finds the entry of a key, and nothing else: read only. */
    method Lookup(key: K) returns (p: Option<nat>)
      requires Valid()
      ensures p.Some? <==> HasMatch(Map(), policy.matches, key)
      ensures p.Some? ==> FoundIn(View(), p.value, policy.matches, key)
    {
      hide Good, PolicyOk, Apart, FoundIn, Contents;
      ghost var s, k := cells[..], log;
      GoodFacts(s, k, policy);
      if entryCount == 0 {
        NoneLive(s, k, policy, key);
        return None;
      }
      var h := policy.hash(key);
      var h1 := Hash1(h, log);
      FirstProbe(h, log);
      if cells[h1].IsFree() {
        MissIsMiss(s, k, policy, key, 0);
        return None;
      }
      if Answers(policy, cells[h1], h, key) {
        HitIsHit(s, k, policy, key, h1);
        return Some(h1);
      }
      var h2 := Hash2(h, log);
      ghost var n: nat := 0;
      FreeByCount(s);
      ghost var end := FreeIsMet(s, k, h);
      assert end > 0;
      while true
        invariant h1 == Probe(h, k, n) && n < end
        invariant forall m: nat :: m <= n ==> !Answers(policy, s[Probe(h, k, m)], h, key)
        decreases end - n
      {
        NextProbeIsStep(h, k, n);
        h1 := Step(h1, h2, log);
        n := n + 1;
        if cells[h1].IsFree() {
          MissIsMiss(s, k, policy, key, n);
          return None;
        }
        if Answers(policy, cells[h1], h, key) {
          HitIsHit(s, k, policy, key, h1);
          return Some(h1);
        }
      }
    }

    /** The mutable lookup: marks the slots it passes as collided, and on a miss returns where the
        key can be put: the first removed slot it passed, or else the free slot it stopped at. When
        there is no store yet, there is no such slot. */
    method LookupForAdd(key: K) returns (i: nat, found: bool)
      requires Valid()
      modifies cells
      ensures Valid() && View() == old(View())
      ensures found <==> HasMatch(Map(), policy.matches, key)
      ensures found ==> stored && FoundIn(View(), i, policy.matches, key)
      ensures !found && stored ==>
        i < cells.Length && !cells[i].IsLive() && Reached(cells[..], log, policy.hash(key), i)
      ensures !found && stored ==> FirstNonLive(cells[..], log, policy.hash(key), i)
      ensures |old(cells[..])| == Capacity(log) && MarkedAmong(old(cells[..]), cells[..], log, policy.hash(key))
      ensures !found && stored ==> Marked(old(cells[..]), cells[..], log, policy.hash(key))
    {
      hide Good, PolicyOk, Apart, FoundIn, LiveSet, Contents, Marked, MarkedAmong;
      GoodFacts(cells[..], log, policy);
      NothingMarked(cells[..], log, policy.hash(key));
      if !stored {
        NoneLive(cells[..], log, policy, key);
        return 0, false;
      }
      i, found := ProbeForAdd(key);
    }

    method ProbeForAdd(key: K) returns (i: nat, found: bool)
      requires Valid()
      modifies cells
      ensures Valid() && View() == old(View())
      ensures found <==> HasMatch(Map(), policy.matches, key)
      ensures found ==> FoundIn(View(), i, policy.matches, key)
      ensures !found ==> i < cells.Length && !cells[i].IsLive() && Reached(cells[..], log, policy.hash(key), i)
      ensures !found ==> FirstNonLive(cells[..], log, policy.hash(key), i)
      ensures |old(cells[..])| == Capacity(log) && MarkedAmong(old(cells[..]), cells[..], log, policy.hash(key))
      ensures !found ==> Marked(old(cells[..]), cells[..], log, policy.hash(key))
    {
      hide Good, PolicyOk, Apart, FoundIn, Reached, FirstNonLive, PathCollides, LiveSet, RemovedSet, GoodFor, AsSlots,
        Contents, Probe, Step, Hash1, Hash2, MarkedFor, Marked, MarkedAmong;
      ghost var k, s := log, cells[..];
      GoodFacts(cells[..], k, policy);
      var h := policy.hash(key);
      i := Hash1(h, log);
      FirstProbe(h, log);
      ReachedAtOnce(cells[..], k, h);
      NothingMarkedFor(s, k, h);
      if cells[i].IsFree() {
        MissIsMiss(cells[..], k, policy, key, 0);
        GoodForAdding(cells[..], k, h, 0, None);
        MarkedAtEnd(s, cells[..], k, h, 0, None);
        return i, false;
      }
      if Answers(policy, cells[i], h, key) {
        HitIsHit(cells[..], k, policy, key, i);
        return i, true;
      }
      var h2 := Hash2(h, log);
      var firstRemoved: Option<nat> := None;
      ghost var n: nat := 0;
      FreeByCount(cells[..]);
      ghost var end := FreeIsMet(cells[..], k, h);
      while true
        invariant Valid() && View() == old(View()) && i == Probe(h, k, n) && n < end
        invariant cells.Length == Capacity(k) && cells[Probe(h, k, end)].IsFree() && !cells[i].IsFree()
        invariant forall m: nat :: m <= n ==> !Answers(policy, cells[Probe(h, k, m)], h, key)
        invariant GoodFor(cells[..], k, h, n, firstRemoved) && MarkedFor(s, cells[..], k, h, n, firstRemoved)
        decreases end - n
      {
        firstRemoved := Pass(i, h, firstRemoved, n, s);
        NextProbeIsStep(h, k, n);
        i := Step(i, h2, log);
        n := n + 1;
        MarkedAtEnd(s, cells[..], k, h, n, firstRemoved);
        if cells[i].IsFree() {
          MissIsMiss(cells[..], k, policy, key, n);
          GoodForAdding(cells[..], k, h, n, firstRemoved);
          return (if firstRemoved.Some? then firstRemoved.value else i), false;
        }
        if Answers(policy, cells[i], h, key) {
          HitIsHit(cells[..], k, policy, key, i);
          return i, true;
        }
      }
    }

    /** Leaves a mark in the slot a mutable lookup passes: notes the first removed one, and before
        that sets collision bits. */
    method Pass(i: nat, h: Hash, firstRemoved: Option<nat>, ghost n: nat, ghost s: Cells<K, V>)
      returns (removed: Option<nat>)
      requires Valid() && cells.Length == Capacity(log) && i == Probe(h, log, n) && !cells[i].IsFree()
      requires GoodFor(cells[..], log, h, n, firstRemoved)
      requires |s| == Capacity(log) && MarkedFor(s, cells[..], log, h, n, firstRemoved)
      modifies cells
      ensures Valid() && View() == old(View()) && GoodFor(cells[..], log, h, n + 1, removed)
      ensures MarkedFor(s, cells[..], log, h, n + 1, removed)
      ensures forall j :: 0 <= j < cells.Length ==>
        && cells[j].Bare() == old(cells[j]).Bare() && cells[j].item == old(cells[j]).item
        && (cells[j].IsFree() <==> old(cells[j]).IsFree())
    {
      hide Good, PolicyOk, Apart, Reached, FirstNonLive, PathCollides, PathLive, LiveSet, RemovedSet, AsSlots, Contents,
        Probe, MarkedTo, Marked, MarkedAmong;
      removed := firstRemoved;
      if firstRemoved.None? {
        ReachedByPath(cells[..], log, h, n);
        if cells[i].IsRemoved() {
          removed := Some(i);
          MarkedAll(s, cells[..], log, h, n);
        } else {
          PathExtends(cells[..], log, h, n);
          MarkedOneMore(s, cells[..], log, h, n);
          SetCollisionAt(i);
        }
      }
    }

    /** The slot to put a new entry in: the first on its way that is not live, as a mutable lookup
        that misses would return it. */
    method FindNonLiveSlot(h: Hash) returns (i: nat)
      requires Sound() && |LiveSet(cells[..])| < Capacity(log)
      modifies cells
      ensures Sound() && View() == old(View())
      ensures LiveSet(cells[..]) == old(LiveSet(cells[..])) && RemovedSet(cells[..]) == old(RemovedSet(cells[..]))
      ensures i < cells.Length && !cells[i].IsLive() && Reached(cells[..], log, h, i)
      ensures FirstNonLive(cells[..], log, h, i)
      ensures |old(cells[..])| == Capacity(log) && Marked(old(cells[..]), cells[..], log, h)
    {
      hide Good, Reached, FirstNonLive, PathCollides, PathLive, LiveSet, RemovedSet, AsSlots, Contents, Probe, Step,
        Hash1, Hash2, MarkedTo, Marked, MarkedAmong;
      ghost var s := cells[..];
      GoodFacts(cells[..], log, policy);
      NothingMarked(s, log, h);
      i := Hash1(h, log);
      FirstProbe(h, log);
      var h2 := Hash2(h, log);
      ghost var n: nat := 0;
      ghost var end := NonLiveIsMet(cells[..], log, h);
      NoPath(cells[..], log, h);
      while cells[i].IsLive()
        invariant Sound() && View() == old(View())
        invariant LiveSet(cells[..]) == old(LiveSet(cells[..])) && RemovedSet(cells[..]) == old(RemovedSet(cells[..]))
        invariant i == Probe(h, log, n) && n <= end
        invariant cells.Length == Capacity(log) && !cells[Probe(h, log, end)].IsLive()
        invariant PathCollides(cells[..], log, h, n) && PathLive(cells[..], log, h, n)
        invariant MarkedTo(s, cells[..], log, h, n)
        decreases end - n
      {
        PathExtends(cells[..], log, h, n);
        MarkedOneMore(s, cells[..], log, h, n);
        SetCollisionAt(i);
        NextProbeIsStep(h, log, n);
        i := Step(i, h2, log);
        n := n + 1;
      }
      MarkedAll(s, cells[..], log, h, n);
      ReachedByPath(cells[..], log, h, n);
    }

    // ----- changes to single slots -----

    /** Marks a live slot as passed by a probe. */
    method SetCollisionAt(i: nat)
      requires Sound() && i < cells.Length && cells[i].IsLive()
      modifies cells
      ensures Sound() && cells[..] == old(cells[..])[i := old(cells[i]).SetCollision()]
      ensures LiveSet(cells[..]) == old(LiveSet(cells[..])) && RemovedSet(cells[..]) == old(RemovedSet(cells[..]))
      ensures View() == old(View())
    {
      hide Good, LiveSet, RemovedSet, AsSlots;
      SetCollisionGood(cells[..], log, policy, i);
      CountsAfterCollision(cells[..], i);
      cells[i] := cells[i].SetCollision();
      assert cells[..] == old(cells[..])[i := old(cells[i]).SetCollision()];
    }

    /** Writes another value into a live entry. */
    method SetValueAt(i: nat, value: V)
      requires Counted() && i < cells.Length && cells[i].IsLive()
      modifies cells
      ensures Counted() && old(View())[i].Some?
      ensures View() == old(View())[i := Some(old(View())[i].value.(value := value))]
      ensures cells[i].IsLive()
    {
      hide Good, LiveSet, RemovedSet;
      GoodFacts(cells[..], log, policy);
      SetValueGood(cells[..], log, policy, i, value);
      cells[i] := cells[i].(item := Some((cells[i].item.value.0, value)));
      assert cells[..] == old(cells[..])[i := cells[i]];
    }

    /** Removing leaves a sentinel only where a probe has passed. */
    method RemoveAt(i: nat)
      requires Counted() && i < cells.Length && cells[i].IsLive()
      modifies cells, this`entryCount, this`removedCount
      ensures Counted() && old(View())[i].Some? && View() == old(View())[i := None]
      ensures old(InOrder()) ==> InOrder() && Map() == old(Map()) - {old(View())[i].value.key}
      ensures entryCount == old(entryCount) - 1
      ensures removedCount == old(removedCount) + if old(cells[i]).HasCollision() then 1 else 0
      ensures if old(cells[i]).HasCollision() then cells[i].IsRemoved() else cells[i].IsFree()
      ensures forall j :: 0 <= j < cells.Length && j != i ==> cells[j] == old(cells[j])
    {
      hide Good, PolicyOk, Apart, LiveSet, RemovedSet;
      RemoveGood(cells[..], log, policy, i);
      GoodFacts(cells[..], log, policy);
      if InOrder() {
        RemovedFrom(View(), policy, i);
      }
      CountsAfterRemove(cells[..], i);
      if cells[i].HasCollision() {
        removedCount := removedCount + 1;
      }
      cells[i] := Emptied(cells[i]);
      entryCount := entryCount - 1;
      assert cells[..] == old(cells[..])[i := Emptied(old(cells[i]))];
    }

    /** Writes an entry into a slot it is reached at. */
    method SetLiveAt(i: nat, key: K, value: V)
      requires Sound() && i < cells.Length && !cells[i].IsLive() && Reached(cells[..], log, policy.hash(key), i)
      modifies cells
      ensures Sound() && old(View())[i].None?
      ensures View() == old(View())[i := Some(Entry(policy.hash(key), key, value))]
      ensures LiveSet(cells[..]) == old(LiveSet(cells[..])) + {i} && i !in old(LiveSet(cells[..]))
      ensures RemovedSet(cells[..]) == old(RemovedSet(cells[..])) - {i}
      ensures cells[i].IsLive() && (cells[i].HasCollision() <==> old(cells[i]).IsRemoved())
      ensures forall j :: 0 <= j < cells.Length && j != i ==> cells[j] == old(cells[j])
    {
      hide Reached, LiveSet, RemovedSet;
      ghost var s := cells[..];
      FillGood(s, log, policy, i, key, value);
      CountsAfterFill(s, i, Filled(s[i], policy.hash(key), key, value));
      cells[i] := Filled(cells[i], policy.hash(key), key, value);
      assert cells[..] == s[i := Filled(s[i], policy.hash(key), key, value)];
    }

    /** Writes an entry and counts it. */
    method WriteAt(i: nat, key: K, value: V)
      requires stored && Counted() && 4 * (entryCount + 1) <= 3 * Capacity(log)
      requires i < cells.Length && !cells[i].IsLive() && Reached(cells[..], log, policy.hash(key), i)
      modifies cells, this`entryCount, this`removedCount
      ensures Counted() && old(View())[i].None?
      ensures View() == old(View())[i := Some(Entry(policy.hash(key), key, value))]
      ensures old(InOrder()) && !HasMatch(old(Map()), policy.matches, key) ==>
        InOrder() && Map() == old(Map())[key := value]
      ensures entryCount == old(entryCount) + 1
      ensures removedCount == old(removedCount) - if old(IsRemovedAt(i)) then 1 else 0
      ensures cells[i].IsLive() && (cells[i].HasCollision() <==> old(IsRemovedAt(i)))
      ensures forall j :: 0 <= j < cells.Length && j != i ==> cells[j] == old(cells[j])
    {
      hide Good, PolicyOk, Apart, HasMatch, Reached, LiveSet, RemovedSet, AsSlots, Contents;
      ghost var v, fits := View(), InOrder() && !HasMatch(Map(), policy.matches, key);
      RemovedIsCounted(cells[..], i);
      if cells[i].IsRemoved() {
        removedCount := removedCount - 1;
      }
      SetLiveAt(i, key, value);
      entryCount := entryCount + 1;
      if fits {
        AddedTo(v, policy, i, key, value);
      }
    }

    predicate IsRemovedAt(i: nat)
      requires i < cells.Length
      reads this, cells
    {
      cells[i].IsRemoved()
    }

    // ----- rebuilding -----

    /** Copies the live entries to a new store of another capacity, leaving removed ones behind. */
    method ChangeTableSize(newLog: Log)
      requires InOrder() && 4 * entryCount <= 3 * Capacity(newLog)
      modifies this`log, this`cells, this`removedCount, this`stored
      ensures Valid() && Map() == old(Map()) && fresh(cells)
      ensures View() == InsertAll(newLog, policy, LiveItems(old(cells[..])))
      ensures log == newLog && removedCount == 0 && stored
    {
      hide Good, PolicyOk, Apart, Reached, LiveSet, RemovedSet, Contents, AsSlots, Insert, InsertAll, LiveItems;
      var oldCells := cells;
      ghost var s := oldCells[..];
      GoodFacts(s, log, policy);
      log := newLog;
      removedCount := 0;
      stored := true;
      cells := new Cell<K, V>[Capacity(newLog)](_ => Cell(0, None));
      AllFree(cells[..], newLog, policy);
      NoPrefix(s);
      NoItems(s, cells[..], newLog, policy);
      for j := 0 to oldCells.Length
        invariant cells.Length == Capacity(newLog) && fresh(cells) && cells != oldCells && oldCells[..] == s
        invariant log == newLog && removedCount == 0 && stored && Sound() && RemovedSet(cells[..]) == {}
        invariant Apart(View(), policy.matches)
        invariant Map() == Contents(AsSlots(s[..j])) && |LiveSet(cells[..])| == |LiveSet(s[..j])|
        invariant |LiveSet(s[..j])| <= entryCount
        invariant View() == InsertAll(newLog, policy, LiveItems(s[..j]))
      {
        PrefixStep(s, policy, j);
        LivePrefix(s, j + 1);
        LiveItemsStep(s, j);
        if oldCells[j].IsLive() {
          InsertOneMore(newLog, policy, LiveItems(s[..j]), s[j].item.value);
          CopyEntry(oldCells[j].item.value);
        }
      }
      assert s[..|s|] == s;
    }

    method CopyEntry(x: (K, V))
      requires Sound() && PolicyOk(policy) && Apart(View(), policy.matches) && RemovedSet(cells[..]) == {}
      requires |LiveSet(cells[..])| < Capacity(log) && !HasMatch(Map(), policy.matches, x.0)
      modifies cells
      ensures Sound() && Apart(View(), policy.matches) && RemovedSet(cells[..]) == {}
      ensures Map() == old(Map())[x.0 := x.1] && |LiveSet(cells[..])| == old(|LiveSet(cells[..])|) + 1
      ensures cells.Length == Capacity(log) == |old(View())|
      ensures View() == Insert(old(View()), log, policy, x)
    {
      hide Good, PolicyOk, Apart, Reached, LiveSet, RemovedSet, Contents, AsSlots, HasMatch, Insert, FirstNone,
        FirstNonLive;
      var i := FindNonLiveSlot(policy.hash(x.0));
      ghost var v := View();
      GoodFacts(cells[..], log, policy);
      NonLiveIsNone(cells[..], log, policy, policy.hash(x.0), i);
      InsertAt(v, log, policy, i, x);
      SetLiveAt(i, x.0, x.1);
      AddedTo(v, policy, i, x.0, x.1);
    }

    /** Rebuilds the store when it is three quarters full of live and removed entries: at the same
        capacity when a quarter is removed ones, else at twice the capacity. */
    method RehashIfOverloaded(storageAvailable: bool) returns (status: RebuildStatus)
      requires stored && InOrder()
      modifies this`log, this`cells, this`removedCount, this`stored
      ensures stored && InOrder() && Map() == old(Map()) && entryCount == old(entryCount)
      ensures status == Rehashed ==> fresh(cells) && removedCount == 0
      ensures status != Rehashed ==> cells == old(cells) && log == old(log) && removedCount == old(removedCount)
      ensures status == NotOverloaded <==> old(entryCount + removedCount) < Capacity(old(log)) * 3 / 4
      ensures status != RehashFailed ==> Valid()
      ensures status != RehashFailed && old(Valid()) ==>
        entryCount < Capacity(log) * 3 / 4 && 4 * (entryCount + removedCount + 1) <= 3 * Capacity(log)
      ensures status == RehashFailed <==>
        && old(entryCount + removedCount) >= Capacity(old(log)) * 3 / 4
        && (!storageAvailable || (old(log) == 30 && 4 * old(removedCount) < Capacity(old(log))))
      ensures status == Rehashed && 4 * old(removedCount) >= Capacity(old(log)) ==> log == old(log)
      ensures status == Rehashed && 4 * old(removedCount) < Capacity(old(log)) ==> log == old(log) + 1
      ensures log > old(log) ==> 2 * entryCount > Capacity(old(log))
      ensures status == Rehashed ==> View() == InsertAll(log, policy, LiveItems(old(cells[..])))
    {
      hide Good, PolicyOk, Apart, LiveSet, RemovedSet, Contents, AsSlots, Capacity, InsertAll, LiveItems;
      CapacityFacts(log);
      if entryCount + removedCount < Capacity(log) * 3 / 4 {
        return NotOverloaded;
      }
      var manyRemoved := removedCount >= Capacity(log) / 4;
      var newLog := if manyRemoved then log as nat else log + 1;
      if newLog > 30 || !storageAvailable {
        return RehashFailed;
      }
      if !manyRemoved {
        DoubledCapacity(log);
      }
      ChangeTableSize(newLog);
      status := Rehashed;
    }

    /** A rebuild that cannot fail: without a second store it is done in place. After a run of
        rekeyings it gives the table back a free slot. */
    method InfallibleRehashIfOverloaded(storageAvailable: bool)
      requires stored && InOrder()
      modifies this`log, this`cells, this`removedCount, this`stored, cells
      ensures stored && Valid() && Map() == old(Map()) && entryCount == old(entryCount)
      ensures cells == old(cells) || fresh(cells)
      ensures log == old(log) || (log == old(log) + 1 && 2 * entryCount > Capacity(old(log)))
      ensures old(entryCount + removedCount) < Capacity(old(log)) * 3 / 4 ==>
        cells == old(cells) && cells[..] == old(cells[..]) && removedCount == old(removedCount)
      ensures old(entryCount + removedCount) >= Capacity(old(log)) * 3 / 4 ==>
        && removedCount == 0
        && var manyRemoved := 4 * old(removedCount) >= Capacity(old(log));
           && (fresh(cells) <==> storageAvailable && (old(log) < 30 || manyRemoved))
           && (fresh(cells) ==> log == old(log) + if manyRemoved then 0 else 1)
    {
      hide *;
      var status := RehashIfOverloaded(storageAvailable);
      if status == RehashFailed {
        var _ := RehashTableInPlace();
      }
    }

    /** After removals during an enumeration: shrinks to the least capacity that holds the entries
        within the limit of three quarters, which is never above the present one, and lets the store go
        when nothing is left. */
    method Compact(storageAvailable: bool)
      requires Valid()
      modifies this`log, this`cells, this`removedCount, this`stored
      ensures Valid() && Map() == old(Map()) && entryCount == old(entryCount)
      ensures entryCount == 0 ==> !stored && log == 2
      ensures entryCount > 0 && storageAvailable ==> forall k: Log :: 4 * entryCount <= 3 * Capacity(k) ==> log <= k
      ensures !storageAvailable && entryCount > 0 ==> cells == old(cells) && log == old(log)
      ensures log <= old(log) && (log == old(log) && entryCount > 0 ==> cells == old(cells))
      ensures cells == old(cells) || fresh(cells)
    {
      hide Good, PolicyOk, Apart, LiveSet, RemovedSet, Contents, AsSlots, Capacity;
      if entryCount == 0 {
        CapacityFacts(2);
        MapEmpty();
        log := 2;
        stored := false;
        removedCount := 0;
        cells := new Cell<K, V>[Capacity(2)](_ => Cell(0, None));
        AllFree(cells[..], 2, policy);
        return;
      }
      CapacityMono(log, 30);
      var best := BestLog(entryCount);
      BestIsLeast(entryCount);
      assert best <= log;
      if best < log && storageAvailable {
        ChangeTableSize(best);
      }
    }

    lemma MapEmpty()
      requires Valid() && entryCount == 0
      ensures Map() == map[]
    {
      hide Good, PolicyOk, Apart;
      GoodFacts(cells[..], log, policy);
      NothingLive(cells[..], log, policy);
    }

    // ----- the table's operations -----

    /** Adds an entry at the slot a mutable lookup returned. A removed slot is taken over as it
        is; otherwise the table may first be rebuilt, and the slot looked for again. Without a store
        one is allocated first. */
    method AddAt(at: nat, key: K, value: V, storageAvailable: bool) returns (ok: bool)
      requires Valid() && !HasMatch(Map(), policy.matches, key)
      requires stored ==> at < cells.Length && !cells[at].IsLive() && Reached(cells[..], log, policy.hash(key), at)
      modifies this, cells
      ensures Valid() && Map() == if ok then old(Map())[key := value] else old(Map())
      ensures storageAvailable && old(log) < 30 ==> ok
      ensures ok <==>
        if !old(stored) then storageAvailable
        else
          || old(IsRemovedAt(at)) || old(entryCount + removedCount) < Capacity(old(log)) * 3 / 4
          || (storageAvailable && (old(log) < 30 || 4 * old(removedCount) >= Capacity(old(log))))
      ensures entryCount == old(entryCount) + (if ok then 1 else 0)
      ensures log == old(log) || (log == old(log) + 1 && 2 * old(entryCount) > Capacity(old(log)))
      ensures old(stored && IsRemovedAt(at)) ==> ok && cells == old(cells)
      ensures cells == old(cells) && ok ==> log == old(log) && at < |old(View())|
      ensures cells == old(cells) && ok ==>
        View() == old(View())[at := Some(Entry(policy.hash(key), key, value))]
      ensures cells != old(cells) ==> ok && fresh(cells) && removedCount == 0
      ensures cells != old(cells) ==>
        View() == Insert(InsertAll(log, policy, LiveItems(old(cells[..]))), log, policy, (key, value))
      ensures old(stored) && cells != old(cells) ==> old(entryCount + removedCount) >= Capacity(old(log)) * 3 / 4
    {
      hide Good, PolicyOk, Apart, Reached, LiveSet, RemovedSet, AsSlots, Contents, HasMatch, Insert, InsertAll,
        LiveItems, FirstNonLive, FirstNone;
      var i := at;
      if !stored {
        if !storageAvailable {
          return false;
        }
        CapacityFacts(log);
        ChangeTableSize(log);
        i := FindSlotFor(key, value);
      } else if IsRemovedAt(at) {
        RemovedIsCounted(cells[..], at);
      } else {
        var status := RehashIfOverloaded(storageAvailable);
        if status == RehashFailed {
          return false;
        }
        if status == Rehashed {
          i := FindSlotFor(key, value);
        }
      }
      WriteAt(i, key, value);
      ok := true;
    }

    /** The slot for a new entry in a rebuilt store: where inserting it puts it. */
    method FindSlotFor(key: K, value: V) returns (i: nat)
      requires Counted() && entryCount < Capacity(log)
      modifies cells
      ensures Sound() && View() == old(View())
      ensures LiveSet(cells[..]) == old(LiveSet(cells[..])) && RemovedSet(cells[..]) == old(RemovedSet(cells[..]))
      ensures i < cells.Length == Capacity(log) && !cells[i].IsLive() && Reached(cells[..], log, policy.hash(key), i)
      ensures View()[i := Some(Entry(policy.hash(key), key, value))] == Insert(View(), log, policy, (key, value))
    {
      hide Good, Reached, LiveSet, RemovedSet, AsSlots, Insert, FirstNone, FirstNonLive;
      i := FindNonLiveSlot(policy.hash(key));
      GoodFacts(cells[..], log, policy);
      NonLiveIsNone(cells[..], log, policy, policy.hash(key), i);
      InsertAt(View(), log, policy, i, (key, value));
    }

    /** HashSet::put: adds an entry for a key that has none; does nothing when there is one. */
    method AddIfAbsent(key: K, value: V, storageAvailable: bool) returns (ok: bool)
      requires Valid()
      modifies this, cells
      ensures Valid()
      ensures Map() == if HasMatch(old(Map()), policy.matches, key) || !ok then old(Map()) else old(Map())[key := value]
      ensures HasMatch(old(Map()), policy.matches, key) ==> ok
      ensures storageAvailable && old(log) < 30 ==> ok
      ensures old(stored) && old(entryCount + removedCount) < Capacity(old(log)) * 3 / 4 ==> ok
      ensures log == old(log) || (log == old(log) + 1 && 2 * old(entryCount) > Capacity(old(log)))
    {
      hide Good, PolicyOk, Apart, Reached, LiveSet, RemovedSet, Contents, HasMatch;
      var at, found := LookupForAdd(key);
      if found {
        return true;
      }
      ok := AddAt(at, key, value, storageAvailable);
    }

    /** HashMap::put: overwrites the value of an entry with a matching key, whose key stays, or adds
        an entry. */
    method Put(key: K, value: V, storageAvailable: bool) returns (ok: bool)
      requires Valid()
      modifies this, cells
      ensures Valid()
      ensures HasMatch(old(Map()), policy.matches, key) ==>
        ok && Map() == old(Map())[KeyIn(old(Map()), policy.matches, key) := value]
      ensures !HasMatch(old(Map()), policy.matches, key) ==>
        Map() == if ok then old(Map())[key := value] else old(Map())
      ensures storageAvailable && old(log) < 30 ==> ok
      ensures old(stored) && old(entryCount + removedCount) < Capacity(old(log)) * 3 / 4 ==> ok
      ensures log == old(log) || (log == old(log) + 1 && 2 * old(entryCount) > Capacity(old(log)))
    {
      hide Good, PolicyOk, Apart, Reached, LiveSet, RemovedSet, Contents, HasMatch;
      var at, found := LookupForAdd(key);
      if found {
        GoodFacts(cells[..], log, policy);
        ghost var v := View();
        SetValueAt(at, value);
        SetIn(v, policy, at, value);
        return true;
      }
      ok := AddAt(at, key, value, storageAvailable);
    }

    /** Removes the entry that a lookup found, and halves the store when only a quarter of it is live.
        Entries may then be in other slots than before. */
    method RemoveFound(i: nat, storageAvailable: bool)
      requires Valid() && i < cells.Length && cells[i].IsLive()
      modifies this, cells
      ensures Valid() && old(View())[i].Some? && Map() == old(Map()) - {old(View())[i].value.key}
      ensures stored && (cells == old(cells) || fresh(cells)) && entryCount == old(entryCount) - 1
      ensures if storageAvailable && old(log) > 2 && 4 * entryCount <= Capacity(old(log))
              then log == old(log) - 1 && fresh(cells) && removedCount == 0
              else log == old(log) && cells == old(cells) && View() == old(View())[i := None]
    {
      hide Good, PolicyOk, Apart, Reached, LiveSet, RemovedSet, Contents, HasMatch, AsSlots, Capacity, InsertAll,
        LiveItems;
      GoodFacts(cells[..], log, policy);
      RemoveAt(i);
      CapacityFacts(log);
      if log > 2 && entryCount <= Capacity(log) / 4 && storageAvailable {
        DoubledCapacity(log - 1);
        CapacityFacts(log - 1);
        ChangeTableSize(log - 1);
      }
    }

    /** Removes the entry of a key. */
    method Remove(key: K, storageAvailable: bool)
      requires Valid()
      modifies this, cells
      ensures Valid()
      ensures Map() == if HasMatch(old(Map()), policy.matches, key)
                       then old(Map()) - {KeyIn(old(Map()), policy.matches, key)} else old(Map())
      ensures HasMatch(old(Map()), policy.matches, key) && storageAvailable && old(log) > 2 ==>
        (log == old(log) - 1 <==> 4 * entryCount <= Capacity(old(log)))
      ensures log < old(log) ==> log == old(log) - 1 && 4 * entryCount <= Capacity(old(log))
    {
      hide Good, PolicyOk, Apart, Reached, LiveSet, RemovedSet, Contents, HasMatch;
      var p := Lookup(key);
      if p.Some? {
        GoodFacts(cells[..], log, policy);
        RemoveFound(p.value, storageAvailable);
      }
    }

    /** Gives an entry another key without rehashing: it is taken out and put back under the new
        key, in a slot that was not live. */
    method RekeyWithoutRehash(i: nat, key: K) returns (ghost at: nat)
      requires Counted() && i < cells.Length && cells[i].IsLive()
      modifies cells, this`entryCount, this`removedCount
      ensures Counted() && entryCount == old(entryCount) && cells == old(cells)
      ensures at < |old(View())| && old(View())[i].Some? && old(View())[i := None][at].None?
      ensures View() ==
        old(View())[i := None][at := Some(Entry(policy.hash(key), key, old(View())[i].value.value))]
      ensures var e := old(View())[i].value;
        old(InOrder()) && !HasMatch(old(Map()) - {e.key}, policy.matches, key) ==>
          InOrder() && Map() == (old(Map()) - {e.key})[key := e.value]
    {
      hide Good, PolicyOk, Apart, HasMatch, Reached, LiveSet, RemovedSet, Contents;
      GoodFacts(cells[..], log, policy);
      var value := cells[i].item.value.1;
      RemoveAt(i);
      var j := FindNonLiveSlot(policy.hash(key));
      WriteAt(j, key, value);
      at := j;
    }

    // ----- rehashing in place -----

    /** Rebuilds the table without a second store. Collision bits are first cleared, then reused to
        tell the entries already placed from those still waiting; a placed entry is never moved
        again, and one that is in its way is swapped back to wait. What comes of it is the table that
        inserting the entries in the order they were placed would give, but for the collision bits. */
    method RehashTableInPlace() returns (ghost items: seq<(K, V)>)
      requires InOrder()
      modifies cells, this`removedCount
      ensures Valid() && Map() == old(Map()) && removedCount == 0
      ensures View() == InsertAll(log, policy, items) && |items| == entryCount
      ensures forall x :: x in items ==> x.0 in Map() && Map()[x.0] == x.1
      ensures forall j :: 0 <= j < cells.Length && cells[j].IsLive() ==> cells[j].HasCollision()
    {
      hide Good, PolicyOk, Apart, Reached, LiveSet, RemovedSet, AsSlots, Contents, Rehashing, Waiting, PlacedSlots,
        ArePlaced, InsertAll, Insert;
      ghost var s := cells[..];
      GoodFacts(s, log, policy);
      UnsetAll();
      removedCount := 0;
      RehashingStart(s, cells[..], log, policy);
      items := [];
      NothingPlaced(s, log, policy);
      NoneArePlaced(cells[..]);
      var i := 0;
      while i < cells.Length
        invariant i <= cells.Length && Rehashing(cells[..], log, policy, i) && removedCount == 0
        invariant Contents(AsSlots(cells[..])) == Contents(AsSlots(s)) && |LiveSet(cells[..])| == |LiveSet(s)|
        invariant PlacedSlots(cells[..]) == InsertAll(log, policy, items) && ArePlaced(cells[..], items)
        invariant |Waiting(cells[..])| + |items| == cells.Length
        decreases |Waiting(cells[..])|, cells.Length - i
      {
        RehashingFacts(cells[..], log, policy, i);
        if !cells[i].IsLive() || cells[i].HasCollision() {
          RehashingPass(cells[..], log, policy, i);
          i := i + 1;
        } else {
          ghost var x := cells[i].item.value;
          InsertOneMore(log, policy, items, x);
          PlaceEntry(i, items);
          items := items + [x];
        }
      }
      AllPlaced(cells[..], log, policy);
      RehashingDone(cells[..], log, policy);
      PlacedAreHeld(cells[..], log, policy, items);
    }

    /** unsetCollision on every slot: removed sentinels become free. */
    method UnsetAll()
      modifies cells
      ensures cells[..] == Unset(old(cells[..]))
    {
      ghost var s := cells[..];
      for j := 0 to cells.Length
        invariant forall x :: 0 <= x < j ==> cells[x] == s[x].UnsetCollision()
        invariant forall x :: j <= x < cells.Length ==> cells[x] == s[x]
      {
        cells[j] := cells[j].UnsetCollision();
      }
    }

    /** Puts the waiting entry of slot i where probing for it first gets to a slot not taken by a
        placed entry, and swaps what was there into slot i. */
    method PlaceEntry(i: nat, ghost items: seq<(K, V)>)
      requires PolicyOk(policy) && i < cells.Length && Rehashing(cells[..], log, policy, i)
      requires cells[i].IsLive() && !cells[i].HasCollision() && ArePlaced(cells[..], items)
      modifies cells
      ensures old(cells[i].item).Some? && |old(PlacedSlots(cells[..]))| == Capacity(log)
      ensures PlacedSlots(cells[..]) ==
        Insert(old(PlacedSlots(cells[..])), log, policy, old(cells[i].item.value))
      ensures ArePlaced(cells[..], items + [old(cells[i].item.value)])
      ensures Waiting(cells[..]) < old(Waiting(cells[..]))
      ensures |Waiting(cells[..])| == |old(Waiting(cells[..]))| - 1
      ensures Rehashing(cells[..], log, policy, i)
      ensures Contents(AsSlots(cells[..])) == old(Contents(AsSlots(cells[..])))
      ensures |LiveSet(cells[..])| == old(|LiveSet(cells[..])|)
    {
      hide PolicyOk, Reached, PathCollides, LiveSet, AsSlots, Contents, Probe, Step, Hash1, Hash2, Rehashing, Waiting,
        PlacedSlots, ArePlaced, Insert;
      ghost var s := cells[..];
      RehashingFacts(s, log, policy, i);
      var h: Hash := policy.hash(cells[i].item.value.0);
      var h2 := Hash2(h, log);
      var tgt := Hash1(h, log);
      FirstProbe(h, log);
      NoPath(s, log, h);
      ghost var n: nat := 0;
      ghost var end := ProbeReaches(h, log, i);
      while cells[tgt].HasCollision()
        invariant tgt == Probe(h, log, n) && n <= end && PathCollides(s, log, h, n) && cells[..] == s
        decreases end - n
      {
        PathGrows(s, log, h, n);
        NextProbeIsStep(h, log, n);
        tgt := Step(tgt, h2, log);
        n := n + 1;
      }
      ReachedByPath(s, log, h, n);
      SwapPlaces(s, log, policy, i, tgt);
      PlacedLength(s);
      PlacingInserts(s, log, policy, i, n, items);
      var src := cells[i];
      cells[i] := cells[tgt];
      cells[tgt] := src;
      cells[tgt] := cells[tgt].SetCollision();
      assert cells[..] == Swapped(s, i, tgt);
    }
  }

  // ----- contents -----

  lemma AddedTo<K(!new), V>(v: Slots<K, V>, policy: HashPolicy<K>, i: nat, key: K, value: V)
    requires PolicyOk(policy) && Apart(v, policy.matches) && !HasMatch(Contents(v), policy.matches, key)
    requires i < |v| && v[i].None?
    ensures var w := v[i := Some(Entry(policy.hash(key), key, value))];
      Apart(w, policy.matches) && Contents(w) == Contents(v)[key := value]
  {
    AddedApart(v, policy.matches, policy.Hashing(), i, Entry(policy.hash(key), key, value));
  }

  lemma RemovedFrom<K(!new), V>(v: Slots<K, V>, policy: HashPolicy<K>, i: nat)
    requires PolicyOk(policy) && Apart(v, policy.matches) && i < |v| && v[i].Some?
    ensures Apart(v[i := None], policy.matches) && Contents(v[i := None]) == Contents(v) - {v[i].value.key}
  {
    RemovedApart(v, policy.matches, policy.Hashing(), i);
  }

  lemma SetIn<K(!new), V>(v: Slots<K, V>, policy: HashPolicy<K>, i: nat, value: V)
    requires PolicyOk(policy) && Apart(v, policy.matches) && i < |v| && v[i].Some?
    ensures var w := v[i := Some(v[i].value.(value := value))];
      Apart(w, policy.matches) && Contents(w) == Contents(v)[v[i].value.key := value]
  {
    ContentsApart(v, policy.matches, policy.Hashing());
    UpdatedContents(v, i, value);
  }

  lemma NothingLive<K, V>(s: Cells<K, V>, k: Log, policy: HashPolicy<K>)
    requires Good(s, k, policy) && |LiveSet(s)| == 0
    ensures Contents(AsSlots(s)) == map[] && forall i :: 0 <= i < |s| ==> AsSlots(s)[i].None?
  {
    assert LiveSet(s) == {};
    assert forall i :: 0 <= i < |s| && s[i].IsLive() ==> i in LiveSet(s);
  }

  lemma NoneLive<K, V>(s: Cells<K, V>, k: Log, policy: HashPolicy<K>, key: K)
    requires Good(s, k, policy) && |LiveSet(s)| == 0
    ensures !HasMatch(Contents(AsSlots(s)), policy.matches, key)
  {
    NothingLive(s, k, policy);
  }

  lemma NoneArePlaced<K, V>(s: Cells<K, V>)
    ensures ArePlaced(s, [])
  {
  }

  lemma PlacedLength<K, V>(s: Cells<K, V>)
    ensures |PlacedSlots(s)| == |s|
  {
  }

  /** Entries that are placed are in the table. */
  lemma PlacedAreHeld<K(!new), V>(s: Cells<K, V>, k: Log, policy: HashPolicy<K>, items: seq<(K, V)>)
    requires PolicyOk(policy) && Good(s, k, policy) && Apart(AsSlots(s), policy.matches) && ArePlaced(s, items)
    ensures var m := Contents(AsSlots(s)); forall x :: x in items ==> x.0 in m && m[x.0] == x.1
  {
    var v := AsSlots(s);
    ContentsApart(v, policy.matches, policy.Hashing());
    hide Good, PolicyOk, Apart, Contents;
    forall x | x in items ensures x.0 in Contents(v) && Contents(v)[x.0] == x.1 {
      var j :| 0 <= j < |s| && s[j].HasCollision() && s[j].item == Some(x);
      ContentsAt(v, j);
    }
  }

  // ----- capacities -----

  /** bestCapacity, as a logarithm: the least capacity in use that is not below four thirds of the
      number of entries, rounded up. */
  function BestLog(n: nat): Log
    requires 4 * n <= 3 * Capacity(30)
  {
    BestFrom((4 * n + 3 - 1) / 3, 2, 30)
  }

  function BestFrom(capacity: nat, k: Log, top: Log): (best: Log)
    requires k <= top && capacity <= Capacity(top)
    ensures k <= best && capacity <= Capacity(best) && (best == k || Capacity(best - 1) < capacity)
    decreases top - k
  {
    if capacity <= Capacity(k) then k else BestFrom(capacity, k + 1, top)
  }

  lemma CapacityMono(j: Log, k: Log)
    requires j <= k
    ensures Capacity(j) <= Capacity(k)
  {
    Words.Pow2Mono(j, k);
  }

  lemma BestIsLeast(n: nat)
    requires 4 * n <= 3 * Capacity(30)
    ensures 4 * n <= 3 * Capacity(BestLog(n))
    ensures forall k: Log :: 4 * n <= 3 * Capacity(k) ==> BestLog(n) <= k
  {
    hide Capacity;
    var best := BestLog(n);
    forall k: Log | 4 * n <= 3 * Capacity(k) ensures best <= k {
      if k < best {
        CapacityMono(k, best - 1);
      }
    }
  }

  lemma NoItems<K, V>(s: Cells<K, V>, t: Cells<K, V>, k: Log, policy: HashPolicy<K>)
    requires |t| == Capacity(k) && forall i :: 0 <= i < |t| ==> t[i] == Cell(0, None)
    ensures AsSlots(t) == InsertAll(k, policy, LiveItems(s[..0]))
  {
    InsertNone<K, V>(k, policy);
    assert s[..0] == [];
  }

  // ----- rekeying can use up the free slots -----

  /** A table of four slots: one live entry that a probe has passed, two sentinels, a free slot. */
  function AlmostFull(h: Hash): Cells<nat, nat> {
    [Cell(h + 1, Some((0, 0))), Cell(1, None), Cell(1, None), Cell(0, None)]
  }

  lemma CornerHashes()
    ensures Probe(2, 2, 0) == 0 && Probe(0xC000_0000, 2, 0) == 3 && Capacity(2) == 4
  {
    hide Words.Up, Words.Shr, Words.Low;
    FirstProbe(2, 2);
    FirstProbe(0xC000_0000, 2);
    Words.Pow2Values();
    Words.Pow2Add(15, 15);
    Words.ShrLowAreDivMod(2, 30);
    Words.ShrLowAreDivMod(0xC000_0000, 30);
  }

  /** The state in which rekeying one entry leaves no free slot for the next probe to stop at. */
  ghost predicate UsesUp(s: Cells<nat, nat>, policy: HashPolicy<nat>, i: nat, key: nat, at: nat) {
    && PolicyOk(policy) && Good(s, 2, policy) && Apart(AsSlots(s), policy.matches) && HasFree(s)
    && i < |s| && s[i].IsLive() && at < |s|
    && var emptied := s[i := Emptied(s[i])];
       && FirstNonLive(emptied, 2, policy.hash(key), at)
       && !HasFree(emptied[at := Filled(emptied[at], policy.hash(key), key, s[i].item.value.1)])
  }

  lemma AlmostFullProbes()
    ensures Capacity(2) == 4 && Reached(AlmostFull(2), 2, 2, 0)
    ensures FirstNonLive(AlmostFull(2)[0 := Emptied(AlmostFull(2)[0])], 2, 0xC000_0000, 3)
  {
    hide Probe;
    CornerHashes();
    var s := AlmostFull(2);
    assert PathCollides(s, 2, 2, 0);
    assert PathLive(s[0 := Emptied(s[0])], 2, 0xC000_0000, 0);
  }

  lemma RekeyingCanUseUpFreeSlots()
    ensures exists s, policy, i, key, at :: UsesUp(s, policy, i, key, at)
  {
    hide Reached, FirstNonLive, Capacity;
    AlmostFullProbes();
    var policy := HashPolicy((x: nat) => if x == 0 then 2 else 0xC000_0000, (x: nat, y: nat) => x == y);
    var s := AlmostFull(2);
    assert Reached(s, 2, policy.hash(0), 0);
    assert s[3].IsFree();
    assert UsesUp(s, policy, 0, 1, 3);
  }
}
