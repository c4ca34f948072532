/** Sweeping a hash map of weak entries, in place and with rekeying. */
module WeakSweeping {
  import opened Options
  import opened HashTables
  import opened GCPolicy

  function SweptSlot<K, V>(policy: EntryPolicy<K, V>, o: Option<Entry<K, V>>): Option<Entry<K, V>> {
    match o
    case None => None
    case Some(e) =>
      var r := policy.traceWeak(e.key, e.value);
      if r.alive then Some(Entry(e.hash, r.key, r.value)) else None
  }

  /** The slots after each entry has been traced where it sits: the hash it is stored under is
      not recomputed. */
  function Swept<K, V>(policy: EntryPolicy<K, V>, s: Slots<K, V>): Slots<K, V> {
    seq(|s|, i requires 0 <= i < |s| => SweptSlot(policy, s[i]))
  }

  ghost predicate Alive<K, V>(policy: EntryPolicy<K, V>, s: Slots<K, V>, i: int) {
    0 <= i < |s| && s[i].Some? && policy.traceWeak(s[i].value.key, s[i].value.value).alive
  }

  /** An entry that the sweep removes. */
  ghost predicate Dies<K, V>(policy: EntryPolicy<K, V>, s: Slots<K, V>, i: int) {
    0 <= i < |s| && s[i].Some? && !policy.traceWeak(s[i].value.key, s[i].value.value).alive
  }

  ghost function Relocated<K, V>(policy: EntryPolicy<K, V>, s: Slots<K, V>, i: int): TracedEntry<K, V>
    requires 0 <= i < |s| && s[i].Some?
  {
    policy.traceWeak(s[i].value.key, s[i].value.value)
  }

  /** Each surviving entry is findable afterwards exactly when relocation did not change the hash
      of its key; keys stay apart exactly when no two survivors are relocated to matching keys. */
  lemma SweptIsValidIff<K(!new), V>(policy: EntryPolicy<K, V>, s: Slots<K, V>, hashOf: K -> nat, matches: Match<K>)
    requires Findable(s, hashOf) && IsMatch(matches, hashOf)
    ensures Findable(Swept(policy, s), hashOf) <==>
      forall i :: Alive(policy, s, i) ==> hashOf(Relocated(policy, s, i).key) == hashOf(s[i].value.key)
    ensures Apart(Swept(policy, s), matches) <==>
      forall i, j :: Alive(policy, s, i) && Alive(policy, s, j) && i != j ==>
        !matches(Relocated(policy, s, i).key, Relocated(policy, s, j).key)
  {
    var t := Swept(policy, s);
    assert forall i :: 0 <= i < |s| ==> (t[i].Some? <==> Alive(policy, s, i));
    assert forall i :: Alive(policy, s, i) ==> t[i].value.key == Relocated(policy, s, i).key;
    if Apart(t, matches) {
      forall i, j | Alive(policy, s, i) && Alive(policy, s, j) && i != j
        ensures !matches(Relocated(policy, s, i).key, Relocated(policy, s, j).key)
      {
        assert i < j || j < i;
      }
    }
  }

  /** What the swept table holds when its keys stay apart: every live entry is found under its
      relocated key with its updated value, and nothing else is there. */
  lemma SweptContents<K(!new), V>(policy: EntryPolicy<K, V>, s: Slots<K, V>, hashOf: K -> nat, matches: Match<K>)
    requires IsMatch(matches, hashOf) && Apart(Swept(policy, s), matches)
    ensures var m := Contents(Swept(policy, s));
      && (forall a :: Alive(policy, s, a) ==>
            var r := Relocated(policy, s, a); r.key in m && m[r.key] == r.value)
      && (forall k :: k in m ==> exists a :: Alive(policy, s, a) && Relocated(policy, s, a).key == k)
  {
    var t := Swept(policy, s);
    ContentsApart(t, matches, hashOf);
    forall a | Alive(policy, s, a)
      ensures var r := Relocated(policy, s, a); r.key in Contents(t) && Contents(t)[r.key] == r.value
    {
      assert t[a].Some?;
      ContentsAt(t, a);
    }
    forall k | k in Contents(t) ensures exists a :: Alive(policy, s, a) && Relocated(policy, s, a).key == k {
      var a := SlotOf(t, k);
      assert t[a].Some?;
      assert Alive(policy, s, a);
    }
  }

  /** The live part of a map: what it would hold had it been swept. */
  function LiveOf<K, V>(policy: EntryPolicy<K, V>, m: map<K, V>): map<K, V> {
    map k | k in m && !policy.needsSweep(k, m[k]) :: m[k]
  }

  /** A policy that agrees with itself on the entries of a map, and moves none of them. */
  ghost predicate AgreesAndStays<K, V>(policy: EntryPolicy<K, V>, m: map<K, V>) {
    forall k :: k in m ==>
      && policy.AgreesOn(k, m[k])
      && (policy.traceWeak(k, m[k]).alive ==> policy.traceWeak(k, m[k]) == TracedEntry(true, k, m[k]))
  }

  lemma SweptSlotInPlace<K, V>(policy: EntryPolicy<K, V>, s: Slots<K, V>, i: nat)
    requires UniqueKeys(s) && AgreesAndStays(policy, Contents(s)) && i < |s| && s[i].Some?
    ensures var e := s[i].value;
      && e.key in Contents(s) && Contents(s)[e.key] == e.value
      && SweptSlot(policy, s[i]) == (if policy.needsSweep(e.key, e.value) then None else s[i])
  {
    ContentsAt(s, i);
  }

  /** When nothing moves, sweeping leaves exactly the live part. */
  lemma SweptInPlace<K, V>(policy: EntryPolicy<K, V>, s: Slots<K, V>)
    requires UniqueKeys(s) && AgreesAndStays(policy, Contents(s))
    ensures UniqueKeys(Swept(policy, s)) && Contents(Swept(policy, s)) == LiveOf(policy, Contents(s))
    ensures forall i :: 0 <= i < |s| && Swept(policy, s)[i].Some? ==> Swept(policy, s)[i] == s[i]
  {
    var t, m := Swept(policy, s), LiveOf(policy, Contents(s));
    forall i | 0 <= i < |s| && s[i].Some?
      ensures s[i].value.key in Contents(s) && Contents(s)[s[i].value.key] == s[i].value.value
      ensures if policy.needsSweep(s[i].value.key, s[i].value.value) then t[i].None? else t[i] == s[i]
    {
      SweptSlotInPlace(policy, s, i);
    }
    forall k | k in m ensures exists i :: Holds(t, i, k) {
      assert Holds(s, SlotOf(s, k), k);
      assert Holds(t, SlotOf(s, k), k);
    }
    hide Contents, AgreesAndStays, SweptSlot;
    ContentsAre(t, m);
  }

  /** An enumeration of the entries that may remove, change or rekey the one at the front. */
  class Enum<K(==, !new), V(!new)> {
    const table: HashTable<K, V>
    var cur: nat

    constructor (table: HashTable<K, V>)
      ensures this.table == table && cur == NextLive(table.slots, 0)
    {
      this.table := table;
      this.cur := NextLive(table.slots, 0);
    }

    predicate Empty()
      reads this, table
    {
      cur >= |table.slots|
    }

    method PopFront()
      requires !Empty()
      modifies this
      ensures cur == NextLive(table.slots, old(cur) + 1)
    {
      cur := NextLive(table.slots, cur + 1);
    }

    method RemoveFront()
      requires !Empty() && table.slots[cur].Some?
      modifies table
      ensures table.slots == old(table.slots)[cur := None]
    {
      table.slots := table.slots[cur := None];
    }

    /** Removes the front entry and puts it back, with a new key, in any free slot. */
    method RekeyFront(k: K) returns (at: nat)
      requires !Empty() && table.slots[cur].Some?
      modifies table
      ensures at < |old(table.slots)| && old(table.slots)[cur := None][at].None?
      ensures table.slots
           == old(table.slots)[cur := None][at := Some(Entry(table.hashOf(k), k, old(table.slots)[cur].value.value))]
    {
      var v := table.slots[cur].value.value;
      table.slots := table.slots[cur := None];
      assert table.slots[cur].None?;
      at :| 0 <= at < |table.slots| && table.slots[at].None?;
      table.slots := table.slots[at := Some(Entry(table.hashOf(k), k, v))];
    }
  }

  /** The first occupied slot from i on, or the number of slots. */
  function NextLive<K, V>(s: Slots<K, V>, i: nat): (j: nat)
    ensures i <= |s| ==> i <= j <= |s|
    ensures i > |s| ==> j == i
    ensures j < |s| ==> s[j].Some?
    ensures forall m :: i <= m < j && m < |s| ==> s[m].None?
    decreases |s| - i
  {
    if i >= |s| || s[i].Some? then i else NextLive(s, i + 1)
  }

  /** GCHashMap: traces every entry in place and removes those with a dying part. */
  method TraceWeakEntries<K(==, !new), V(!new)>(table: HashTable<K, V>, policy: EntryPolicy<K, V>)
    modifies table
    ensures table.slots == Swept(policy, old(table.slots))
  {
    var s := table.slots;
    var e := new Enum(table);
    while !e.Empty()
      invariant e.table == table && fresh(e)
      invariant e.cur == NextLive(table.slots, e.cur) <= |table.slots| == |s|
      invariant forall i :: 0 <= i < e.cur ==> table.slots[i] == SweptSlot(policy, s[i])
      invariant forall i :: e.cur <= i < |s| ==> table.slots[i] == s[i]
      decreases |table.slots| - e.cur
    {
      var i := e.cur;
      var front := table.slots[i].value;
      var r := policy.traceWeak(front.key, front.value);
      table.slots := table.slots[i := Some(Entry(front.hash, r.key, r.value))];
      if !r.alive {
        e.RemoveFront();
      }
      e.PopFront();
    }
    assert table.slots == Swept(policy, s);
  }

  /** GCHashMap::traceWeak also says whether anything is left. */
  method TraceWeak<K(==, !new), V(!new)>(table: HashTable<K, V>, policy: EntryPolicy<K, V>) returns (any: bool)
    modifies table
    ensures table.slots == Swept(policy, old(table.slots))
    ensures any <==> exists i :: Alive(policy, old(table.slots), i)
  {
    ghost var s := table.slots;
    TraceWeakEntries(table, policy);
    any := NextLive(table.slots, 0) < |table.slots|;
    assert forall i :: 0 <= i < |s| ==> (table.slots[i].Some? <==> Alive(policy, s, i));
    assert any ==> Alive(policy, s, NextLive(table.slots, 0));
  }

  // ----- sweeping with rekeying -----

  /** What the rekeying sweep asks of relocation: tracing an entry again that got a new key changes
      nothing, and no two live entries end at matching keys. An entry may be relocated to a key that
      another one is still stored under: by the end of the sweep that other one has moved or gone. */
  ghost predicate Relocates<K, V>(policy: EntryPolicy<K, V>, s: Slots<K, V>, matches: Match<K>) {
    && (forall i :: Alive(policy, s, i) && !KeepsKey(policy, s, matches, i) ==>
          policy.traceWeak(Relocated(policy, s, i).key, Relocated(policy, s, i).value) == Relocated(policy, s, i))
    && (forall i, j :: Alive(policy, s, i) && Alive(policy, s, j) && i != j ==>
          !matches(Relocated(policy, s, i).key, Relocated(policy, s, j).key))
  }

  /** An entry whose relocated key matches the stored one is not rekeyed: the stored key stays. */
  ghost predicate KeepsKey<K, V>(policy: EntryPolicy<K, V>, s: Slots<K, V>, matches: Match<K>, a: int)
    requires Alive(policy, s, a)
  {
    matches(Relocated(policy, s, a).key, s[a].value.key)
  }

  /** The entry that original slot a ends as. */
  ghost function Left<K, V>(policy: EntryPolicy<K, V>, s: Slots<K, V>, hashOf: K -> nat, matches: Match<K>, a: int)
    : Entry<K, V>
    requires Alive(policy, s, a)
  {
    var r := Relocated(policy, s, a);
    var k := if KeepsKey(policy, s, matches, a) then s[a].value.key else r.key;
    Entry(hashOf(k), k, r.value)
  }

  /** The entry relocated: what it should end as. */
  ghost function Image<K, V>(policy: EntryPolicy<K, V>, s: Slots<K, V>, hashOf: K -> nat, a: int): Entry<K, V>
    requires Alive(policy, s, a)
  {
    Entry(hashOf(Relocated(policy, s, a).key), Relocated(policy, s, a).key, Relocated(policy, s, a).value)
  }

  /** How far the sweep has come: below cur, each live original entry sits, as what it ends as, in
      the one slot place gives, its own if it keeps its key; from cur on, original entries are still
      where they were; nothing else is in the table. */
  ghost predicate Progress<K, V>(policy: EntryPolicy<K, V>, s: Slots<K, V>, hashOf: K -> nat, matches: Match<K>,
                                 t: Slots<K, V>, cur: int, place: map<int, int>) {
    && |t| == |s| && 0 <= cur <= |s|
    && (forall a :: a in place <==> a < cur && Alive(policy, s, a))
    && (forall a :: a in place ==>
          && 0 <= place[a] < |s| && t[place[a]] == Some(Left(policy, s, hashOf, matches, a))
          && (KeepsKey(policy, s, matches, a) ==> place[a] == a)
          && (place[a] >= cur ==> s[place[a]].None?))
    && (forall a, b :: a in place && b in place && a != b ==> place[a] != place[b])
    && (forall i :: cur <= i < |s| && s[i].Some? ==> t[i] == s[i])
    && (forall i :: 0 <= i < |s| && t[i].Some? ==>
          (cur <= i && s[i].Some?) || exists a :: a in place && place[a] == i)
  }

  lemma ProgressStart<K, V>(policy: EntryPolicy<K, V>, s: Slots<K, V>, hashOf: K -> nat, matches: Match<K>)
    ensures Progress(policy, s, hashOf, matches, s, 0, map[])
  {
  }

  lemma ProgressLength<K, V>(policy: EntryPolicy<K, V>, s: Slots<K, V>, hashOf: K -> nat, matches: Match<K>,
                             t: Slots<K, V>, cur: int, place: map<int, int>)
    requires Progress(policy, s, hashOf, matches, t, cur, place)
    ensures |t| == |s| && 0 <= cur <= |s|
  {
  }

  /** Passing a free slot, or one whose entry was relocated there before. */
  lemma ProgressSkip<K, V>(policy: EntryPolicy<K, V>, s: Slots<K, V>, hashOf: K -> nat, matches: Match<K>,
                           t: Slots<K, V>, cur: int, place: map<int, int>)
    requires Progress(policy, s, hashOf, matches, t, cur, place) && cur < |s| && s[cur].None?
    ensures Progress(policy, s, hashOf, matches, t, cur + 1, place)
  {
    hide Left, KeepsKey, Relocated;
  }

  lemma ProgressRemove<K, V>(policy: EntryPolicy<K, V>, s: Slots<K, V>, hashOf: K -> nat, matches: Match<K>,
                             t: Slots<K, V>, cur: int, place: map<int, int>)
    requires Progress(policy, s, hashOf, matches, t, cur, place) && cur < |s| && s[cur].Some?
    requires !Alive(policy, s, cur)
    ensures Progress(policy, s, hashOf, matches, t[cur := None], cur + 1, place)
  {
    hide Left, KeepsKey, Relocated;
  }

  lemma ProgressMove<K, V>(policy: EntryPolicy<K, V>, s: Slots<K, V>, hashOf: K -> nat, matches: Match<K>,
                           t: Slots<K, V>, cur: int, place: map<int, int>, at: int)
    requires Progress(policy, s, hashOf, matches, t, cur, place) && Alive(policy, s, cur)
    requires 0 <= at < |s| && t[cur := None][at].None? && (KeepsKey(policy, s, matches, cur) ==> at == cur)
    ensures Progress(policy, s, hashOf, matches, t[cur := None][at := Some(Left(policy, s, hashOf, matches, cur))],
                     cur + 1, place[cur := at])
  {
    hide Left, KeepsKey, Relocated;
    var t' := t[cur := None][at := Some(Left(policy, s, hashOf, matches, cur))];
    var place' := place[cur := at];
    forall i | 0 <= i < |s| && t'[i].Some?
      ensures (cur + 1 <= i && s[i].Some?) || exists a :: a in place' && place'[a] == i
    {
      if i == at {
        assert place'[cur] == i;
      } else if !(cur <= i && s[i].Some?) {
        var a :| a in place && place[a] == i;
        assert place'[a] == i;
      }
    }
  }

  /** A slot visited again after its entry was relocated there: the entry is already what it ends
      as. */
  lemma Revisited<K, V>(policy: EntryPolicy<K, V>, s: Slots<K, V>, hashOf: K -> nat, matches: Match<K>,
                        t: Slots<K, V>, cur: int, place: map<int, int>)
    requires Progress(policy, s, hashOf, matches, t, cur, place) && Relocates(policy, s, matches)
    requires cur < |s| && s[cur].None? && t[cur].Some?
    ensures var e := t[cur].value; policy.traceWeak(e.key, e.value) == TracedEntry(true, e.key, e.value)
  {
    var a :| a in place && place[a] == cur;
    assert Relocated(policy, s, a).alive;
  }

  /** Every live entry's outcome is in the table. */
  ghost predicate HoldsLeft<K, V>(policy: EntryPolicy<K, V>, s: Slots<K, V>, hashOf: K -> nat, matches: Match<K>,
                                  t: Slots<K, V>) {
    forall a :: Alive(policy, s, a) ==>
      exists i :: 0 <= i < |t| && t[i] == Some(Left(policy, s, hashOf, matches, a))
  }

  /** Every entry of the table is the outcome of a live one. */
  ghost predicate OnlyLeft<K, V>(policy: EntryPolicy<K, V>, s: Slots<K, V>, hashOf: K -> nat, matches: Match<K>,
                                 t: Slots<K, V>) {
    forall i :: 0 <= i < |t| && t[i].Some? ==>
      exists a :: Alive(policy, s, a) && t[i] == Some(Left(policy, s, hashOf, matches, a))
  }

  /** The result of the sweep: the table holds exactly the outcomes of the live entries, each once
      and each stored under the hash of its key. */
  ghost predicate IsLeft<K, V>(policy: EntryPolicy<K, V>, s: Slots<K, V>, hashOf: K -> nat, matches: Match<K>,
                               t: Slots<K, V>) {
    && Apart(t, matches) && Findable(t, hashOf)
    && HoldsLeft(policy, s, hashOf, matches, t) && OnlyLeft(policy, s, hashOf, matches, t)
  }

  ghost predicate HoldsImages<K, V>(policy: EntryPolicy<K, V>, s: Slots<K, V>, hashOf: K -> nat, t: Slots<K, V>) {
    forall a :: Alive(policy, s, a) ==> exists i :: 0 <= i < |t| && t[i] == Some(Image(policy, s, hashOf, a))
  }

  ghost predicate OnlyImages<K, V>(policy: EntryPolicy<K, V>, s: Slots<K, V>, hashOf: K -> nat, t: Slots<K, V>) {
    forall i :: 0 <= i < |t| && t[i].Some? ==>
      exists a :: Alive(policy, s, a) && t[i] == Some(Image(policy, s, hashOf, a))
  }

  /** The table holds exactly the images of the live entries under relocation. */
  ghost predicate IsImage<K, V>(policy: EntryPolicy<K, V>, s: Slots<K, V>, hashOf: K -> nat, t: Slots<K, V>) {
    HoldsImages(policy, s, hashOf, t) && OnlyImages(policy, s, hashOf, t)
  }

  /** A relocated key that matches the stored one is equal to it. */
  ghost predicate KeptKeysAreNew<K, V>(policy: EntryPolicy<K, V>, s: Slots<K, V>, matches: Match<K>) {
    forall a :: Alive(policy, s, a) && KeepsKey(policy, s, matches, a) ==>
      Relocated(policy, s, a).key == s[a].value.key
  }

  lemma SameSlot<K(!new), V>(t: Slots<K, V>, matches: Match<K>, hashOf: K -> nat, i: nat, j: nat)
    requires IsMatch(matches, hashOf) && Apart(t, matches)
    requires i < |t| && j < |t| && t[i].Some? && t[j].Some? && matches(t[i].value.key, t[j].value.key)
    ensures i == j
  {
    assert matches(t[j].value.key, t[i].value.key);
  }

  lemma LeftAt<K, V>(policy: EntryPolicy<K, V>, s: Slots<K, V>, hashOf: K -> nat, matches: Match<K>,
                     t: Slots<K, V>, a: int) returns (i: nat)
    requires HoldsLeft(policy, s, hashOf, matches, t) && Alive(policy, s, a)
    ensures i < |t| && t[i] == Some(Left(policy, s, hashOf, matches, a))
  {
    i :| 0 <= i < |t| && t[i] == Some(Left(policy, s, hashOf, matches, a));
  }

  lemma ImageAt<K, V>(policy: EntryPolicy<K, V>, s: Slots<K, V>, hashOf: K -> nat, t: Slots<K, V>, a: int)
    returns (i: nat)
    requires IsImage(policy, s, hashOf, t) && Alive(policy, s, a)
    ensures i < |t| && t[i] == Some(Image(policy, s, hashOf, a))
  {
    hide OnlyImages;
    i :| 0 <= i < |t| && t[i] == Some(Image(policy, s, hashOf, a));
  }

  lemma ImageFrom<K, V>(policy: EntryPolicy<K, V>, s: Slots<K, V>, hashOf: K -> nat, t: Slots<K, V>, i: nat)
    returns (a: int)
    requires IsImage(policy, s, hashOf, t) && i < |t| && t[i].Some?
    ensures Alive(policy, s, a) && t[i] == Some(Image(policy, s, hashOf, a))
  {
    hide HoldsImages;
    a :| Alive(policy, s, a) && t[i] == Some(Image(policy, s, hashOf, a));
  }

  lemma ImageKeepsNoOldKey<K(!new), V>(policy: EntryPolicy<K, V>, s: Slots<K, V>, hashOf: K -> nat,
                                       matches: Match<K>, t: Slots<K, V>, a: int)
    requires IsMatch(matches, hashOf) && IsLeft(policy, s, hashOf, matches, t) && IsImage(policy, s, hashOf, t)
    requires Alive(policy, s, a) && KeepsKey(policy, s, matches, a)
    ensures Relocated(policy, s, a).key == s[a].value.key
  {
    hide OnlyLeft, Findable, Apart, IsMatch, HoldsLeft, IsImage;
    var i := LeftAt(policy, s, hashOf, matches, t, a);
    var j := ImageAt(policy, s, hashOf, t, a);
    hide IsLeft;
    SameSlot(t, matches, hashOf, j, i);
  }

  lemma LeftsAreImages<K, V>(policy: EntryPolicy<K, V>, s: Slots<K, V>, hashOf: K -> nat, matches: Match<K>,
                             t: Slots<K, V>)
    requires HoldsLeft(policy, s, hashOf, matches, t) && OnlyLeft(policy, s, hashOf, matches, t)
    requires forall a :: Alive(policy, s, a) ==> Left(policy, s, hashOf, matches, a) == Image(policy, s, hashOf, a)
    ensures IsImage(policy, s, hashOf, t)
  {
    hide Left, Image;
    assert HoldsImages(policy, s, hashOf, t) by {
      hide OnlyLeft;
    }
    hide HoldsLeft, HoldsImages;
  }

  /** The sweep yields the image of the live entries if and only if no live entry has a relocated
      key that differs from the stored one but matches it. */
  lemma LeftIsImageIff<K(!new), V>(policy: EntryPolicy<K, V>, s: Slots<K, V>, hashOf: K -> nat, matches: Match<K>,
                                   t: Slots<K, V>)
    requires IsMatch(matches, hashOf) && IsLeft(policy, s, hashOf, matches, t)
    ensures IsImage(policy, s, hashOf, t) <==> KeptKeysAreNew(policy, s, matches)
  {
    hide IsMatch, Apart, Findable;
    if IsImage(policy, s, hashOf, t) {
      hide IsImage, IsLeft;
      forall a | Alive(policy, s, a) && KeepsKey(policy, s, matches, a)
        ensures Relocated(policy, s, a).key == s[a].value.key
      {
        ImageKeepsNoOldKey(policy, s, hashOf, matches, t, a);
      }
    } else if KeptKeysAreNew(policy, s, matches) {
      forall a | Alive(policy, s, a)
        ensures Left(policy, s, hashOf, matches, a) == Image(policy, s, hashOf, a)
      {
      }
      hide Left, Image, KeptKeysAreNew;
      LeftsAreImages(policy, s, hashOf, matches, t);
      assert false;
    }
  }

  lemma ProgressHolds<K, V>(policy: EntryPolicy<K, V>, s: Slots<K, V>, hashOf: K -> nat, matches: Match<K>,
                            t: Slots<K, V>, place: map<int, int>)
    requires Progress(policy, s, hashOf, matches, t, |s|, place)
    ensures HoldsLeft(policy, s, hashOf, matches, t)
  {
    forall a | Alive(policy, s, a)
      ensures exists i :: 0 <= i < |t| && t[i] == Some(Left(policy, s, hashOf, matches, a))
    {
      assert t[place[a]] == Some(Left(policy, s, hashOf, matches, a));
    }
  }

  lemma ProgressOnly<K, V>(policy: EntryPolicy<K, V>, s: Slots<K, V>, hashOf: K -> nat, matches: Match<K>,
                           t: Slots<K, V>, place: map<int, int>)
    requires Progress(policy, s, hashOf, matches, t, |s|, place)
    ensures OnlyLeft(policy, s, hashOf, matches, t)
  {
    forall i | 0 <= i < |t| && t[i].Some?
      ensures exists a :: Alive(policy, s, a) && t[i] == Some(Left(policy, s, hashOf, matches, a))
    {
      var a :| a in place && place[a] == i;
      assert Alive(policy, s, a);
    }
  }

  lemma LeftApart<K(!new), V>(policy: EntryPolicy<K, V>, s: Slots<K, V>, hashOf: K -> nat, matches: Match<K>,
                              a: int, b: int)
    requires IsMatch(matches, hashOf) && Relocates(policy, s, matches)
    requires Alive(policy, s, a) && Alive(policy, s, b) && a != b
    ensures !matches(Left(policy, s, hashOf, matches, a).key, Left(policy, s, hashOf, matches, b).key)
  {
    var x, y := Left(policy, s, hashOf, matches, a).key, Left(policy, s, hashOf, matches, b).key;
    var x', y' := Relocated(policy, s, a).key, Relocated(policy, s, b).key;
    assert matches(x', x) && matches(y', y) && matches(y, y');
    assert matches(x, y) ==> matches(x', y) && matches(x', y');
  }

  lemma ProgressApart<K(!new), V>(policy: EntryPolicy<K, V>, s: Slots<K, V>, hashOf: K -> nat, matches: Match<K>,
                                  t: Slots<K, V>, place: map<int, int>, i: int, j: int)
    requires Progress(policy, s, hashOf, matches, t, |s|, place)
    requires IsMatch(matches, hashOf) && Relocates(policy, s, matches)
    requires 0 <= i < |t| && 0 <= j < |t| && i != j && t[i].Some? && t[j].Some?
    ensures !matches(t[i].value.key, t[j].value.key)
  {
    hide IsMatch, Relocates, KeepsKey;
    var a :| a in place && place[a] == i;
    var b :| b in place && place[b] == j;
    assert Alive(policy, s, a) && Alive(policy, s, b);
    assert t[i] == Some(Left(policy, s, hashOf, matches, a)) && t[j] == Some(Left(policy, s, hashOf, matches, b));
    hide Progress;
    LeftApart(policy, s, hashOf, matches, a, b);
  }

  lemma ProgressFindable<K, V>(policy: EntryPolicy<K, V>, s: Slots<K, V>, hashOf: K -> nat, matches: Match<K>,
                               t: Slots<K, V>, place: map<int, int>)
    requires Progress(policy, s, hashOf, matches, t, |s|, place)
    ensures Findable(t, hashOf)
  {
    forall i | 0 <= i < |t| && t[i].Some? ensures t[i].value.hash == hashOf(t[i].value.key) {
      var a :| a in place && place[a] == i;
      assert t[i] == Some(Left(policy, s, hashOf, matches, a));
    }
  }

  lemma ProgressDone<K(!new), V>(policy: EntryPolicy<K, V>, s: Slots<K, V>, hashOf: K -> nat, matches: Match<K>,
                                 t: Slots<K, V>, place: map<int, int>)
    requires Progress(policy, s, hashOf, matches, t, |s|, place)
    requires IsMatch(matches, hashOf) && Relocates(policy, s, matches)
    ensures IsLeft(policy, s, hashOf, matches, t) && Apart(t, matches) && Findable(t, hashOf)
  {
    hide HoldsLeft, OnlyLeft, IsMatch, Relocates, Progress, Findable;
    ProgressHolds(policy, s, hashOf, matches, t, place);
    ProgressOnly(policy, s, hashOf, matches, t, place);
    ProgressFindable(policy, s, hashOf, matches, t, place);
    forall i, j | 0 <= i < j < |t| && t[i].Some? && t[j].Some?
      ensures !matches(t[i].value.key, t[j].value.key)
    {
      ProgressApart(policy, s, hashOf, matches, t, place, i, j);
    }
  }

  /** Whatever key it is left under, each live entry is found by its relocated key, with its
      updated value. */
  lemma LeftIsFound<K(!new), V>(policy: EntryPolicy<K, V>, s: Slots<K, V>, hashOf: K -> nat, matches: Match<K>,
                                t: Slots<K, V>, a: int)
    requires IsMatch(matches, hashOf) && IsLeft(policy, s, hashOf, matches, t) && Alive(policy, s, a)
    ensures Find(Contents(t), matches, Relocated(policy, s, a).key) == Some(Relocated(policy, s, a).value)
  {
    hide OnlyLeft;
    var i :| 0 <= i < |t| && t[i] == Some(Left(policy, s, hashOf, matches, a));
    assert Hits(t, i, matches, Relocated(policy, s, a).key);
    HitIsFound(t, matches, hashOf, i, Relocated(policy, s, a).key);
  }

  /** And no other key: each is left by a live entry whose relocated key it matches. */
  lemma FoundIsLeft<K(!new), V>(policy: EntryPolicy<K, V>, s: Slots<K, V>, hashOf: K -> nat, matches: Match<K>,
                                t: Slots<K, V>, k: K) returns (a: int)
    requires IsMatch(matches, hashOf) && IsLeft(policy, s, hashOf, matches, t) && k in Contents(t)
    ensures Alive(policy, s, a) && matches(Relocated(policy, s, a).key, k)
  {
    hide HoldsLeft;
    var i := SlotOf(t, k);
    a :| Alive(policy, s, a) && t[i] == Some(Left(policy, s, hashOf, matches, a));
  }

  /** A map that holds exactly what the live entries end as. */
  ghost predicate IsLeftMap<K, V>(policy: EntryPolicy<K, V>, s: Slots<K, V>, hashOf: K -> nat, matches: Match<K>,
                                  m: map<K, V>) {
    && (forall a :: Alive(policy, s, a) ==>
          var e := Left(policy, s, hashOf, matches, a); e.key in m && m[e.key] == e.value)
    && (forall k :: k in m ==> exists a :: Alive(policy, s, a) && Left(policy, s, hashOf, matches, a).key == k)
  }

  lemma LeftIsLeftMap<K(!new), V>(policy: EntryPolicy<K, V>, s: Slots<K, V>, hashOf: K -> nat, matches: Match<K>,
                                  t: Slots<K, V>)
    requires IsMatch(matches, hashOf) && IsLeft(policy, s, hashOf, matches, t)
    ensures IsLeftMap(policy, s, hashOf, matches, Contents(t))
  {
    ContentsApart(t, matches, hashOf);
    hide IsMatch, Apart, Findable, Left, Contents, KeepsKey;
    forall a | Alive(policy, s, a)
      ensures var e := Left(policy, s, hashOf, matches, a); e.key in Contents(t) && Contents(t)[e.key] == e.value
    {
      hide OnlyLeft;
      var i := LeftAt(policy, s, hashOf, matches, t, a);
      ContentsAt(t, i);
    }
    forall k | k in Contents(t)
      ensures exists a :: Alive(policy, s, a) && Left(policy, s, hashOf, matches, a).key == k
    {
      hide HoldsLeft;
      var i := SlotOf(t, k);
      var a :| Alive(policy, s, a) && t[i] == Some(Left(policy, s, hashOf, matches, a));
    }
  }

  /** A map that holds exactly the relocated live entries. */
  ghost predicate IsImageMap<K, V>(policy: EntryPolicy<K, V>, s: Slots<K, V>, m: map<K, V>) {
    && (forall a :: Alive(policy, s, a) ==>
          var r := Relocated(policy, s, a); r.key in m && m[r.key] == r.value)
    && (forall k :: k in m ==> exists a :: Alive(policy, s, a) && Relocated(policy, s, a).key == k)
  }

  lemma LeftMapIsImageIff<K(!new), V>(policy: EntryPolicy<K, V>, s: Slots<K, V>, hashOf: K -> nat, matches: Match<K>,
                                      m: map<K, V>)
    requires IsLeftMap(policy, s, hashOf, matches, m) && ApartKeys(m, matches)
    ensures IsImageMap(policy, s, m) <==> KeptKeysAreNew(policy, s, matches)
  {
    if KeptKeysAreNew(policy, s, matches) {
      assert forall a :: Alive(policy, s, a) ==>
        Left(policy, s, hashOf, matches, a).key == Relocated(policy, s, a).key;
    }
    if IsImageMap(policy, s, m) {
      forall a | Alive(policy, s, a) && KeepsKey(policy, s, matches, a)
        ensures Relocated(policy, s, a).key == s[a].value.key
      {
        assert Left(policy, s, hashOf, matches, a).key in m && Relocated(policy, s, a).key in m;
      }
    }
  }

  /** When the sweep yields the image, each live entry is under its relocated key itself. */
  lemma ImageOfLive<K, V>(policy: EntryPolicy<K, V>, s: Slots<K, V>, hashOf: K -> nat, t: Slots<K, V>, a: int)
    requires IsImage(policy, s, hashOf, t) && UniqueKeys(t) && Alive(policy, s, a)
    ensures Relocated(policy, s, a).key in Contents(t)
    ensures Contents(t)[Relocated(policy, s, a).key] == Relocated(policy, s, a).value
  {
    hide IsImage;
    var i := ImageAt(policy, s, hashOf, t, a);
    ContentsAt(t, i);
  }

  /** And no other key: each comes from a live entry. */
  lemma LiveOfImage<K, V>(policy: EntryPolicy<K, V>, s: Slots<K, V>, hashOf: K -> nat, t: Slots<K, V>, k: K)
    returns (a: int)
    requires IsImage(policy, s, hashOf, t) && UniqueKeys(t) && k in Contents(t)
    ensures Alive(policy, s, a) && Relocated(policy, s, a).key == k
  {
    hide IsImage;
    var i := SlotOf(t, k);
    a := ImageFrom(policy, s, hashOf, t, i);
  }

  lemma SweepBegins<K(!new), V(!new)>(policy: EntryPolicy<K, V>, table: HashTable<K, V>)
    requires table.Valid() && Relocates(policy, table.slots, table.matches)
    ensures Sweepable(policy, table.slots, table.hashOf, table.matches) && IsMatch(table.matches, table.hashOf)
  {
  }

  /** GCRekeyableHashMap::traceWeak: removes dying entries, relocates the others, and puts those
      whose new key does not match the stored one back under their new key's hash, in whatever slot
      is free, even one still to be visited. */
  method TraceWeakRekeying<K(==, !new), V(!new)>(table: HashTable<K, V>, policy: EntryPolicy<K, V>)
    returns (any: bool)
    requires table.Valid() && Relocates(policy, table.slots, table.matches)
    modifies table
    ensures table.Valid() && IsLeft(policy, old(table.slots), table.hashOf, table.matches, table.slots)
    ensures IsImage(policy, old(table.slots), table.hashOf, table.slots)
       <==> KeptKeysAreNew(policy, old(table.slots), table.matches)
    ensures any <==> exists a :: Alive(policy, old(table.slots), a)
  {
    hide *;
    ghost var s := table.slots;
    SweepBegins(policy, table);
    ghost var place := SweepAll(table, policy);
    SweepEnds(policy, s, table.hashOf, table.matches, table.slots, place);
    BackInOrder(table);
    any := NextLive(table.slots, 0) < |table.slots|;
  }

  lemma BackInOrder<K(!new), V(!new)>(table: HashTable<K, V>)
    requires IsMatch(table.matches, table.hashOf) && Apart(table.slots, table.matches)
    requires Findable(table.slots, table.hashOf)
    ensures table.Valid()
  {
  }

  /** The loop of the sweep. */
  method SweepAll<K(==, !new), V(!new)>(table: HashTable<K, V>, policy: EntryPolicy<K, V>)
    returns (ghost place: map<int, int>)
    requires Sweepable(policy, table.slots, table.hashOf, table.matches)
    modifies table
    ensures Progress(policy, old(table.slots), table.hashOf, table.matches, table.slots, |old(table.slots)|, place)
  {
    hide Progress, Sweepable;
    ghost var s := table.slots;
    place := map[];
    ProgressStart(policy, s, table.hashOf, table.matches);
    ghost var done: nat := 0;
    var e := new Enum(table);
    while !e.Empty()
      invariant e.table == table && fresh(e)
      invariant e.cur == NextLive(table.slots, done) <= |table.slots|
      invariant 0 <= done <= |table.slots| == |s|
      invariant Progress(policy, s, table.hashOf, table.matches, table.slots, done, place)
      decreases |table.slots| - e.cur
    {
      SkipFree(policy, s, table.hashOf, table.matches, table.slots, done, e.cur, place);
      done := e.cur;
      var front := table.slots[e.cur].value;
      var r := policy.traceWeak(front.key, front.value);
      place := SweepFront(e, policy, s, r, place);
      done := done + 1;
      ProgressLength(policy, s, table.hashOf, table.matches, table.slots, done, place);
      e.PopFront();
    }
    SkipFree(policy, s, table.hashOf, table.matches, table.slots, done, |s|, place);
  }

  lemma SweepEnds<K(!new), V>(policy: EntryPolicy<K, V>, s: Slots<K, V>, hashOf: K -> nat, matches: Match<K>,
                              t: Slots<K, V>, place: map<int, int>)
    requires Sweepable(policy, s, hashOf, matches) && Progress(policy, s, hashOf, matches, t, |s|, place)
    ensures Apart(t, matches) && Findable(t, hashOf) && IsLeft(policy, s, hashOf, matches, t)
    ensures IsImage(policy, s, hashOf, t) <==> KeptKeysAreNew(policy, s, matches)
    ensures NextLive(t, 0) < |t| <==> exists a :: Alive(policy, s, a)
  {
    hide Apart, Findable, Relocates, IsMatch, IsLeft, IsImage, KeptKeysAreNew, Progress, Alive;
    ProgressDone(policy, s, hashOf, matches, t, place);
    LeftIsImageIff(policy, s, hashOf, matches, t);
    AnyLeft(policy, s, hashOf, matches, t, NextLive(t, 0));
  }

  /** The table is empty exactly when nothing was alive. */
  lemma AnyLeft<K, V>(policy: EntryPolicy<K, V>, s: Slots<K, V>, hashOf: K -> nat, matches: Match<K>,
                      t: Slots<K, V>, i: nat)
    requires IsLeft(policy, s, hashOf, matches, t)
    requires if i < |t| then t[i].Some? else forall j :: 0 <= j < |t| ==> t[j].None?
    ensures i < |t| <==> exists a :: Alive(policy, s, a)
  {
    if i < |t| {
      hide HoldsLeft;
      var a :| Alive(policy, s, a) && t[i] == Some(Left(policy, s, hashOf, matches, a));
    } else {
      hide OnlyLeft;
    }
  }

  /** What the slots at the start of a rekeying sweep are like. */
  ghost predicate Sweepable<K(!new), V>(policy: EntryPolicy<K, V>, s: Slots<K, V>, hashOf: K -> nat,
                                        matches: Match<K>) {
    IsMatch(matches, hashOf) && Apart(s, matches) && Findable(s, hashOf) && Relocates(policy, s, matches)
  }

  ghost predicate AtFront<K(!new), V>(policy: EntryPolicy<K, V>, s: Slots<K, V>, hashOf: K -> nat, matches: Match<K>,
                                      t: Slots<K, V>, cur: int, place: map<int, int>) {
    && Sweepable(policy, s, hashOf, matches) && Progress(policy, s, hashOf, matches, t, cur, place)
    && cur < |s| && t[cur].Some?
  }

  /** A turn of the sweep at an entry that dies: it is one of the original entries, and removed. */
  lemma TurnRemoves<K(!new), V>(policy: EntryPolicy<K, V>, s: Slots<K, V>, hashOf: K -> nat, matches: Match<K>,
                                t: Slots<K, V>, cur: int, place: map<int, int>)
    requires AtFront(policy, s, hashOf, matches, t, cur, place)
    requires !policy.traceWeak(t[cur].value.key, t[cur].value.value).alive
    ensures Progress(policy, s, hashOf, matches, t[cur := None], cur + 1, place) && Dies(policy, s, cur)
  {
    if s[cur].None? {
      Revisited(policy, s, hashOf, matches, t, cur, place);
      assert false;
    }
    ProgressRemove(policy, s, hashOf, matches, t, cur, place);
  }

  /** At an entry whose new key does not match: it is an original entry, and goes to slot at. */
  lemma TurnRekeys<K(!new), V>(policy: EntryPolicy<K, V>, s: Slots<K, V>, hashOf: K -> nat, matches: Match<K>,
                               t: Slots<K, V>, cur: int, place: map<int, int>, r: TracedEntry<K, V>, at: int)
    requires AtFront(policy, s, hashOf, matches, t, cur, place)
    requires r == policy.traceWeak(t[cur].value.key, t[cur].value.value)
    requires r.alive && !matches(r.key, t[cur].value.key) && 0 <= at < |t| && t[cur := None][at].None?
    ensures Progress(policy, s, hashOf, matches, t[cur := None][at := Some(Entry(hashOf(r.key), r.key, r.value))],
                     cur + 1, place[cur := at])
    ensures !Dies(policy, s, cur)
  {
    if s[cur].None? {
      Revisited(policy, s, hashOf, matches, t, cur, place);
      Reflexive(matches, hashOf, r.key);
      assert false;
    }
    hide IsMatch, Relocates;
    assert Left(policy, s, hashOf, matches, cur) == Entry(hashOf(r.key), r.key, r.value);
    ProgressMove(policy, s, hashOf, matches, t, cur, place, at);
  }

  /** At an entry whose key stays: it gets its new value; if it was relocated here before, that is the
      value it has. */
  lemma TurnKeeps<K(!new), V>(policy: EntryPolicy<K, V>, s: Slots<K, V>, hashOf: K -> nat, matches: Match<K>,
                              t: Slots<K, V>, cur: int, place: map<int, int>, r: TracedEntry<K, V>)
    returns (place': map<int, int>)
    requires AtFront(policy, s, hashOf, matches, t, cur, place)
    requires r == policy.traceWeak(t[cur].value.key, t[cur].value.value)
    requires r.alive && matches(r.key, t[cur].value.key)
    ensures Progress(policy, s, hashOf, matches, t[cur := Some(t[cur].value.(value := r.value))], cur + 1, place')
    ensures !Dies(policy, s, cur)
  {
    var u := t[cur := Some(t[cur].value.(value := r.value))];
    place' := place;
    if s[cur].None? {
      Revisited(policy, s, hashOf, matches, t, cur, place);
      ProgressSkip(policy, s, hashOf, matches, t, cur, place);
      assert u == t;
    } else {
      hide IsMatch, Relocates;
      assert u == t[cur := None][cur := Some(Left(policy, s, hashOf, matches, cur))];
      ProgressMove(policy, s, hashOf, matches, t, cur, place, cur);
      place' := place[cur := cur];
    }
  }

  /** One turn of the rekeying sweep. */
  method SweepFront<K(==, !new), V(!new)>(e: Enum<K, V>, policy: EntryPolicy<K, V>, ghost s: Slots<K, V>,
                                          r: TracedEntry<K, V>, ghost place: map<int, int>)
    returns (ghost place': map<int, int>)
    requires Sweepable(policy, s, e.table.hashOf, e.table.matches)
    requires Progress(policy, s, e.table.hashOf, e.table.matches, e.table.slots, e.cur, place)
    requires !e.Empty() && e.table.slots[e.cur].Some?
    requires r == policy.traceWeak(e.table.slots[e.cur].value.key, e.table.slots[e.cur].value.value)
    modifies e.table
    ensures Progress(policy, s, e.table.hashOf, e.table.matches, e.table.slots, e.cur + 1, place')
  {
    ghost var t, h, m := e.table.slots, e.table.hashOf, e.table.matches;
    ProgressLength(policy, s, h, m, t, e.cur, place);
    hide Sweepable, Progress;
    place' := place;
    var front := e.table.slots[e.cur].value;
    e.table.slots := e.table.slots[e.cur := Some(Entry(front.hash, front.key, r.value))];
    if !r.alive {
      e.RemoveFront();
      assert e.table.slots == t[e.cur := None];
      TurnRemoves(policy, s, h, m, t, e.cur, place);
    } else if !e.table.matches(r.key, front.key) {
      var at := e.RekeyFront(r.key);
      assert e.table.slots == t[e.cur := None][at := Some(Entry(h(r.key), r.key, r.value))];
      TurnRekeys(policy, s, h, m, t, e.cur, place, r, at);
      place' := place[e.cur as int := at as int];
    } else {
      place' := TurnKeeps(policy, s, h, m, t, e.cur, place, r);
    }
  }

  lemma {:induction false} SkipFree<K, V>(policy: EntryPolicy<K, V>, s: Slots<K, V>, hashOf: K -> nat,
                                          matches: Match<K>, t: Slots<K, V>, lo: int, hi: int, place: map<int, int>)
    requires Progress(policy, s, hashOf, matches, t, lo, place) && lo <= hi <= |s|
    requires forall i :: lo <= i < hi ==> t[i].None?
    ensures Progress(policy, s, hashOf, matches, t, hi, place)
    decreases hi - lo
  {
    if lo < hi {
      ProgressSkip(policy, s, hashOf, matches, t, lo, place);
      SkipFree(policy, s, hashOf, matches, t, lo + 1, hi, place);
    }
  }
}
