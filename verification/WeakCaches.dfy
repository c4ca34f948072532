/** A weak hash map that need not be swept at once: while its barrier is set, dead entries may
    still be in the table, but every operation behaves as if they were gone. */
module WeakCaches {
  import opened Options
  import opened HashTables
  import opened GCPolicy
  import opened WeakSweeping

  // ----- what a client sees -----

  datatype Op<K, V> = Lookup(k: K) | LookupOrAdd(k: K, v: V) | Put(k: K, v: V) | Remove(k: K)

  /** What an operation answers when found is under its key: puts and removals answer nothing. */
  function Answer<K, V>(op: Op<K, V>, found: Option<V>): Option<V> {
    match op
    case Lookup(_) => found
    case LookupOrAdd(_, _) => found
    case Put(_, _) => None
    case Remove(_) => None
  }

  /** What is under its key afterwards. */
  function After<K, V>(op: Op<K, V>, found: Option<V>): Option<V> {
    match op
    case Lookup(_) => found
    case LookupOrAdd(_, v) => if found.Some? then found else Some(v)
    case Put(_, v) => Some(v)
    case Remove(_) => None
  }

  /** What a client sees under q after some operations on a dictionary that starts as m: each
      operation touches what is under the keys that match its own, and nothing else. */
  ghost function Seen<K, V>(m: map<K, V>, matches: Match<K>, ops: seq<Op<K, V>>, q: K): Option<V> {
    if ops == [] then Find(m, matches, q)
    else
      var before, op := ops[..|ops| - 1], ops[|ops| - 1];
      if matches(op.k, q) then After(op, Seen(m, matches, before, op.k)) else Seen(m, matches, before, q)
  }

  ghost function SeenNext<K, V>(m: map<K, V>, matches: Match<K>, op: Op<K, V>, q: K): Option<V> {
    if matches(op.k, q) then After(op, Find(m, matches, op.k)) else Find(m, matches, q)
  }

  /** The same on plain maps, where only equal keys match. */
  function Effect<K, V>(m: map<K, V>, op: Op<K, V>): map<K, V> {
    match op
    case Lookup(_) => m
    case LookupOrAdd(k, v) => if k in m then m else m[k := v]
    case Put(k, v) => m[k := v]
    case Remove(k) => m - {k}
  }

  function EffectOfAll<K, V>(m: map<K, V>, ops: seq<Op<K, V>>): map<K, V> {
    if ops == [] then m else Effect(EffectOfAll(m, ops[..|ops| - 1]), ops[|ops| - 1])
  }

  lemma {:induction false} SeenOnPlainMaps<K(!new), V>(m: map<K, V>, matches: Match<K>, ops: seq<Op<K, V>>, q: K)
    requires forall x, y :: matches(x, y) <==> x == y
    ensures Seen(m, matches, ops, q) == Find(EffectOfAll(m, ops), matches, q)
    decreases |ops|
  {
    PlainFind(EffectOfAll(m, ops), matches, q);
    if ops != [] {
      var before, op := ops[..|ops| - 1], ops[|ops| - 1];
      SeenOnPlainMaps(m, matches, before, q);
      PlainFind(EffectOfAll(m, before), matches, q);
    }
  }

  /** A dictionary in which one sees what the operations say is the plain map they make. */
  lemma PlainMapIsSeen<K(!new), V>(m: map<K, V>, n: map<K, V>, matches: Match<K>, ops: seq<Op<K, V>>)
    requires forall x, y :: matches(x, y) <==> x == y
    requires forall q :: Find(n, matches, q) == Seen(m, matches, ops, q)
    ensures n == EffectOfAll(m, ops)
  {
    forall q ensures (q in n <==> q in EffectOfAll(m, ops)) && (q in n ==> n[q] == EffectOfAll(m, ops)[q]) {
      SeenOnPlainMaps(m, matches, ops, q);
      PlainFind(n, matches, q);
      PlainFind(EffectOfAll(m, ops), matches, q);
    }
  }

  lemma SeenAtFirst<K, V>(m: map<K, V>, matches: Match<K>)
    ensures forall q :: Seen(m, matches, [], q) == Find(m, matches, q)
  {
  }

  /** One more operation on what is seen after the first i. */
  lemma SeenStep<K, V>(m: map<K, V>, n: map<K, V>, matches: Match<K>, ops: seq<Op<K, V>>, i: nat)
    requires i < |ops| && forall q :: Find(n, matches, q) == Seen(m, matches, ops[..i], q)
    ensures forall q :: SeenNext(n, matches, ops[i], q) == Seen(m, matches, ops[..i + 1], q)
  {
    assert ops[..i + 1][..i] == ops[..i] && ops[..i + 1][i] == ops[i];
  }

  lemma PlainAnswers<K(!new), V>(m: map<K, V>, matches: Match<K>, ops: seq<Op<K, V>>)
    requires forall x, y :: matches(x, y) <==> x == y
    ensures forall i :: 0 <= i < |ops| ==>
      var before := EffectOfAll(m, ops[..i]);
      Seen(m, matches, ops[..i], ops[i].k) == if ops[i].k in before then Some(before[ops[i].k]) else None
  {
    forall i | 0 <= i < |ops|
      ensures var before := EffectOfAll(m, ops[..i]);
        Seen(m, matches, ops[..i], ops[i].k) == if ops[i].k in before then Some(before[ops[i].k]) else None
    {
      SeenOnPlainMaps(m, matches, ops[..i], ops[i].k);
      PlainFind(EffectOfAll(m, ops[..i]), matches, ops[i].k);
    }
  }

  /** The keys that can come into a table that starts as m. */
  ghost function KeysInPlay<K, V>(m: map<K, V>, ops: seq<Op<K, V>>): set<K> {
    m.Keys + set i | 0 <= i < |ops| :: ops[i].k
  }

  /** Whether the operation adds no entry that is dead already: an addition ends under its own key, a
      put under one of the keys that matches it. */
  ghost predicate AddsLive<K, V>(policy: EntryPolicy<K, V>, matches: Match<K>, keys: set<K>, op: Op<K, V>) {
    match op
    case Lookup(_) => true
    case LookupOrAdd(k, v) => !policy.needsSweep(k, v)
    case Put(k, v) => forall x :: x in keys && matches(x, k) ==> !policy.needsSweep(x, v)
    case Remove(_) => true
  }

  /** What the operation may leave in the table that was not there before. */
  predicate MayAdd<K(==), V(==)>(matches: Match<K>, op: Op<K, V>, k: K, v: V) {
    match op
    case Lookup(_) => false
    case LookupOrAdd(k', v') => k == k' && v == v'
    case Put(k', v') => matches(k, k') && v == v'
    case Remove(_) => false
  }

  /** An entry that was in the table at first or that one of the first n operations may have added. */
  ghost predicate InPlay<K, V>(m: map<K, V>, matches: Match<K>, ops: seq<Op<K, V>>, n: nat, k: K, v: V) {
    || (k in m && m[k] == v)
    || (k in KeysInPlay(m, ops) && exists i :: 0 <= i < n && i < |ops| && MayAdd(matches, ops[i], k, v))
  }

  /** The entries of t are those of m, but for what one operation may have added. */
  ghost predicate OnlyAdds<K, V>(m: map<K, V>, matches: Match<K>, op: Op<K, V>, t: map<K, V>) {
    forall k :: k in t ==>
      (k in m && m[k] == t[k]) || ((k in m || k == op.k) && MayAdd(matches, op, k, t[k]))
  }

  ghost predicate AllInPlay<K, V>(m: map<K, V>, matches: Match<K>, ops: seq<Op<K, V>>, n: nat, t: map<K, V>) {
    forall k :: k in t ==> InPlay(m, matches, ops, n, k, t[k])
  }

  lemma InPlayStep<K, V>(m: map<K, V>, matches: Match<K>, ops: seq<Op<K, V>>, n: nat, t: map<K, V>, u: map<K, V>)
    requires n < |ops| && AllInPlay(m, matches, ops, n, t) && OnlyAdds(t, matches, ops[n], u)
    ensures AllInPlay(m, matches, ops, n + 1, u)
  {
    hide MayAdd;
    forall k | k in u ensures InPlay(m, matches, ops, n + 1, k, u[k]) {
      if k in t && t[k] == u[k] {
        assert InPlay(m, matches, ops, n, k, t[k]);
      } else {
        assert k in t ==> InPlay(m, matches, ops, n, k, t[k]);
        assert MayAdd(matches, ops[n], k, u[k]) && ops[n].k in KeysInPlay(m, ops);
      }
    }
  }

  lemma AddsLiveNow<K, V>(policy: EntryPolicy<K, V>, m: map<K, V>, matches: Match<K>, ops: seq<Op<K, V>>, n: nat,
                          t: map<K, V>)
    requires n < |ops| && AllInPlay(m, matches, ops, n, t)
    requires AddsLive(policy, matches, KeysInPlay(m, ops), ops[n])
    ensures AddsLive(policy, matches, t.Keys + {ops[n].k}, ops[n])
  {
    forall x | x in t.Keys + {ops[n].k} ensures x in KeysInPlay(m, ops) {
      if x in t {
        assert InPlay(m, matches, ops, n, x, t[x]);
      }
    }
  }

  // ----- the live part of a table under the operations -----

  lemma LiveOfRemoved<K, V>(policy: EntryPolicy<K, V>, m: map<K, V>, k: K)
    ensures LiveOf(policy, m - {k}) == LiveOf(policy, m) - {k}
  {
  }

  /** Removing an entry that is dead does not show. */
  lemma LiveWithoutDead<K, V>(policy: EntryPolicy<K, V>, m: map<K, V>, k: K)
    requires k in m && policy.needsSweep(k, m[k])
    ensures LiveOf(policy, m - {k}) == LiveOf(policy, m)
  {
  }

  lemma LiveOfPut<K, V>(policy: EntryPolicy<K, V>, m: map<K, V>, k: K, v: V)
    ensures LiveOf(policy, m[k := v])
         == if policy.needsSweep(k, v) then LiveOf(policy, m) - {k} else LiveOf(policy, m)[k := v]
  {
  }

  /** In the live part one finds a matching entry of the table, unless it is dead. */
  lemma FindLive<K(!new), V>(policy: EntryPolicy<K, V>, m: map<K, V>, matches: Match<K>, hashOf: K -> nat, k: K)
    requires IsMatch(matches, hashOf) && ApartKeys(m, matches)
    ensures ApartKeys(LiveOf(policy, m), matches)
    ensures !HasMatch(m, matches, k) ==> !HasMatch(LiveOf(policy, m), matches, k)
    ensures HasMatch(m, matches, k) ==>
      var x := KeyIn(m, matches, k);
      if policy.needsSweep(x, m[x]) then !HasMatch(LiveOf(policy, m), matches, k)
      else HasMatch(LiveOf(policy, m), matches, k) && KeyIn(LiveOf(policy, m), matches, k) == x
  {
    var live := LiveOf(policy, m);
    if HasMatch(live, matches, k) {
      FoundAt(m, matches, hashOf, KeyIn(live, matches, k), k);
    }
    if HasMatch(m, matches, k) {
      var x := KeyIn(m, matches, k);
      if x in live {
        FoundAt(live, matches, hashOf, x, k);
      }
    }
  }

  class WeakCache<K(==, !new), V(!new)> {
    const table: HashTable<K, V>
    /** The barrier tracer, as the entry policy taken at it. */
    var barrier: Option<EntryPolicy<K, V>>

    ghost predicate Valid()
      reads this, table
    {
      table.Valid()
    }

    /** The map that a client sees. */
    ghost function Live(): map<K, V>
      reads this, table
    {
      if barrier.Some? then LiveOf(barrier.value, table.Map()) else table.Map()
    }

    predicate IsDead(k: K, v: V)
      reads this
    {
      barrier.Some? && barrier.value.needsSweep(k, v)
    }

    constructor (hashOf: K -> nat, matches: Match<K>)
      requires IsMatch(matches, hashOf)
      ensures Valid() && fresh(table) && barrier == None && table.Map() == map[]
      ensures table.hashOf == hashOf && table.matches == matches
    {
      table := new HashTable(hashOf, matches);
      barrier := None;
    }

    lemma LiveIsApart()
      requires Valid()
      ensures ApartKeys(table.Map(), table.matches) && ApartKeys(Live(), table.matches)
    {
      table.MapApart();
    }

    /** How a lookup in the live part goes when the table has a matching entry, and when not. */
    lemma LookupLive(k: K)
      requires Valid()
      ensures !HasMatch(table.Map(), table.matches, k) ==> !HasMatch(Live(), table.matches, k)
      ensures HasMatch(table.Map(), table.matches, k) ==>
        var x := KeyIn(table.Map(), table.matches, k);
        if IsDead(x, table.Map()[x]) then !HasMatch(Live(), table.matches, k)
        else
          && HasMatch(Live(), table.matches, k) && KeyIn(Live(), table.matches, k) == x
          && Find(Live(), table.matches, k) == Find(table.Map(), table.matches, k)
    {
      table.MapApart();
      if barrier.Some? {
        FindLive(barrier.value, table.Map(), table.matches, table.hashOf, k);
      }
    }

    /** The barrier is switched on when it is off, and off when it is on; the table is untouched. */
    method SetIncrementalBarrierTracer(policy: Option<EntryPolicy<K, V>>)
      requires Valid() && barrier.Some? != policy.Some?
      modifies this`barrier
      ensures Valid() && barrier == policy && table.Map() == old(table.Map())
    {
      barrier := policy;
    }

    /** A dead entry that is found is removed and not reported. Not finding a key means that the
        table has no matching entry at all, dead or live. */
    method Lookup(k: K) returns (p: Option<nat>)
      requires Valid()
      modifies table
      ensures Valid() && Live() == old(Live())
      ensures p.Some? <==> HasMatch(Live(), table.matches, k)
      ensures p.Some? ==>
        && Hits(table.slots, p.value, table.matches, k)
        && Find(Live(), table.matches, k) == Some(table.slots[p.value].value.value)
        && table.slots[p.value].value.key == KeyIn(Live(), table.matches, k)
      ensures p.None? ==> !HasMatch(table.Map(), table.matches, k)
      ensures p.Some? || !HasMatch(old(table.Map()), table.matches, k) ==> table.Map() == old(table.Map())
      ensures p.None? && HasMatch(old(table.Map()), table.matches, k) ==>
        table.Map() == old(table.Map()) - {KeyIn(old(table.Map()), table.matches, k)}
    {
      hide IsMatch, Apart, Contents, Findable, HasMatch, LiveOf;
      LookupLive(k);
      p := table.Lookup(k);
      if barrier.Some? && p.Some? {
        var e := table.slots[p.value].value;
        if barrier.value.needsSweep(e.key, e.value) {
          RemoveDead(p.value, k);
          p := None;
        }
      }
    }

    /** Removing a dead entry that matches a key does not show, and leaves none that matches. */
    method RemoveDead(i: nat, k: K)
      requires Valid() && Hits(table.slots, i, table.matches, k)
      requires IsDead(table.slots[i].value.key, table.slots[i].value.value)
      modifies table
      ensures Valid() && Live() == old(Live()) && !HasMatch(table.Map(), table.matches, k)
      ensures HasMatch(old(table.Map()), table.matches, k)
      ensures table.Map() == old(table.Map()) - {KeyIn(old(table.Map()), table.matches, k)}
    {
      hide IsMatch, Apart, Contents, Findable, LiveOf, HasMatch;
      table.MapApart();
      HitIsFound(table.slots, table.matches, table.hashOf, i, k);
      FindAfterRemove(table.Map(), table.matches, table.hashOf, table.slots[i].value.key, k);
      LiveWithoutDead(barrier.value, table.Map(), table.slots[i].value.key);
      table.RemoveAt(i);
    }

    method Has(k: K) returns (found: bool)
      requires Valid()
      modifies table
      ensures Valid() && Live() == old(Live()) && (found <==> HasMatch(Live(), table.matches, k))
    {
      var p := Lookup(k);
      found := p.Some?;
    }

    /** Like Lookup, and looks again after removing a dead entry, so that a result that is not
        found is good for adding at. */
    method LookupForAdd(k: K) returns (p: Option<nat>)
      requires Valid()
      modifies table
      ensures Valid() && Live() == old(Live())
      ensures p.Some? <==> HasMatch(Live(), table.matches, k)
      ensures p.Some? ==>
        && Hits(table.slots, p.value, table.matches, k)
        && Find(Live(), table.matches, k) == Some(table.slots[p.value].value.value)
        && table.slots[p.value].value.key == KeyIn(Live(), table.matches, k)
      ensures p.None? ==> !HasMatch(table.Map(), table.matches, k)
      ensures p.Some? || !HasMatch(old(table.Map()), table.matches, k) ==> table.Map() == old(table.Map())
      ensures p.None? && HasMatch(old(table.Map()), table.matches, k) ==>
        table.Map() == old(table.Map()) - {KeyIn(old(table.Map()), table.matches, k)}
    {
      hide IsMatch, Apart, Contents, Findable, HasMatch, LiveOf;
      LookupLive(k);
      p := table.Lookup(k);
      if barrier.Some? && p.Some? {
        var e := table.slots[p.value].value;
        if barrier.value.needsSweep(e.key, e.value) {
          RemoveDead(p.value, k);
          p := table.Lookup(k);
        }
      }
    }

    /** Adds an entry; one that is dead already does not show. */
    method Add(k: K, v: V)
      requires Valid() && !HasMatch(table.Map(), table.matches, k)
      modifies table
      ensures Valid() && table.Map() == old(table.Map())[k := v]
      ensures Live() == if IsDead(k, v) then old(Live()) - {k} else old(Live())[k := v]
    {
      if barrier.Some? {
        LiveOfPut(barrier.value, table.Map(), k, v);
      }
      table.PutNew(k, v);
    }

    /** put goes to the table directly. Over an entry with a matching key, dead or live, it leaves
        that key in place; the new value is seen if and only if it is not dead under the key that
        is left. */
    method Put(k: K, v: V) returns (ghost left: K)
      requires Valid()
      modifies table
      ensures Valid() && table.Map() == old(table.Map())[left := v] && table.matches(left, k)
      ensures left == if HasMatch(old(table.Map()), table.matches, k)
                      then KeyIn(old(table.Map()), table.matches, k) else k
      ensures Live() == if IsDead(left, v) then old(Live()) - {left} else old(Live())[left := v]
      ensures Find(Live(), table.matches, k) == Some(v) <==> !IsDead(left, v)
    {
      hide IsMatch, Apart, Contents, Findable, LiveOf;
      ghost var m := table.Map();
      table.MapApart();
      left := table.Put(k, v);
      if barrier.Some? {
        LiveOfPut(barrier.value, m, left, v);
      }
      table.MapApart();
      FoundAt(table.Map(), table.matches, table.hashOf, left, k);
      LookupLive(k);
    }

    method RemovePtr(p: nat)
      requires Valid() && p < |table.slots| && table.slots[p].Some?
      modifies table
      ensures Valid() && Live() == old(Live()) - {old(table.slots)[p].value.key}
      ensures table.Map() == old(table.Map()) - {old(table.slots)[p].value.key}
    {
      if barrier.Some? {
        LiveOfRemoved(barrier.value, table.Map(), table.slots[p].value.key);
      }
      table.RemoveAt(p);
    }

    /** Afterwards the table has no matching entry. */
    method Remove(k: K)
      requires Valid()
      modifies table
      ensures Valid() && !HasMatch(table.Map(), table.matches, k)
      ensures Live() == if HasMatch(old(Live()), table.matches, k)
                        then old(Live()) - {KeyIn(old(Live()), table.matches, k)} else old(Live())
      ensures forall x :: x in table.Map() ==> x in old(table.Map()) && table.Map()[x] == old(table.Map())[x]
    {
      hide IsMatch, Apart, Contents, Findable, LiveOf, HasMatch;
      var p := Lookup(k);
      if p.Some? {
        table.MapApart();
        HitIsFound(table.slots, table.matches, table.hashOf, p.value, k);
        FindAfterRemove(table.Map(), table.matches, table.hashOf, table.slots[p.value].value.key, k);
        RemovePtr(p.value);
      }
    }

    /** Sweeps every entry where it is. The table is in order afterwards if and only if relocation
        changed no survivor's hash and left no two survivors with matching keys. With the policy
        of the barrier, when nothing has moved, it ends as exactly what clients saw all along. */
    method TraceWeak(policy: EntryPolicy<K, V>) returns (steps: nat)
      requires Valid()
      modifies table
      ensures table.slots == Swept(policy, old(table.slots)) && steps == |old(table.Map())|
      ensures Valid() <==>
        && (forall i :: Alive(policy, old(table.slots), i) ==>
              table.hashOf(Relocated(policy, old(table.slots), i).key) == table.hashOf(old(table.slots)[i].value.key))
        && (forall i, j :: Alive(policy, old(table.slots), i) && Alive(policy, old(table.slots), j) && i != j ==>
              !table.matches(Relocated(policy, old(table.slots), i).key, Relocated(policy, old(table.slots), j).key))
      ensures barrier == Some(policy) && AgreesAndStays(policy, old(table.Map())) ==>
        Valid() && table.Map() == old(Live()) && Live() == old(Live())
    {
      steps := Count();
      table.MapApart();
      ghost var s := table.slots;
      SweptIsValidIff(policy, s, table.hashOf, table.matches);
      if AgreesAndStays(policy, table.Map()) {
        SweptInPlace(policy, s);
        LiveOfLive(policy, table.Map());
      }
      hide Alive, Relocated, Contents, AgreesAndStays;
      TraceWeakEntries(table, policy);
    }

    method Count() returns (n: nat)
      requires Valid()
      ensures n == |table.Map()|
    {
      n := 0;
      ghost var seen: set<K> := {};
      for i := 0 to |table.slots|
        invariant n == |seen|
        invariant forall k :: k in seen <==> exists j :: 0 <= j < i && Holds(table.slots, j, k)
      {
        if table.slots[i].Some? {
          ghost var k := table.slots[i].value.key;
          assert Holds(table.slots, i, k);
          n := n + 1;
          seen := seen + {k};
        }
      }
      KeysSeen(table.slots, seen);
    }

    /** One operation of a client, with its answer. */
    method Do(op: Op<K, V>) returns (answer: Option<V>)
      requires Valid()
      requires barrier.Some? ==> AddsLive(barrier.value, table.matches, table.Map().Keys + {op.k}, op)
      modifies table
      ensures Valid() && answer == Answer(op, Find(old(Live()), table.matches, op.k))
      ensures op.Lookup? || op.LookupOrAdd? ==> answer == Find(old(Live()), table.matches, op.k)
      ensures op.Put? || op.Remove? ==> answer == None
      ensures op.Lookup? ==> Live() == old(Live())
      ensures op.LookupOrAdd? ==>
        Find(Live(), table.matches, op.k) == if answer.Some? then answer else Some(op.v)
      ensures op.Put? ==> Find(Live(), table.matches, op.k) == Some(op.v)
      ensures op.Remove? ==> Find(Live(), table.matches, op.k) == None
      ensures forall q :: !table.matches(op.k, q) ==>
        Find(Live(), table.matches, q) == Find(old(Live()), table.matches, q)
      ensures OnlyAdds(old(table.Map()), table.matches, op, table.Map())
      ensures forall q :: Find(Live(), table.matches, q) == SeenNext(old(Live()), table.matches, op, q)
    {
      hide IsMatch, Apart, Contents, Findable, LiveOf, HasMatch;
      ghost var m := Live();
      LiveIsApart();
      Reflexive(table.matches, table.hashOf, op.k);
      answer := None;
      match op
      case Lookup(k) =>
        var p := Lookup(k);
        if p.Some? {
          answer := Some(table.slots[p.value].value.value);
        }
        SeenSame(m, table.matches, table.hashOf, k);
      case LookupOrAdd(k, v) =>
        var p := LookupForAdd(k);
        if p.Some? {
          answer := Some(table.slots[p.value].value.value);
          SeenSame(m, table.matches, table.hashOf, k);
        } else {
          SeenPut(m, table.matches, table.hashOf, k, k, v);
          Add(k, v);
        }
      case Put(k, v) =>
        LookupLive(k);
        ghost var left := Put(k, v);
        SameClass(m, table.matches, table.hashOf, left, k, k);
        SeenPut(m, table.matches, table.hashOf, left, k, v);
      case Remove(k) =>
        SeenRemove(m, table.matches, table.hashOf, k);
        Remove(k);
    }

    /** Any sequence of operations, whether or not the barrier is set, answers as a dictionary of
        only the live entries would. */
    method Run(ops: seq<Op<K, V>>) returns (answers: seq<Option<V>>)
      requires Valid()
      requires barrier.Some? ==> forall i :: 0 <= i < |ops| ==>
        AddsLive(barrier.value, table.matches, KeysInPlay(table.Map(), ops), ops[i])
      modifies table
      ensures Valid() && |answers| == |ops|
      ensures forall q :: Find(Live(), table.matches, q) == Seen(old(Live()), table.matches, ops, q)
      ensures forall i :: 0 <= i < |ops| ==>
        answers[i] == Answer(ops[i], Seen(old(Live()), table.matches, ops[..i], ops[i].k))
      ensures forall i :: 0 <= i < |ops| ==>
        answers[i] == if ops[i].Lookup? || ops[i].LookupOrAdd?
                      then Seen(old(Live()), table.matches, ops[..i], ops[i].k) else None
      ensures AllInPlay(old(table.Map()), table.matches, ops, |ops|, table.Map())
    {
      hide WeakCache.Valid, WeakCache.Live, After, AddsLive, Find, Seen, SeenNext, Answer, OnlyAdds, KeysInPlay,
        MayAdd;
      ghost var m := table.Map();
      SeenAtFirst(Live(), table.matches);
      assert ops[..0] == [];
      answers := [];
      for i := 0 to |ops|
        invariant Valid() && |answers| == i
        invariant forall q :: Find(Live(), table.matches, q) == Seen(old(Live()), table.matches, ops[..i], q)
        invariant forall j :: 0 <= j < i ==>
          answers[j] == Answer(ops[j], Seen(old(Live()), table.matches, ops[..j], ops[j].k))
        invariant forall j :: 0 <= j < i ==>
          answers[j] == if ops[j].Lookup? || ops[j].LookupOrAdd?
                        then Seen(old(Live()), table.matches, ops[..j], ops[j].k) else None
        invariant AllInPlay(m, table.matches, ops, i, table.Map())
      {
        ghost var t := table.Map();
        if barrier.Some? {
          AddsLiveNow(barrier.value, m, table.matches, ops, i, t);
        }
        SeenStep(old(Live()), Live(), table.matches, ops, i);
        var a := Do(ops[i]);
        InPlayStep(m, table.matches, ops, i, t, table.Map());
        answers := answers + [a];
      }
      assert ops[..|ops|] == ops;
    }

    /** The life of a cache from one sweep to the end of the next: the barrier is set, clients go on,
        and the table is swept. When the policy agrees with itself on the entries there are and moves
        none of them, the table ends as a dictionary of the entries that were live at first would after
        the same operations. */
    method Life(policy: EntryPolicy<K, V>, ops: seq<Op<K, V>>) returns (answers: seq<Option<V>>)
      requires Valid() && barrier == None && Steady(policy, table.Map(), table.matches, ops)
      requires forall i :: 0 <= i < |ops| ==>
        AddsLive(policy, table.matches, KeysInPlay(table.Map(), ops), ops[i])
      modifies this`barrier, table
      ensures Valid() && barrier == None && |answers| == |ops|
      ensures var m := LiveOf(policy, old(table.Map()));
        && (forall q :: Find(table.Map(), table.matches, q) == Seen(m, table.matches, ops, q))
        && (forall i :: 0 <= i < |ops| ==>
              answers[i] == if ops[i].Lookup? || ops[i].LookupOrAdd?
                            then Seen(m, table.matches, ops[..i], ops[i].k) else None)
        && ((forall x, y :: table.matches(x, y) <==> x == y) ==>
              && table.Map() == EffectOfAll(m, ops)
              && forall i :: 0 <= i < |ops| && (ops[i].Lookup? || ops[i].LookupOrAdd?) ==>
                   var before := EffectOfAll(m, ops[..i]);
                   answers[i] == if ops[i].k in before then Some(before[ops[i].k]) else None)
    {
      hide IsMatch, Apart, Contents, Findable, LiveOf, HasMatch, Find, AddsLive, Seen, EffectOfAll, Alive, Relocated,
        Steady, AllInPlay, AgreesAndStays;
      ghost var m, all := LiveOf(policy, table.Map()), table.Map();
      SetIncrementalBarrierTracer(Some(policy));
      answers := Run(ops);
      SteadyOn(policy, all, table.matches, ops, table.Map());
      var _ := TraceWeak(policy);
      SetIncrementalBarrierTracer(None);
      if forall x, y :: table.matches(x, y) <==> x == y {
        PlainMapIsSeen(m, table.Map(), table.matches, ops);
        PlainAnswers(m, table.matches, ops);
      }
    }
  }

  /** A policy that agrees with itself on the entries at first and those the operations may add, and
      moves none of them. */
  ghost predicate Steady<K(!new), V(!new)>(policy: EntryPolicy<K, V>, m: map<K, V>, matches: Match<K>,
                                           ops: seq<Op<K, V>>) {
    forall k, v :: InPlay(m, matches, ops, |ops|, k, v) ==>
      && policy.AgreesOn(k, v)
      && (policy.traceWeak(k, v).alive ==> policy.traceWeak(k, v) == TracedEntry(true, k, v))
  }

  lemma SteadyOn<K(!new), V(!new)>(policy: EntryPolicy<K, V>, m: map<K, V>, matches: Match<K>, ops: seq<Op<K, V>>,
                                   t: map<K, V>)
    requires Steady(policy, m, matches, ops) && AllInPlay(m, matches, ops, |ops|, t)
    ensures AgreesAndStays(policy, t)
  {
    hide InPlay;
    forall k | k in t
      ensures policy.AgreesOn(k, t[k])
      ensures policy.traceWeak(k, t[k]).alive ==> policy.traceWeak(k, t[k]) == TracedEntry(true, k, t[k])
    {
      assert InPlay(m, matches, ops, |ops|, k, t[k]);
    }
  }

  lemma SameClass<K(!new), V>(m: map<K, V>, matches: Match<K>, hashOf: K -> nat, x: K, k: K, q: K)
    requires IsMatch(matches, hashOf) && ApartKeys(m, matches) && matches(x, k)
    ensures matches(x, q) <==> matches(k, q)
    ensures matches(k, q) ==> Find(m, matches, q) == Find(m, matches, k)
    ensures HasMatch(m, matches, x) <==> HasMatch(m, matches, k)
  {
    assert matches(k, x);
    SameFind(m, matches, hashOf, x, k);
    SameFind(m, matches, hashOf, k, x);
    if matches(k, q) {
      assert matches(q, k);
      SameFind(m, matches, hashOf, k, q);
      SameFind(m, matches, hashOf, q, k);
    }
  }

  lemma SameFind<K(!new), V>(m: map<K, V>, matches: Match<K>, hashOf: K -> nat, x: K, y: K)
    requires IsMatch(matches, hashOf) && ApartKeys(m, matches) && matches(x, y)
    ensures HasMatch(m, matches, x) ==> HasMatch(m, matches, y) && Find(m, matches, x) == Find(m, matches, y)
  {
    if HasMatch(m, matches, x) {
      FoundAt(m, matches, hashOf, KeyIn(m, matches, x), y);
    }
  }

  lemma SeenSame<K(!new), V>(m: map<K, V>, matches: Match<K>, hashOf: K -> nat, k: K)
    requires IsMatch(matches, hashOf) && ApartKeys(m, matches)
    ensures forall q :: matches(k, q) ==> Find(m, matches, q) == Find(m, matches, k)
  {
    forall q | matches(k, q) ensures Find(m, matches, q) == Find(m, matches, k) {
      SameClass(m, matches, hashOf, k, k, q);
    }
  }

  lemma SeenPut<K(!new), V>(m: map<K, V>, matches: Match<K>, hashOf: K -> nat, x: K, k: K, v: V)
    requires IsMatch(matches, hashOf) && ApartKeys(m, matches) && matches(x, k) && (x in m || !HasMatch(m, matches, x))
    ensures forall q :: Find(m[x := v], matches, q) == if matches(k, q) then Some(v) else Find(m, matches, q)
  {
    forall q ensures Find(m[x := v], matches, q) == if matches(k, q) then Some(v) else Find(m, matches, q) {
      SameClass(m, matches, hashOf, x, k, q);
      FindAfterPut(m, matches, hashOf, x, v, q);
    }
  }

  lemma SeenRemove<K(!new), V>(m: map<K, V>, matches: Match<K>, hashOf: K -> nat, k: K)
    requires IsMatch(matches, hashOf) && ApartKeys(m, matches)
    ensures var n := if HasMatch(m, matches, k) then m - {KeyIn(m, matches, k)} else m;
      forall q :: Find(n, matches, q) == if matches(k, q) then None else Find(m, matches, q)
  {
    var n := if HasMatch(m, matches, k) then m - {KeyIn(m, matches, k)} else m;
    forall q ensures Find(n, matches, q) == if matches(k, q) then None else Find(m, matches, q) {
      if HasMatch(m, matches, k) {
        SameClass(m, matches, hashOf, KeyIn(m, matches, k), k, q);
        FindAfterRemove(m, matches, hashOf, KeyIn(m, matches, k), q);
      } else {
        SeenSame(m, matches, hashOf, k);
      }
    }
  }

  lemma LiveOfLive<K, V>(policy: EntryPolicy<K, V>, m: map<K, V>)
    ensures LiveOf(policy, LiveOf(policy, m)) == LiveOf(policy, m)
  {
  }

  lemma KeysSeen<K, V>(s: Slots<K, V>, seen: set<K>)
    requires UniqueKeys(s)
    requires forall k :: k in seen <==> exists j :: 0 <= j < |s| && Holds(s, j, k)
    ensures |Contents(s)| == |seen|
  {
    assert Contents(s).Keys == seen;
  }

  // ----- enumeration -----

  /** The entries in slots from i on, in slot order, without those the barrier calls dead. */
  function LiveFrom<K, V>(s: Slots<K, V>, barrier: Option<EntryPolicy<K, V>>, i: nat): seq<Entry<K, V>>
    decreases |s| - i
  {
    if i >= |s| then []
    else if s[i].Some? && !Dead(barrier, s[i].value) then [s[i].value] + LiveFrom(s, barrier, i + 1)
    else LiveFrom(s, barrier, i + 1)
  }

  predicate Dead<K, V>(barrier: Option<EntryPolicy<K, V>>, e: Entry<K, V>) {
    barrier.Some? && barrier.value.needsSweep(e.key, e.value)
  }

  lemma {:induction false} LiveFromSkips<K, V>(s: Slots<K, V>, barrier: Option<EntryPolicy<K, V>>, i: nat, j: nat)
    requires i <= j <= |s| && forall m :: i <= m < j ==> s[m].None?
    ensures LiveFrom(s, barrier, i) == LiveFrom(s, barrier, j)
    decreases j - i
  {
    if i < j {
      LiveFromSkips(s, barrier, i + 1, j);
    }
  }

  /** The entries enumerated are exactly those in slots that are not dead. */
  lemma {:induction false} LiveFromIsLive<K, V>(s: Slots<K, V>, barrier: Option<EntryPolicy<K, V>>, i: nat)
    ensures forall e :: e in LiveFrom(s, barrier, i) <==>
      exists j :: i <= j < |s| && s[j] == Some(e) && !Dead(barrier, e)
    decreases |s| - i
  {
    if i < |s| {
      LiveFromIsLive(s, barrier, i + 1);
    }
  }

  lemma {:induction false} LiveFromAt<K, V>(s: Slots<K, V>, barrier: Option<EntryPolicy<K, V>>, i: nat, b: nat)
    returns (j: nat)
    requires b < |LiveFrom(s, barrier, i)|
    ensures i <= j < |s| && s[j] == Some(LiveFrom(s, barrier, i)[b])
    decreases |s| - i
  {
    if s[i].Some? && !Dead(barrier, s[i].value) {
      if b == 0 {
        j := i;
      } else {
        j := LiveFromAt(s, barrier, i + 1, b - 1);
      }
    } else {
      j := LiveFromAt(s, barrier, i + 1, b);
    }
  }

  /** They are enumerated in table order. */
  lemma {:induction false} LiveFromInOrder<K, V>(s: Slots<K, V>, barrier: Option<EntryPolicy<K, V>>, i: nat, a: nat,
                                                 b: nat) returns (j: nat, l: nat)
    requires a < b < |LiveFrom(s, barrier, i)|
    ensures i <= j < l < |s|
    ensures s[j] == Some(LiveFrom(s, barrier, i)[a]) && s[l] == Some(LiveFrom(s, barrier, i)[b])
    decreases |s| - i
  {
    if s[i].Some? && !Dead(barrier, s[i].value) {
      if a == 0 {
        j := i;
        l := LiveFromAt(s, barrier, i + 1, b - 1);
      } else {
        j, l := LiveFromInOrder(s, barrier, i + 1, a - 1, b - 1);
      }
    } else {
      j, l := LiveFromInOrder(s, barrier, i + 1, a, b);
    }
  }

  ghost predicate DistinctKeys<K, V>(es: seq<Entry<K, V>>) {
    forall a, b :: 0 <= a < b < |es| ==> es[a].key != es[b].key
  }

  /** No key is enumerated twice. */
  lemma {:induction false} LiveFromDistinct<K, V>(s: Slots<K, V>, barrier: Option<EntryPolicy<K, V>>, i: nat)
    requires UniqueKeys(s)
    ensures DistinctKeys(LiveFrom(s, barrier, i))
    decreases |s| - i
  {
    if i < |s| {
      LiveFromDistinct(s, barrier, i + 1);
      var rest := LiveFrom(s, barrier, i + 1);
      if s[i].Some? && !Dead(barrier, s[i].value) {
        forall b | 0 <= b < |rest| ensures rest[b].key != s[i].value.key {
          var j := LiveFromAt(s, barrier, i + 1, b);
        }
        DistinctCons(s[i].value, rest);
      }
    }
  }

  lemma DistinctCons<K, V>(e: Entry<K, V>, es: seq<Entry<K, V>>)
    requires DistinctKeys(es) && forall b :: 0 <= b < |es| ==> es[b].key != e.key
    ensures DistinctKeys([e] + es)
  {
    var all := [e] + es;
    forall a, b | 0 <= a < b < |all| ensures all[a].key != all[b].key {
      assert all[b] == es[b - 1];
      assert a > 0 ==> all[a] == es[a - 1] && es[a - 1].key != es[b - 1].key;
    }
  }

  class Range<K(==, !new), V(!new)> {
    const cache: WeakCache<K, V>
    var cur: nat

    /** At an entry or at the end. */
    ghost predicate Valid()
      reads this, cache, cache.table
    {
      cur <= |cache.table.slots| && (cur < |cache.table.slots| ==> cache.table.slots[cur].Some?)
    }

    /** Not at a dead entry. */
    ghost predicate Settled()
      reads this, cache, cache.table
    {
      Valid() && (cur < |cache.table.slots| ==> !Dead(cache.barrier, cache.table.slots[cur].value))
    }

    ghost function Remaining(): seq<Entry<K, V>>
      reads this, cache, cache.table
    {
      LiveFrom(cache.table.slots, cache.barrier, cur)
    }

    constructor (cache: WeakCache<K, V>)
      ensures this.cache == cache && Settled()
      ensures Remaining() == LiveFrom(cache.table.slots, cache.barrier, 0)
    {
      this.cache := cache;
      this.cur := NextLive(cache.table.slots, 0);
      new;
      LiveFromSkips(cache.table.slots, cache.barrier, 0, cur);
      Settle();
    }

    predicate Empty()
      reads this, cache.table
    {
      cur >= |cache.table.slots|
    }

    function Front(): Entry<K, V>
      requires cur < |cache.table.slots| && cache.table.slots[cur].Some?
      reads this, cache.table
    {
      cache.table.slots[cur].value
    }

    lemma RemainingSplits()
      requires Settled()
      ensures Remaining() == if Empty() then [] else
        [cache.table.slots[cur].value] + LiveFrom(cache.table.slots, cache.barrier, cur + 1)
    {
    }

    /** Steps to the next entry that is not dead: with settle, by mutual recursion. */
    method PopFront()
      requires Valid() && !Empty()
      modifies this`cur
      ensures Settled() && cur > old(cur)
      ensures Remaining() == LiveFrom(cache.table.slots, cache.barrier, old(cur) + 1)
      decreases |cache.table.slots| - cur, 0
    {
      var next := NextLive(cache.table.slots, cur + 1);
      LiveFromSkips(cache.table.slots, cache.barrier, cur + 1, next);
      cur := next;
      Settle();
    }

    method Settle()
      requires Valid()
      modifies this`cur
      ensures Settled() && cur >= old(cur) && Remaining() == old(Remaining())
      decreases |cache.table.slots| - cur, 1
    {
      if cache.barrier.Some? {
        var policy := cache.barrier.value;
        while !Empty() && policy.needsSweep(Front().key, Front().value)
          invariant Valid() && cur >= old(cur) && Remaining() == old(Remaining())
          decreases |cache.table.slots| - cur
        {
          PopFront();
        }
      }
    }
  }

  /** They are what clients see: every entry of the live part, and nothing else. */
  lemma EnumeratedIsLive<K(!new), V(!new)>(cache: WeakCache<K, V>)
    requires cache.Valid()
    ensures var es := LiveFrom(cache.table.slots, cache.barrier, 0);
      && (forall e :: e in es ==> e.key in cache.Live() && cache.Live()[e.key] == e.value)
      && (forall k :: k in cache.Live() ==> exists e :: e in es && e.key == k)
      && DistinctKeys(es)
  {
    var s, es := cache.table.slots, LiveFrom(cache.table.slots, cache.barrier, 0);
    cache.table.MapApart();
    hide LiveFrom, Contents, IsMatch, Apart, Findable;
    LiveFromDistinct(s, cache.barrier, 0);
    forall e | e in es ensures e.key in cache.Live() && cache.Live()[e.key] == e.value {
      var j := SlotOfLive(s, cache.barrier, e);
      ContentsAt(s, j);
    }
    forall k | k in cache.Live() ensures exists e :: e in es && e.key == k {
      var j := SlotAt(s, k);
      LiveSlotIsIn(s, cache.barrier, j);
    }
  }

  lemma SlotOfLive<K, V>(s: Slots<K, V>, barrier: Option<EntryPolicy<K, V>>, e: Entry<K, V>) returns (j: nat)
    requires e in LiveFrom(s, barrier, 0)
    ensures j < |s| && s[j] == Some(e) && !Dead(barrier, e)
  {
    LiveFromIsLive(s, barrier, 0);
    var i :| 0 <= i < |s| && s[i] == Some(e) && !Dead(barrier, e);
    j := i;
  }

  lemma LiveSlotIsIn<K, V>(s: Slots<K, V>, barrier: Option<EntryPolicy<K, V>>, j: nat)
    requires j < |s| && s[j].Some? && !Dead(barrier, s[j].value)
    ensures s[j].value in LiveFrom(s, barrier, 0)
  {
    LiveFromIsLive(s, barrier, 0);
    assert s[j] == Some(s[j].value);
  }

  lemma SlotAt<K, V>(s: Slots<K, V>, k: K) returns (j: nat)
    requires UniqueKeys(s) && k in Contents(s)
    ensures j < |s| && s[j].Some? && s[j].value.key == k && s[j].value.value == Contents(s)[k]
  {
    j := SlotOf(s, k);
  }

  /** Enumerating a cache to the end yields each live entry once, in table order: what clients see. */
  method Enumerate<K(==, !new), V(!new)>(cache: WeakCache<K, V>) returns (entries: seq<Entry<K, V>>)
    requires cache.Valid()
    ensures entries == LiveFrom(cache.table.slots, cache.barrier, 0)
    ensures forall e :: e in entries ==> e.key in cache.Live() && cache.Live()[e.key] == e.value
    ensures forall k :: k in cache.Live() ==> exists e :: e in entries && e.key == k
    ensures DistinctKeys(entries)
  {
    hide LiveFrom, Range.Remaining, DistinctKeys, WeakCache.Live, WeakCache.Valid;
    EnumeratedIsLive(cache);
    var r := new Range(cache);
    entries := [];
    r.RemainingSplits();
    while !r.Empty()
      invariant r.cache == cache && fresh(r) && r.Settled()
      invariant entries + r.Remaining() == LiveFrom(cache.table.slots, cache.barrier, 0)
      decreases |cache.table.slots| - r.cur
    {
      r.RemainingSplits();
      entries := entries + [r.Front()];
      r.PopFront();
    }
    r.RemainingSplits();
  }
}
