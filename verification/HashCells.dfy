/** The slots of the table in memory: open addressing with double hashing, collision bits and
    removed sentinels; what each change to them does to the entries that probing finds. */
module HashCells {
  import opened Options
  import opened FiniteSets
  import Words
  import opened Probing
  import opened HashTables

  /** How a table hashes and compares keys; the hash is a prepared one. */
  datatype HashPolicy<!K> = HashPolicy(hash: K -> Hash, matches: Match<K>) {
    function Hashing(): K -> nat { x => hash(x) }
  }

  /** The comparison is an equivalence that the hash respects. */
  ghost predicate PolicyOk<K(!new)>(policy: HashPolicy<K>) { IsMatch(policy.matches, policy.Hashing()) }

  /** A slot: 0 is free, 1 is removed, anything above is the hash of a live entry, whose lowest
      bit says that a probe for some other entry has passed it. A removed slot counts as passed. */
  datatype Cell<K, V> = Cell(keyHash: nat, item: Option<(K, V)>) {
    predicate IsFree() { keyHash == 0 }

    predicate IsRemoved() { keyHash == 1 }

    predicate IsLive() { keyHash > 1 }

    predicate HasCollision() { keyHash % 2 == 1 }

    function Bare(): nat { keyHash - keyHash % 2 }

    /** A live slot holds an entry under the hash of its key. */
    predicate Ok(policy: HashPolicy<K>) {
      (IsLive() <==> item.Some?) && (item.Some? ==> Bare() == policy.hash(item.value.0))
    }

    function SetCollision(): Cell<K, V> { this.(keyHash := Bare() + 1) }

    function UnsetCollision(): Cell<K, V> { this.(keyHash := Bare()) }

    function AsSlot(): Option<Entry<K, V>> {
      match item
      case None => None
      case Some(x) => Some(Entry(Bare(), x.0, x.1))
    }
  }

  type Cells<K, V> = seq<Cell<K, V>>

  /** The table as slots with entries, without sentinels and collision bits. */
  function AsSlots<K, V>(s: Cells<K, V>): Slots<K, V> {
    seq(|s|, i requires 0 <= i < |s| => s[i].AsSlot())
  }

  ghost predicate AllOk<K, V>(s: Cells<K, V>, k: Log, policy: HashPolicy<K>) {
    |s| == Capacity(k) && forall i :: 0 <= i < |s| ==> s[i].Ok(policy)
  }

  /** The first n slots tried for a hash all have the collision bit. */
  ghost predicate PathCollides<K, V>(s: Cells<K, V>, k: Log, h: Hash, n: nat)
    requires |s| == Capacity(k)
  {
    forall m: nat :: m < n ==> s[Probe(h, k, m)].HasCollision()
  }

  /** Probing for a hash gets to slot i over slots with the collision bit only. */
  ghost predicate Reached<K, V>(s: Cells<K, V>, k: Log, h: Hash, i: nat)
    requires |s| == Capacity(k)
  {
    exists n: nat :: Probe(h, k, n) == i && PathCollides(s, k, h, n)
  }

  /** The first n slots tried for a hash are all live. */
  ghost predicate PathLive<K, V>(s: Cells<K, V>, k: Log, h: Hash, n: nat)
    requires |s| == Capacity(k)
  {
    forall m: nat :: m < n ==> s[Probe(h, k, m)].IsLive()
  }

  /** Slot i is the first slot tried for a hash that is not live. */
  ghost predicate FirstNonLive<K, V>(s: Cells<K, V>, k: Log, h: Hash, i: nat)
    requires |s| == Capacity(k)
  {
    exists n: nat :: Probe(h, k, n) == i && !s[i].IsLive() && PathLive(s, k, h, n)
  }

  /** Every live entry is where probing for its hash gets. */
  ghost predicate AllReached<K, V>(s: Cells<K, V>, k: Log, policy: HashPolicy<K>)
    requires AllOk(s, k, policy)
  {
    forall i :: 0 <= i < |s| && s[i].IsLive() ==> Reached(s, k, policy.hash(s[i].item.value.0), i)
  }

  ghost predicate HasFree<K, V>(s: Cells<K, V>) {
    exists i :: 0 <= i < |s| && s[i].IsFree()
  }

  /** Probing finds every live entry. */
  ghost predicate Good<K, V>(s: Cells<K, V>, k: Log, policy: HashPolicy<K>) {
    AllOk(s, k, policy) && AllReached(s, k, policy)
  }

  // ----- looking up -----

  /** Whether a slot answers a lookup: same hash, matching key. */
  predicate Answers<K, V>(policy: HashPolicy<K>, c: Cell<K, V>, h: Hash, key: K) {
    c.Bare() == h && c.item.Some? && policy.matches(c.item.value.0, key)
  }

  /** A lookup that gets to a free slot has met the entry before, if there is one: no slot on the
      way to the entry is free. */
  lemma EntryIsMet<K(!new), V>(s: Cells<K, V>, k: Log, policy: HashPolicy<K>, key: K, i: nat, n: nat)
    returns (m: nat)
    requires PolicyOk(policy) && Good(s, k, policy) && Hits(AsSlots(s), i, policy.matches, key)
    requires s[Probe(policy.hash(key), k, n)].IsFree()
    ensures m < n && Answers(policy, s[Probe(policy.hash(key), k, m)], policy.hash(key), key)
  {
    assert policy.matches(s[i].item.value.0, key);
    assert policy.Hashing()(s[i].item.value.0) == policy.Hashing()(key);
    m :| Probe(policy.hash(key), k, m) == i && PathCollides(s, k, policy.hash(key), m);
  }

  /** After probing n slots without meeting the key and then a free one, no key matches. */
  lemma MissIsMiss<K(!new), V>(s: Cells<K, V>, k: Log, policy: HashPolicy<K>, key: K, n: nat)
    requires PolicyOk(policy) && Good(s, k, policy) && s[Probe(policy.hash(key), k, n)].IsFree()
    requires forall m: nat :: m < n ==> !Answers(policy, s[Probe(policy.hash(key), k, m)], policy.hash(key), key)
    ensures !HasMatch(Contents(AsSlots(s)), policy.matches, key)
  {
    hide PolicyOk, Reached, Answers, Hits, AsSlots;
    var v := AsSlots(s);
    forall i | 0 <= i < |v| ensures !Hits(v, i, policy.matches, key) {
      if Hits(v, i, policy.matches, key) {
        var m := EntryIsMet(s, k, policy, key, i, n);
        assert false;
      }
    }
    NoHit(v, policy.matches, key);
  }

  lemma HitIsHit<K(!new), V>(s: Cells<K, V>, k: Log, policy: HashPolicy<K>, key: K, i: nat)
    requires PolicyOk(policy) && Good(s, k, policy) && Apart(AsSlots(s), policy.matches)
    requires i < |s| && Answers(policy, s[i], policy.hash(key), key)
    ensures FoundIn(AsSlots(s), i, policy.matches, key)
  {
    HitIsFound(AsSlots(s), policy.matches, policy.Hashing(), i, key);
  }

  /** Slot i holds the entry that a lookup of the key finds. */
  ghost predicate FoundIn<K, V>(v: Slots<K, V>, i: nat, matches: Match<K>, key: K) {
    && Hits(v, i, matches, key) && HasMatch(Contents(v), matches, key)
    && KeyIn(Contents(v), matches, key) == v[i].value.key && v[i].value.key in Contents(v)
    && Find(Contents(v), matches, key) == Some(v[i].value.value)
  }

  /** The number of probes after which a free slot is met. */
  lemma FreeIsMet<K, V>(s: Cells<K, V>, k: Log, h: Hash) returns (n: nat)
    requires |s| == Capacity(k) && HasFree(s)
    ensures s[Probe(h, k, n)].IsFree()
  {
    var i :| 0 <= i < |s| && s[i].IsFree();
    n := ProbeReaches(h, k, i);
  }

  // ----- changes to single slots -----

  /** The number of probes after which a slot is met that is not live. */
  lemma NonLiveIsMet<K, V>(s: Cells<K, V>, k: Log, h: Hash) returns (n: nat)
    requires |s| == Capacity(k) && |LiveSet(s)| < |s|
    ensures !s[Probe(h, k, n)].IsLive()
  {
    assert (forall i :: 0 <= i < |s| ==> s[i].IsLive()) ==> LiveSet(s) == Indices(|s|);
    var i :| 0 <= i < |s| && !s[i].IsLive();
    n := ProbeReaches(h, k, i);
  }

  /** Setting a collision bit on a live slot changes nothing that counts. */
  lemma SetCollisionGood<K, V>(s: Cells<K, V>, k: Log, policy: HashPolicy<K>, i: nat)
    requires Good(s, k, policy) && i < |s| && s[i].IsLive()
    ensures Good(s[i := s[i].SetCollision()], k, policy)
    ensures AsSlots(s[i := s[i].SetCollision()]) == AsSlots(s)
  {
    hide Reached, Probe;
    var t := s[i := s[i].SetCollision()];
    assert AsSlots(t) == AsSlots(s);
    forall j | 0 <= j < |t| && t[j].IsLive() ensures Reached(t, k, policy.hash(t[j].item.value.0), j) {
      MoreCollisions(s, t, k, policy.hash(s[j].item.value.0), j);
    }
  }

  /** A slot stays reached as long as no collision bit is lost. */
  lemma MoreCollisions<K, V>(s: Cells<K, V>, t: Cells<K, V>, k: Log, h: Hash, i: nat)
    requires |s| == |t| == Capacity(k) && Reached(s, k, h, i)
    requires forall j :: 0 <= j < |s| && s[j].HasCollision() ==> t[j].HasCollision()
    ensures Reached(t, k, h, i)
  {
    var n: nat :| Probe(h, k, n) == i && PathCollides(s, k, h, n);
    assert PathCollides(t, k, h, n);
  }

  /** What remove leaves in a slot: a removed sentinel if some probe passed it, else nothing. */
  function Emptied<K, V>(c: Cell<K, V>): Cell<K, V> {
    if c.HasCollision() then Cell(1, None) else Cell(0, None)
  }

  lemma RemoveGood<K, V>(s: Cells<K, V>, k: Log, policy: HashPolicy<K>, i: nat)
    requires Good(s, k, policy) && i < |s| && s[i].IsLive()
    ensures Good(s[i := Emptied(s[i])], k, policy)
    ensures AsSlots(s[i := Emptied(s[i])]) == AsSlots(s)[i := None] && AsSlots(s)[i].Some?
  {
    hide Reached, Probe;
    var t := s[i := Emptied(s[i])];
    assert AsSlots(t) == AsSlots(s)[i := None];
    forall j | 0 <= j < |t| && t[j].IsLive() ensures Reached(t, k, policy.hash(t[j].item.value.0), j) {
      MoreCollisions(s, t, k, policy.hash(s[j].item.value.0), j);
    }
  }

  /** What setLive writes: over a removed sentinel the collision bit is kept. */
  function Filled<K, V>(c: Cell<K, V>, h: Hash, key: K, value: V): Cell<K, V> {
    Cell(if c.IsRemoved() then h + 1 else h, Some((key, value)))
  }

  lemma FillGood<K, V>(s: Cells<K, V>, k: Log, policy: HashPolicy<K>, i: nat, key: K, value: V)
    requires Good(s, k, policy) && i < |s| && !s[i].IsLive() && Reached(s, k, policy.hash(key), i)
    ensures var t := s[i := Filled(s[i], policy.hash(key), key, value)];
      && Good(t, k, policy)
      && AsSlots(t) == AsSlots(s)[i := Some(Entry(policy.hash(key), key, value))]
  {
    var c := Filled(s[i], policy.hash(key), key, value);
    var t := s[i := c];
    assert c.Ok(policy);
    assert AsSlots(t) == AsSlots(s)[i := Some(Entry(policy.hash(key), key, value))];
    forall j | 0 <= j < |t| && t[j].IsLive() ensures Reached(t, k, policy.hash(t[j].item.value.0), j) {
      MoreCollisions(s, t, k, policy.hash(t[j].item.value.0), j);
    }
  }

  /** Writing another value into a live entry. */
  lemma SetValueGood<K, V>(s: Cells<K, V>, k: Log, policy: HashPolicy<K>, i: nat, value: V)
    requires Good(s, k, policy) && i < |s| && s[i].IsLive()
    ensures var t := s[i := s[i].(item := Some((s[i].item.value.0, value)))];
      && Good(t, k, policy) && LiveSet(t) == LiveSet(s) && RemovedSet(t) == RemovedSet(s)
      && AsSlots(t) == AsSlots(s)[i := Some(AsSlots(s)[i].value.(value := value))]
  {
    hide Reached, Probe;
    var t := s[i := s[i].(item := Some((s[i].item.value.0, value)))];
    forall j | 0 <= j < |t| && t[j].IsLive() ensures Reached(t, k, policy.hash(t[j].item.value.0), j) {
      MoreCollisions(s, t, k, policy.hash(s[j].item.value.0), j);
    }
  }

  // ----- counting -----

  function LiveSet<K, V>(s: Cells<K, V>): set<int> { set i | 0 <= i < |s| && s[i].IsLive() }

  function RemovedSet<K, V>(s: Cells<K, V>): set<int> { set i | 0 <= i < |s| && s[i].IsRemoved() }

  function Indices(n: nat): (r: set<int>)
    ensures forall i: int :: i in r <==> 0 <= i < n
    ensures |r| == n
  {
    if n == 0 then {} else Indices(n - 1) + {n - 1}
  }

  /** Fewer live and removed slots than slots means a free one. */
  lemma FreeByCount<K, V>(s: Cells<K, V>)
    requires |LiveSet(s)| + |RemovedSet(s)| < |s|
    ensures HasFree(s)
  {
    assert !HasFree(s) ==> Indices(|s|) == LiveSet(s) + RemovedSet(s);
  }

  lemma CountsAfterFill<K, V>(s: Cells<K, V>, i: nat, c: Cell<K, V>)
    requires i < |s| && !s[i].IsLive() && c.IsLive()
    ensures LiveSet(s[i := c]) == LiveSet(s) + {i} && RemovedSet(s[i := c]) == RemovedSet(s) - {i}
    ensures i !in LiveSet(s)
  {
  }

  lemma CountsAfterRemove<K, V>(s: Cells<K, V>, i: nat)
    requires i < |s| && s[i].IsLive()
    ensures i in LiveSet(s) && LiveSet(s[i := Emptied(s[i])]) == LiveSet(s) - {i}
    ensures i !in RemovedSet(s)
    ensures RemovedSet(s[i := Emptied(s[i])]) == RemovedSet(s) + if s[i].HasCollision() then {i as int} else {}
  {
  }

  lemma CountsAfterCollision<K, V>(s: Cells<K, V>, i: nat)
    requires i < |s| && s[i].IsLive()
    ensures LiveSet(s[i := s[i].SetCollision()]) == LiveSet(s)
    ensures RemovedSet(s[i := s[i].SetCollision()]) == RemovedSet(s)
  {
  }

  lemma GoodFacts<K, V>(s: Cells<K, V>, k: Log, policy: HashPolicy<K>)
    requires Good(s, k, policy)
    ensures |s| == Capacity(k) && forall i :: 0 <= i < |s| ==> s[i].Ok(policy)
  {
  }

  lemma NextProbeIsStep(h: Hash, k: Log, n: nat)
    ensures Hash2(h, k) <= 0x1_0000_0000 && Probe(h, k, n + 1) == Step(Probe(h, k, n), Hash2(h, k), k)
  {
    Hash2IsOdd(h, k);
    Words.Pow2Values();
    Words.Pow2Mono(k, 32);
  }

  /** What a mutable lookup has established after n slots: the way to the first removed slot it
      met, or else to the next slot, is over live slots with collision bits only. */
  ghost predicate GoodFor<K, V>(s: Cells<K, V>, k: Log, h: Hash, n: nat, firstRemoved: Option<nat>)
    requires |s| == Capacity(k)
  {
    match firstRemoved
    case None => PathCollides(s, k, h, n) && PathLive(s, k, h, n)
    case Some(r) => r < |s| && s[r].IsRemoved() && Reached(s, k, h, r) && FirstNonLive(s, k, h, r)
  }

  lemma GoodForAdding<K, V>(s: Cells<K, V>, k: Log, h: Hash, n: nat, firstRemoved: Option<nat>)
    requires |s| == Capacity(k) && GoodFor(s, k, h, n, firstRemoved) && s[Probe(h, k, n)].IsFree()
    ensures var i := if firstRemoved.Some? then firstRemoved.value else Probe(h, k, n);
      i < |s| && !s[i].IsLive() && Reached(s, k, h, i) && FirstNonLive(s, k, h, i)
  {
  }

  lemma ReachedAtOnce<K, V>(s: Cells<K, V>, k: Log, h: Hash)
    requires |s| == Capacity(k)
    ensures GoodFor(s, k, h, 0, None) && Reached(s, k, h, Probe(h, k, 0))
  {
    assert PathCollides(s, k, h, 0) && PathLive(s, k, h, 0);
  }

  lemma ReachedByPath<K, V>(s: Cells<K, V>, k: Log, h: Hash, n: nat)
    requires |s| == Capacity(k) && PathCollides(s, k, h, n)
    ensures Reached(s, k, h, Probe(h, k, n))
    ensures PathLive(s, k, h, n) && !s[Probe(h, k, n)].IsLive() ==> FirstNonLive(s, k, h, Probe(h, k, n))
  {
  }

  lemma PathExtends<K, V>(s: Cells<K, V>, k: Log, h: Hash, n: nat)
    requires |s| == Capacity(k) && PathCollides(s, k, h, n)
    ensures PathCollides(s[Probe(h, k, n) := s[Probe(h, k, n)].SetCollision()], k, h, n + 1)
    ensures PathLive(s, k, h, n) && s[Probe(h, k, n)].IsLive() ==>
      PathLive(s[Probe(h, k, n) := s[Probe(h, k, n)].SetCollision()], k, h, n + 1)
  {
    hide Probe;
  }

  lemma NoPath<K, V>(s: Cells<K, V>, k: Log, h: Hash)
    requires |s| == Capacity(k)
    ensures PathCollides(s, k, h, 0) && PathLive(s, k, h, 0)
  {
  }

  // ----- the marks that probing leaves -----

  /** Slot j is among the first n slots tried for a hash. */
  ghost predicate Tried(k: Log, h: Hash, n: nat, j: int) {
    exists m: nat :: m < n && Probe(h, k, m) == j
  }

  /** Slot j is among the live slots tried for a hash before the first that is not live. */
  ghost predicate Passed<K, V>(s: Cells<K, V>, k: Log, h: Hash, j: int)
    requires |s| == Capacity(k)
  {
    exists m: nat :: Probe(h, k, m) == j && PathLive(s, k, h, m + 1)
  }

  /** The collision bit is set on the first n slots tried, and nothing else is changed. */
  ghost predicate MarkedTo<K, V>(s: Cells<K, V>, t: Cells<K, V>, k: Log, h: Hash, n: nat) {
    |t| == |s| && forall j :: 0 <= j < |s| ==> t[j] == if Tried(k, h, n, j) then s[j].SetCollision() else s[j]
  }

  /** The collision bit is set on all the slots passed, and nothing else is changed. */
  ghost predicate Marked<K, V>(s: Cells<K, V>, t: Cells<K, V>, k: Log, h: Hash)
    requires |s| == Capacity(k)
  {
    |t| == |s| && forall j :: 0 <= j < |s| ==> t[j] == if Passed(s, k, h, j) then s[j].SetCollision() else s[j]
  }

  /** The collision bit is set on some of the slots passed, and nothing else is changed. */
  ghost predicate MarkedAmong<K, V>(s: Cells<K, V>, t: Cells<K, V>, k: Log, h: Hash)
    requires |s| == Capacity(k)
  {
    |t| == |s| && forall j :: 0 <= j < |s| && t[j] != s[j] ==> Passed(s, k, h, j) && t[j] == s[j].SetCollision()
  }

  lemma NothingMarked<K, V>(s: Cells<K, V>, k: Log, h: Hash)
    ensures MarkedTo(s, s, k, h, 0)
    ensures |s| == Capacity(k) ==> MarkedAmong(s, s, k, h)
  {
  }

  lemma TriedOneMore(k: Log, h: Hash, n: nat)
    ensures forall j :: Tried(k, h, n + 1, j) <==> Tried(k, h, n, j) || j == Probe(h, k, n)
  {
    hide Probe;
    forall j ensures Tried(k, h, n + 1, j) <==> Tried(k, h, n, j) || j == Probe(h, k, n) {
      if Tried(k, h, n + 1, j) {
        var m: nat :| m < n + 1 && Probe(h, k, m) == j;
        assert m < n || m == n;
      }
    }
  }

  lemma MarkedOneMore<K, V>(s: Cells<K, V>, t: Cells<K, V>, k: Log, h: Hash, n: nat)
    requires MarkedTo(s, t, k, h, n) && |s| == Capacity(k)
    ensures var i := Probe(h, k, n); MarkedTo(s, t[i := t[i].SetCollision()], k, h, n + 1)
  {
    hide Probe, Tried;
    TriedOneMore(k, h, n);
  }

  /** With n live slots tried they are passed, and when the next one is not live no others are. */
  lemma TriedArePassed<K, V>(s: Cells<K, V>, k: Log, h: Hash, n: nat)
    requires |s| == Capacity(k) && PathLive(s, k, h, n)
    ensures forall j :: Tried(k, h, n, j) ==> Passed(s, k, h, j)
    ensures !s[Probe(h, k, n)].IsLive() ==> forall j :: Passed(s, k, h, j) ==> Tried(k, h, n, j)
  {
    hide Probe;
    forall j | Tried(k, h, n, j) ensures Passed(s, k, h, j) {
      var m: nat :| m < n && Probe(h, k, m) == j;
      assert PathLive(s, k, h, m + 1);
    }
    if !s[Probe(h, k, n)].IsLive() {
      forall j | Passed(s, k, h, j) ensures Tried(k, h, n, j) {
        var m: nat :| Probe(h, k, m) == j && PathLive(s, k, h, m + 1);
        assert m < n;
      }
    }
  }

  lemma MarkingKeepsLive<K, V>(s: Cells<K, V>, t: Cells<K, V>, k: Log, h: Hash, n: nat)
    requires |s| == |t| == Capacity(k) && MarkedTo(s, t, k, h, n) && PathLive(t, k, h, n)
    ensures PathLive(s, k, h, n) && (t[Probe(h, k, n)].IsLive() <==> s[Probe(h, k, n)].IsLive())
  {
    hide Probe, Tried;
    assert forall j :: 0 <= j < |s| ==> (t[j].IsLive() <==> s[j].IsLive());
  }

  lemma MarkedAll<K, V>(s: Cells<K, V>, t: Cells<K, V>, k: Log, h: Hash, n: nat)
    requires |s| == |t| == Capacity(k) && MarkedTo(s, t, k, h, n) && PathLive(t, k, h, n)
    ensures MarkedAmong(s, t, k, h)
    ensures !t[Probe(h, k, n)].IsLive() ==> Marked(s, t, k, h)
  {
    hide Probe, Tried, Passed, PathLive;
    MarkingKeepsLive(s, t, k, h, n);
    TriedArePassed(s, k, h, n);
  }

  /** What a mutable lookup has marked: all slots tried, until it passes a removed one. */
  ghost predicate MarkedFor<K, V>(s: Cells<K, V>, t: Cells<K, V>, k: Log, h: Hash, n: nat, firstRemoved: Option<nat>)
    requires |s| == Capacity(k)
  {
    if firstRemoved.Some? then Marked(s, t, k, h) else MarkedTo(s, t, k, h, n)
  }

  lemma NothingMarkedFor<K, V>(s: Cells<K, V>, k: Log, h: Hash)
    requires |s| == Capacity(k)
    ensures MarkedFor(s, s, k, h, 0, None) && MarkedAmong(s, s, k, h)
  {
    NothingMarked(s, k, h);
  }

  lemma MarkedAtEnd<K, V>(s: Cells<K, V>, t: Cells<K, V>, k: Log, h: Hash, n: nat, firstRemoved: Option<nat>)
    requires |s| == |t| == Capacity(k)
    requires GoodFor(t, k, h, n, firstRemoved) && MarkedFor(s, t, k, h, n, firstRemoved)
    ensures MarkedAmong(s, t, k, h)
    ensures !t[Probe(h, k, n)].IsLive() ==> Marked(s, t, k, h)
  {
    hide Probe, PathLive, PathCollides, Reached, FirstNonLive, MarkedTo, Marked, MarkedAmong;
    if firstRemoved.Some? {
      MarkedIsAmong(s, t, k, h);
    } else {
      MarkedAll(s, t, k, h, n);
    }
  }

  lemma MarkedIsAmong<K, V>(s: Cells<K, V>, t: Cells<K, V>, k: Log, h: Hash)
    requires |s| == Capacity(k) && Marked(s, t, k, h)
    ensures MarkedAmong(s, t, k, h)
  {
  }

  // ----- copying into a new store -----

  lemma AllFree<K, V>(s: Cells<K, V>, k: Log, policy: HashPolicy<K>)
    requires |s| == Capacity(k) && forall i :: 0 <= i < |s| ==> s[i] == Cell(0, None)
    ensures Good(s, k, policy) && LiveSet(s) == {} && RemovedSet(s) == {}
    ensures Contents(AsSlots(s)) == map[] && Apart(AsSlots(s), policy.matches)
  {
  }

  lemma NoPrefix<K, V>(s: Cells<K, V>)
    ensures s[..0] == [] && LiveSet(s[..0]) == {} && Contents(AsSlots(s[..0])) == map[]
  {
  }

  /** One more slot of a table read in order. */
  lemma PrefixStep<K(!new), V>(s: Cells<K, V>, policy: HashPolicy<K>, j: nat)
    requires PolicyOk(policy) && Apart(AsSlots(s), policy.matches)
    requires j < |s| && (s[j].IsLive() <==> s[j].item.Some?)
    ensures s[j].item.Some? ==>
      var x := s[j].item.value;
      && !HasMatch(Contents(AsSlots(s[..j])), policy.matches, x.0)
      && Contents(AsSlots(s[..j + 1])) == Contents(AsSlots(s[..j]))[x.0 := x.1]
    ensures s[j].item.None? ==> Contents(AsSlots(s[..j + 1])) == Contents(AsSlots(s[..j]))
    ensures LiveSet(s[..j + 1]) == LiveSet(s[..j]) + (if s[j].IsLive() then {j as int} else {})
    ensures j !in LiveSet(s[..j])
  {
    var v, before := AsSlots(s), AsSlots(s[..j]);
    assert before == v[..j] && AsSlots(s[..j + 1]) == v[..j + 1];
    assert Apart(before, policy.matches);
    ContentsApart(before, policy.matches, policy.Hashing());
    GrownContents(before);
    if s[j].item.Some? {
      var x := s[j].item.value;
      forall i | 0 <= i < |before| ensures !Hits(before, i, policy.matches, x.0) {
        assert before[i] == v[i] && v[j].Some? && v[j].value.key == x.0;
      }
      NoHit(before, policy.matches, x.0);
      AddedApart(before + [None], policy.matches, policy.Hashing(), j, v[j].value);
      assert (before + [None])[j := v[j]] == v[..j + 1];
    } else {
      assert v[..j + 1] == before + [None];
    }
  }

  lemma LivePrefix<K, V>(s: Cells<K, V>, j: nat)
    requires j <= |s|
    ensures |LiveSet(s[..j])| <= |LiveSet(s)|
  {
    SubsetSize(LiveSet(s[..j]), LiveSet(s));
  }

  lemma CapacityFacts(k: Log)
    ensures Capacity(k) >= 4 && Capacity(k) % 4 == 0
  {
    Words.Pow2Mono(2, k);
    assert Words.Pow2(k) == 2 * Words.Pow2(k - 1) == 4 * Words.Pow2(k - 2);
  }

  lemma DoubledCapacity(k: Log)
    requires k < 30
    ensures Capacity(k + 1) == 2 * Capacity(k)
  {
  }

  lemma RemovedIsCounted<K, V>(s: Cells<K, V>, i: nat)
    requires i < |s|
    ensures |RemovedSet(s) - {i}| == |RemovedSet(s)| - if s[i].IsRemoved() then 1 else 0
  {
    assert s[i].IsRemoved() <==> i in RemovedSet(s);
    if !s[i].IsRemoved() {
      assert RemovedSet(s) - {i} == RemovedSet(s);
    }
  }

  // ----- inserting one by one -----

  /** Slot i is the first slot tried for a hash that has no entry. */
  ghost predicate FirstNone<K, V>(v: Slots<K, V>, k: Log, h: Hash, i: nat)
    requires |v| == Capacity(k)
  {
    exists n: nat :: Probe(h, k, n) == i && v[i].None? && forall m: nat :: m < n ==> v[Probe(h, k, m)].Some?
  }

  lemma FirstNoneUnique<K, V>(v: Slots<K, V>, k: Log, h: Hash, i: nat, j: nat)
    requires |v| == Capacity(k) && FirstNone(v, k, h, i) && FirstNone(v, k, h, j)
    ensures i == j
  {
    hide Probe;
    var m: nat :| Probe(h, k, m) == i && v[i].None? && forall x: nat :: x < m ==> v[Probe(h, k, x)].Some?;
    var n: nat :| Probe(h, k, n) == j && v[j].None? && forall x: nat :: x < n ==> v[Probe(h, k, x)].Some?;
    assert !(m < n) && !(n < m);
  }

  /** A table with one more entry, where a lookup for adding would put it. */
  ghost function Insert<K, V>(v: Slots<K, V>, k: Log, policy: HashPolicy<K>, x: (K, V)): (w: Slots<K, V>)
    requires |v| == Capacity(k)
    ensures |w| == |v|
  {
    if exists i: nat :: FirstNone(v, k, policy.hash(x.0), i) then
      var i: nat :| FirstNone(v, k, policy.hash(x.0), i);
      v[i := Some(Entry(policy.hash(x.0), x.0, x.1))]
    else v
  }

  /** What comes of inserting entries one by one into an empty table. */
  ghost function InsertAll<K, V>(k: Log, policy: HashPolicy<K>, items: seq<(K, V)>): (v: Slots<K, V>)
    ensures |v| == Capacity(k)
  {
    if items == [] then seq(Capacity(k), _ => None)
    else Insert(InsertAll(k, policy, items[..|items| - 1]), k, policy, items[|items| - 1])
  }

  lemma InsertNone<K, V>(k: Log, policy: HashPolicy<K>)
    ensures InsertAll<K, V>(k, policy, []) == seq(Capacity(k), _ => None)
  {
  }

  lemma InsertOneMore<K, V>(k: Log, policy: HashPolicy<K>, items: seq<(K, V)>, x: (K, V))
    ensures InsertAll(k, policy, items + [x]) == Insert(InsertAll(k, policy, items), k, policy, x)
  {
    assert (items + [x])[..|items|] == items;
  }

  lemma InsertAt<K, V>(v: Slots<K, V>, k: Log, policy: HashPolicy<K>, i: nat, x: (K, V))
    requires |v| == Capacity(k) && FirstNone(v, k, policy.hash(x.0), i)
    ensures i < |v| && Insert(v, k, policy, x) == v[i := Some(Entry(policy.hash(x.0), x.0, x.1))]
  {
    hide Probe;
    var j: nat :| FirstNone(v, k, policy.hash(x.0), j)
      && Insert(v, k, policy, x) == v[j := Some(Entry(policy.hash(x.0), x.0, x.1))];
    FirstNoneUnique(v, k, policy.hash(x.0), i, j);
  }

  lemma NonLiveIsNone<K, V>(s: Cells<K, V>, k: Log, policy: HashPolicy<K>, h: Hash, i: nat)
    requires AllOk(s, k, policy) && FirstNonLive(s, k, h, i)
    ensures FirstNone(AsSlots(s), k, h, i)
  {
    hide Probe;
    var n: nat :| Probe(h, k, n) == i && !s[i].IsLive() && PathLive(s, k, h, n);
    var v := AsSlots(s);
    assert forall m: nat :: m < n ==> s[Probe(h, k, m)].IsLive() && v[Probe(h, k, m)].Some?;
  }

  /** The entries of the live slots, in slot order. */
  function LiveItems<K, V>(s: Cells<K, V>): seq<(K, V)> {
    if s == [] then []
    else
      var last := s[|s| - 1].item;
      LiveItems(s[..|s| - 1]) + if last.Some? then [last.value] else []
  }

  lemma LiveItemsStep<K, V>(s: Cells<K, V>, j: nat)
    requires j < |s|
    ensures s[j].item.Some? ==> LiveItems(s[..j + 1]) == LiveItems(s[..j]) + [s[j].item.value]
    ensures s[j].item.None? ==> LiveItems(s[..j + 1]) == LiveItems(s[..j])
  {
    assert s[..j + 1][..j] == s[..j];
  }

  /** The entry of a live slot comes after those of the live slots before it. */
  lemma {:induction false} LiveItemsInOrder<K, V>(s: Cells<K, V>, j: nat)
    requires j < |s| && s[j].item.Some?
    ensures |LiveItems(s[..j])| < |LiveItems(s)| && LiveItems(s)[|LiveItems(s[..j])|] == s[j].item.value
  {
    var front := s[..|s| - 1];
    if j < |front| {
      LiveItemsInOrder(front, j);
      assert front[..j] == s[..j];
    }
  }

  /** There are as many as live slots. */
  lemma {:induction false} LiveItemsCount<K, V>(s: Cells<K, V>, policy: HashPolicy<K>)
    requires forall i :: 0 <= i < |s| ==> s[i].Ok(policy)
    ensures |LiveItems(s)| == |LiveSet(s)|
  {
    if s != [] {
      var n := |s| - 1;
      LiveItemsCount(s[..n], policy);
      assert LiveSet(s) == LiveSet(s[..n]) + if s[n].IsLive() then {n as int} else {};
    }
  }

  // ----- rehashing in place -----

  function Unset<K, V>(s: Cells<K, V>): Cells<K, V> {
    seq(|s|, i requires 0 <= i < |s| => s[i].UnsetCollision())
  }

  /** The slots without a collision bit: those not taken by a placed entry. */
  ghost function Waiting<K, V>(s: Cells<K, V>): set<int> {
    set i | 0 <= i < |s| && !s[i].HasCollision()
  }

  /** While rehashing, a collision bit marks a live entry that is placed: it is reached over placed
      entries only. Below i every live entry is placed. */
  ghost predicate Rehashing<K, V>(s: Cells<K, V>, k: Log, policy: HashPolicy<K>, i: nat) {
    && AllOk(s, k, policy) && Apart(AsSlots(s), policy.matches)
    && (forall x :: 0 <= x < |s| && s[x].HasCollision() ==>
          s[x].IsLive() && Reached(s, k, policy.hash(s[x].item.value.0), x))
    && (forall x :: 0 <= x < |s| && x < i && s[x].IsLive() ==> s[x].HasCollision())
  }

  lemma RehashingFacts<K, V>(s: Cells<K, V>, k: Log, policy: HashPolicy<K>, i: nat)
    requires Rehashing(s, k, policy, i)
    ensures |s| == Capacity(k) && forall x :: 0 <= x < |s| ==> s[x].Ok(policy)
  {
  }

  lemma RehashingStart<K, V>(s: Cells<K, V>, t: Cells<K, V>, k: Log, policy: HashPolicy<K>)
    requires Good(s, k, policy) && Apart(AsSlots(s), policy.matches) && t == Unset(s)
    ensures Rehashing(t, k, policy, 0)
    ensures Contents(AsSlots(t)) == Contents(AsSlots(s)) && LiveSet(t) == LiveSet(s)
  {
    assert AsSlots(t) == AsSlots(s);
  }

  lemma RehashingPass<K, V>(s: Cells<K, V>, k: Log, policy: HashPolicy<K>, i: nat)
    requires Rehashing(s, k, policy, i) && i < |s| && (s[i].IsLive() ==> s[i].HasCollision())
    ensures Rehashing(s, k, policy, i + 1)
  {
  }

  lemma RehashingDone<K, V>(s: Cells<K, V>, k: Log, policy: HashPolicy<K>)
    requires Rehashing(s, k, policy, |s|)
    ensures Good(s, k, policy) && Apart(AsSlots(s), policy.matches) && RemovedSet(s) == {}
    ensures forall j :: 0 <= j < |s| && s[j].IsLive() ==> s[j].HasCollision()
  {
    assert RemovedSet(s) == {};
  }

  /** The entries placed so far. */
  function PlacedSlots<K, V>(s: Cells<K, V>): Slots<K, V> {
    seq(|s|, i requires 0 <= i < |s| => if s[i].HasCollision() then s[i].AsSlot() else None)
  }

  lemma NothingPlaced<K, V>(s: Cells<K, V>, k: Log, policy: HashPolicy<K>)
    requires |s| == Capacity(k)
    ensures PlacedSlots(Unset(s)) == InsertAll(k, policy, []) && |Waiting(Unset(s))| == |s|
  {
    InsertNone<K, V>(k, policy);
    var t := Unset(s);
    assert forall i :: 0 <= i < |t| ==> !t[i].HasCollision();
    hide Unset, Insert, InsertAll;
    assert Waiting(t) == Indices(|s|);
  }

  lemma AllPlaced<K, V>(s: Cells<K, V>, k: Log, policy: HashPolicy<K>)
    requires Rehashing(s, k, policy, |s|)
    ensures PlacedSlots(s) == AsSlots(s) && |Waiting(s)| + |LiveSet(s)| == |s|
  {
    hide Reached;
    assert Waiting(s) !! LiveSet(s) && Waiting(s) + LiveSet(s) == Indices(|s|);
  }

  /** Each of the entries sits in a slot where it is placed. */
  ghost predicate ArePlaced<K, V>(s: Cells<K, V>, items: seq<(K, V)>) {
    forall x :: x in items ==> exists j :: 0 <= j < |s| && s[j].HasCollision() && s[j].item == Some(x)
  }

  /** Placing an entry at the first slot on its way that is not taken inserts it among those placed. */
  lemma PlacingInserts<K, V>(s: Cells<K, V>, k: Log, policy: HashPolicy<K>, i: nat, n: nat, items: seq<(K, V)>)
    requires Rehashing(s, k, policy, i) && i < |s| && s[i].IsLive() && !s[i].HasCollision()
    requires PathCollides(s, k, policy.hash(s[i].item.value.0), n)
    requires !s[Probe(policy.hash(s[i].item.value.0), k, n)].HasCollision() && ArePlaced(s, items)
    ensures var x, r := s[i].item.value, Swapped(s, i, Probe(policy.hash(s[i].item.value.0), k, n));
      && PlacedSlots(r) == Insert(PlacedSlots(s), k, policy, x)
      && |Waiting(r)| == |Waiting(s)| - 1 && ArePlaced(r, items + [x])
  {
    hide Probe, Reached, Apart, Insert, AsSlots;
    var x, t := s[i].item.value, Probe(policy.hash(s[i].item.value.0), k, n);
    var v, r := PlacedSlots(s), Swapped(s, i, t);
    assert forall m: nat :: m < n ==> v[Probe(policy.hash(x.0), k, m)].Some?;
    assert FirstNone(v, k, policy.hash(x.0), t);
    InsertAt(v, k, policy, t, x);
    assert PlacedSlots(r) == v[t := Some(Entry(policy.hash(x.0), x.0, x.1))];
    assert t in Waiting(s) && Waiting(r) == Waiting(s) - {t};
    forall y | y in items + [x]
      ensures exists j :: 0 <= j < |r| && r[j].HasCollision() && r[j].item == Some(y)
    {
      if y in items {
        var j :| 0 <= j < |s| && s[j].HasCollision() && s[j].item == Some(y);
        assert r[j] == s[j];
      } else {
        assert r[t].HasCollision() && r[t].item == Some(y);
      }
    }
  }

  lemma PathGrows<K, V>(s: Cells<K, V>, k: Log, h: Hash, n: nat)
    requires |s| == Capacity(k) && PathCollides(s, k, h, n) && s[Probe(h, k, n)].HasCollision()
    ensures PathCollides(s, k, h, n + 1)
  {
  }

  /** Slots i and t exchanged, and the entry that was at i marked as placed. */
  function Swapped<K, V>(s: Cells<K, V>, i: nat, t: nat): Cells<K, V>
    requires i < |s| && t < |s|
  {
    s[i := s[t]][t := s[i].SetCollision()]
  }

  lemma SwapPlaces<K(!new), V>(s: Cells<K, V>, k: Log, policy: HashPolicy<K>, i: nat, t: nat)
    requires PolicyOk(policy) && Rehashing(s, k, policy, i) && i < |s| && t < |s|
    requires s[i].IsLive() && !s[i].HasCollision() && !s[t].HasCollision()
    requires Reached(s, k, policy.hash(s[i].item.value.0), t)
    ensures Rehashing(Swapped(s, i, t), k, policy, i)
    ensures Contents(AsSlots(Swapped(s, i, t))) == Contents(AsSlots(s))
    ensures |LiveSet(Swapped(s, i, t))| == |LiveSet(s)|
    ensures Waiting(Swapped(s, i, t)) < Waiting(s)
  {
    SwappedSlots(s, policy, i, t);
    SwappedSets(s, i, t);
    SwappedRehashing(s, k, policy, i, t);
  }

  lemma SwappedSlots<K(!new), V>(s: Cells<K, V>, policy: HashPolicy<K>, i: nat, t: nat)
    requires PolicyOk(policy) && Apart(AsSlots(s), policy.matches) && i < |s| && t < |s|
    ensures Apart(AsSlots(Swapped(s, i, t)), policy.matches)
    ensures Contents(AsSlots(Swapped(s, i, t))) == Contents(AsSlots(s))
  {
    ContentsApart(AsSlots(s), policy.matches, policy.Hashing());
    SwapSlots(AsSlots(s), AsSlots(Swapped(s, i, t)), i, t);
    SwapApart(AsSlots(s), AsSlots(Swapped(s, i, t)), policy.matches, policy.Hashing(), i, t);
  }

  lemma SwappedSets<K, V>(s: Cells<K, V>, i: nat, t: nat)
    requires i < |s| && t < |s| && s[i].IsLive() && !s[i].HasCollision() && !s[t].HasCollision()
    ensures |LiveSet(Swapped(s, i, t))| == |LiveSet(s)| && Waiting(Swapped(s, i, t)) < Waiting(s)
  {
    var r := Swapped(s, i, t);
    assert t in Waiting(s) && t !in Waiting(r);
    if s[t].IsLive() {
      assert LiveSet(r) == LiveSet(s);
    } else {
      assert LiveSet(r) == LiveSet(s) - {i} + {t};
    }
  }

  lemma SwappedRehashing<K, V>(s: Cells<K, V>, k: Log, policy: HashPolicy<K>, i: nat, t: nat)
    requires Rehashing(s, k, policy, i) && i < |s| && t < |s|
    requires s[i].IsLive() && !s[i].HasCollision() && !s[t].HasCollision()
    requires Reached(s, k, policy.hash(s[i].item.value.0), t)
    requires Apart(AsSlots(Swapped(s, i, t)), policy.matches)
    ensures Rehashing(Swapped(s, i, t), k, policy, i)
  {
    hide Reached, Probe, Apart, AsSlots;
    var r := Swapped(s, i, t);
    forall x | 0 <= x < |r| && r[x].HasCollision()
      ensures r[x].IsLive() && Reached(r, k, policy.hash(r[x].item.value.0), x)
    {
      MoreCollisions(s, r, k, policy.hash(r[x].item.value.0), x);
    }
  }

  lemma SwapApart<K(!new), V>(v: Slots<K, V>, r: Slots<K, V>, matches: Match<K>, hashOf: K -> nat, i: nat, t: nat)
    requires IsMatch(matches, hashOf) && Apart(v, matches)
    requires i < |v| && t < |v| && r == v[i := v[t]][t := v[i]]
    ensures Apart(r, matches)
  {
    forall x, y | 0 <= x < y < |r| && r[x].Some? && r[y].Some? ensures !matches(r[x].value.key, r[y].value.key) {
      var x' := if x == i then t else if x == t then i else x;
      var y' := if y == i then t else if y == t then i else y;
      assert r[x] == v[x'] && r[y] == v[y'] && x' != y';
      Symmetric(matches, hashOf, v[x'].value.key, v[y'].value.key);
    }
  }

  /** Exchanging two slots keeps the contents. */
  lemma SwapSlots<K, V>(v: Slots<K, V>, r: Slots<K, V>, i: nat, t: nat)
    requires UniqueKeys(v) && i < |v| && t < |v| && r == v[i := v[t]][t := v[i]]
    ensures UniqueKeys(r) && Contents(r) == Contents(v)
  {
    forall x | 0 <= x < |r| && r[x].Some?
      ensures r[x].value.key in Contents(v) && Contents(v)[r[x].value.key] == r[x].value.value
    {
      ContentsAt(v, if x == i then t else if x == t then i else x);
    }
    forall key | key in Contents(v) ensures exists x :: HashTables.Holds(r, x, key) {
      var y := SlotOf(v, key);
      assert HashTables.Holds(r, if y == i then t else if y == t then i else y, key);
    }
    ContentsAre(r, Contents(v));
  }
}
