/** Composite policies for weak edges: ignored values, owning pointers, optional values and pairs
    nested to any depth over leaves with a policy of their own. */
module GCPolicy {

  // ----- leaves -----

  /** What traceWeak says of a value, and what it leaves in it. */
  datatype Traced<+T> = Traced(alive: bool, value: T)

  /** The policy of a leaf type, taken at one tracer: any two functions. */
  datatype LeafPolicy<!T> = LeafPolicy(traceWeak: T -> Traced<T>, needsSweep: T -> bool) {
    predicate AgreesOn(x: T) { needsSweep(x) <==> !traceWeak(x).alive }

    /** A leaf that survives is left as it was. */
    ghost predicate StaysInPlace(x: T) { traceWeak(x).alive ==> traceWeak(x).value == x }
  }

  /** What the collector decided about a heap thing: it dies, or it stays, maybe elsewhere. */
  datatype Fate = Dying | Staying(addr: nat)

  type Tracer = nat -> Fate

  datatype Pointer = Null | To(addr: nat)

  /** One such leaf is a pointer to a heap thing: it is cleared when its target dies and updated
      when the target has moved. */
  function HeapEdge(trc: Tracer): LeafPolicy<Pointer> {
    LeafPolicy(
      (p: Pointer) => if p.Null? then Traced(true, Null)
                      else if trc(p.addr).Dying? then Traced(false, Null)
                      else Traced(true, To(trc(p.addr).addr)),
      (p: Pointer) => p.To? && trc(p.addr).Dying?
    )
  }

  lemma HeapEdgeAgrees(trc: Tracer, p: Pointer)
    ensures HeapEdge(trc).AgreesOn(p)
    ensures HeapEdge(trc).StaysInPlace(p) <==> (p.To? ==> trc(p.addr) in {Dying, Staying(p.addr)})
    ensures p.To? && trc(p.addr).Staying? ==> HeapEdge(trc).traceWeak(p) == Traced(true, To(trc(p.addr).addr))
    ensures p.To? && trc(p.addr).Dying? ==> HeapEdge(trc).traceWeak(p) == Traced(false, Null)
    ensures p.Null? ==> HeapEdge(trc).traceWeak(p) == Traced(true, Null)
  {
  }

  // ----- values -----

  datatype Value<T> =
    | Ignored(x: int)
    | Leaf(leaf: T)
    | UniquePtr(owned: Value<T>)
    | NullUniquePtr
    | Just(content: Value<T>)
    | Nothing
    | Pair(first: Value<T>, second: Value<T>)

  /** What traceWeak leaves in a value. A pair stops at a first component that dies. */
  function TraceWeak<T>(policy: LeafPolicy<T>, v: Value<T>): Traced<Value<T>> {
    match v
    case Ignored(_) => Traced(true, v)
    case Leaf(x) => var r := policy.traceWeak(x); Traced(r.alive, Leaf(r.value))
    case NullUniquePtr => Traced(true, v)
    case UniquePtr(w) => var r := TraceWeak(policy, w); Traced(r.alive, UniquePtr(r.value))
    case Nothing => Traced(true, v)
    case Just(w) => var r := TraceWeak(policy, w); Traced(r.alive, Just(r.value))
    case Pair(a, b) =>
      var r := TraceWeak(policy, a);
      if !r.alive then Traced(false, Pair(r.value, b))
      else var q := TraceWeak(policy, b); Traced(q.alive, Pair(r.value, q.value))
  }

  predicate NeedsSweep<T>(policy: LeafPolicy<T>, v: Value<T>) {
    match v
    case Ignored(_) => false
    case Leaf(x) => policy.needsSweep(x)
    case NullUniquePtr => false
    case UniquePtr(w) => NeedsSweep(policy, w)
    case Nothing => false
    case Just(w) => NeedsSweep(policy, w)
    case Pair(a, b) => NeedsSweep(policy, a) || NeedsSweep(policy, b)
  }

  /** All leaves of a value, left to right. */
  function Leaves<T>(v: Value<T>): seq<T> {
    match v
    case Ignored(_) => []
    case Leaf(x) => [x]
    case NullUniquePtr => []
    case UniquePtr(w) => Leaves(w)
    case Nothing => []
    case Just(w) => Leaves(w)
    case Pair(a, b) => Leaves(a) + Leaves(b)
  }

  /** The value with every leaf updated and nothing else changed. */
  function UpdateAll<T>(policy: LeafPolicy<T>, v: Value<T>): Value<T> {
    match v
    case Ignored(_) => v
    case Leaf(x) => Leaf(policy.traceWeak(x).value)
    case NullUniquePtr => v
    case UniquePtr(w) => UniquePtr(UpdateAll(policy, w))
    case Nothing => v
    case Just(w) => Just(UpdateAll(policy, w))
    case Pair(a, b) => Pair(UpdateAll(policy, a), UpdateAll(policy, b))
  }

  ghost predicate LeavesAgree<T>(policy: LeafPolicy<T>, v: Value<T>) {
    forall x :: x in Leaves(v) ==> policy.AgreesOn(x)
  }

  ghost predicate LeavesStay<T>(policy: LeafPolicy<T>, v: Value<T>) {
    forall x :: x in Leaves(v) ==> policy.StaysInPlace(x)
  }

  /** Whatever the leaf policy, a value survives if and only if every leaf at every depth does, and
      needs sweeping if and only if some leaf does. */
  lemma {:induction false} AliveIffLeavesAre<T>(policy: LeafPolicy<T>, v: Value<T>)
    ensures TraceWeak(policy, v).alive <==> forall x :: x in Leaves(v) ==> policy.traceWeak(x).alive
    ensures NeedsSweep(policy, v) <==> exists x :: x in Leaves(v) && policy.needsSweep(x)
  {
    match v
    case UniquePtr(w) => AliveIffLeavesAre(policy, w);
    case Just(w) => AliveIffLeavesAre(policy, w);
    case Leaf(x) => assert x in Leaves(v);
    case Pair(a, b) =>
      AliveIffLeavesAre(policy, a);
      AliveIffLeavesAre(policy, b);
      assert forall x :: x in Leaves(v) <==> x in Leaves(a) || x in Leaves(b);
    case _ =>
  }

  /** Over leaves whose two functions agree, needsSweep is traceWeak with the sense reversed. */
  lemma SweepIsTraceReversed<T>(policy: LeafPolicy<T>, v: Value<T>)
    requires LeavesAgree(policy, v)
    ensures NeedsSweep(policy, v) <==> !TraceWeak(policy, v).alive
  {
    AliveIffLeavesAre(policy, v);
  }

  /** A survivor has all its leaves updated, although a pair stops at a dying component. */
  lemma {:induction false} SurvivorIsFullyUpdated<T>(policy: LeafPolicy<T>, v: Value<T>)
    requires TraceWeak(policy, v).alive
    ensures TraceWeak(policy, v).value == UpdateAll(policy, v)
  {
    match v
    case UniquePtr(w) => SurvivorIsFullyUpdated(policy, w);
    case Just(w) => SurvivorIsFullyUpdated(policy, w);
    case Pair(a, b) =>
      SurvivorIsFullyUpdated(policy, a);
      SurvivorIsFullyUpdated(policy, b);
    case _ =>
  }

  ghost predicate AllAlive<T>(policy: LeafPolicy<T>, xs: seq<T>) {
    forall x :: x in xs ==> policy.traceWeak(x).alive
  }

  /** Whether a value survives or not, its leaves are traced left to right up to the first that dies: those
      and that one are updated, and the leaves after it are left as they were. */
  lemma {:induction false} LeavesTracedInOrder<T>(policy: LeafPolicy<T>, v: Value<T>)
    ensures var before, after := Leaves(v), Leaves(TraceWeak(policy, v).value);
      |after| == |before| && forall i :: 0 <= i < |before| ==>
        after[i] == if AllAlive(policy, before[..i]) then policy.traceWeak(before[i]).value else before[i]
  {
    match v
    case UniquePtr(w) => LeavesTracedInOrder(policy, w);
    case Just(w) => LeavesTracedInOrder(policy, w);
    case Leaf(x) => assert AllAlive(policy, Leaves(v)[..0]);
    case Pair(a, b) =>
      LeavesTracedInOrder(policy, a);
      LeavesTracedInOrder(policy, b);
      AliveIffLeavesAre(policy, a);
      LeavesOfPair(policy, Leaves(a), Leaves(b));
    case _ =>
  }

  lemma LeavesOfPair<T>(policy: LeafPolicy<T>, a: seq<T>, b: seq<T>)
    ensures forall i :: 0 <= i < |a| ==> (a + b)[..i] == a[..i]
    ensures forall i :: |a| <= i < |a + b| ==>
      (AllAlive(policy, (a + b)[..i]) <==> AllAlive(policy, a) && AllAlive(policy, b[..i - |a|]))
  {
    forall i | |a| <= i < |a + b|
      ensures AllAlive(policy, (a + b)[..i]) <==> AllAlive(policy, a) && AllAlive(policy, b[..i - |a|])
    {
      assert (a + b)[..i] == a + b[..i - |a|];
      assert forall x :: x in a + b[..i - |a|] <==> x in a || x in b[..i - |a|];
    }
  }

  /** A survivor is left as it was if and only if each of its leaves is. */
  lemma {:induction false} SurvivorUnchangedInPlace<T>(policy: LeafPolicy<T>, v: Value<T>)
    requires TraceWeak(policy, v).alive
    ensures TraceWeak(policy, v).value == v <==> LeavesStay(policy, v)
  {
    match v
    case UniquePtr(w) => SurvivorUnchangedInPlace(policy, w);
    case Just(w) => SurvivorUnchangedInPlace(policy, w);
    case Leaf(x) => assert x in Leaves(v);
    case Pair(a, b) =>
      SurvivorUnchangedInPlace(policy, a);
      SurvivorUnchangedInPlace(policy, b);
      assert forall x :: x in Leaves(v) <==> x in Leaves(a) || x in Leaves(b);
    case _ =>
  }

  // ----- map entries -----

  datatype TracedEntry<K, V> = TracedEntry(alive: bool, key: K, value: V)

  /** The policy of a map entry; in the collector, both functions are taken at one tracer. */
  datatype EntryPolicy<!K, !V> = EntryPolicy(
    needsSweep: (K, V) -> bool,
    traceWeak: (K, V) -> TracedEntry<K, V>
  ) {
    /** The two functions agree on a given entry. */
    predicate AgreesOn(k: K, v: V) { needsSweep(k, v) <==> !traceWeak(k, v).alive }
  }

  function DefaultMapEntry<T>(policy: LeafPolicy<T>): EntryPolicy<Value<T>, Value<T>> {
    EntryPolicy(
      (k, v) => NeedsSweep(policy, k) || NeedsSweep(policy, v),
      (k, v) =>
        var r := TraceWeak(policy, k);
        if !r.alive then TracedEntry(false, r.value, v)
        else var q := TraceWeak(policy, v); TracedEntry(q.alive, r.value, q.value)
    )
  }

  /** The default entry policy keeps an entry if and only if every leaf of its key and of its value
      survives, and would sweep it if and only if one of them needs it; so it agrees with itself on
      every entry whose leaves agree. A kept entry has both parts fully updated, and is left as it was
      if and only if no leaf has changed. */
  lemma DefaultMapEntryAgrees<T>(policy: LeafPolicy<T>, k: Value<T>, v: Value<T>)
    ensures LeavesAgree(policy, k) && LeavesAgree(policy, v) ==> DefaultMapEntry(policy).AgreesOn(k, v)
    ensures var r := DefaultMapEntry(policy).traceWeak(k, v);
      r.alive ==>
        && r.key == UpdateAll(policy, k) && r.value == UpdateAll(policy, v)
        && (r.key == k && r.value == v <==> LeavesStay(policy, k) && LeavesStay(policy, v))
    ensures DefaultMapEntry(policy).traceWeak(k, v).alive <==>
      && (forall x :: x in Leaves(k) ==> policy.traceWeak(x).alive)
      && (forall x :: x in Leaves(v) ==> policy.traceWeak(x).alive)
    ensures var r := DefaultMapEntry(policy).traceWeak(k, v);
      r.key == TraceWeak(policy, k).value
      && r.value == if TraceWeak(policy, k).alive then TraceWeak(policy, v).value else v
    ensures DefaultMapEntry(policy).needsSweep(k, v) <==>
      || (exists x :: x in Leaves(k) && policy.needsSweep(x))
      || (exists x :: x in Leaves(v) && policy.needsSweep(x))
  {
    hide TraceWeak, NeedsSweep, Leaves, UpdateAll;
    AliveIffLeavesAre(policy, k);
    AliveIffLeavesAre(policy, v);
    if LeavesAgree(policy, k) && LeavesAgree(policy, v) {
      SweepIsTraceReversed(policy, k);
      SweepIsTraceReversed(policy, v);
    }
    var r := DefaultMapEntry(policy).traceWeak(k, v);
    if r.alive {
      SurvivorIsFullyUpdated(policy, k);
      SurvivorIsFullyUpdated(policy, v);
      SurvivorUnchangedInPlace(policy, k);
      SurvivorUnchangedInPlace(policy, v);
    }
  }

  /** The set cache decides by tracing a copy of the element and asserts that a survivor comes back
      unchanged: over agreeing leaves it decides as needsSweep does, and for a survivor the assertion
      holds if and only if no leaf has changed. */
  lemma SetEntryNeedsSweep<T>(policy: LeafPolicy<T>, prior: Value<T>)
    requires LeavesAgree(policy, prior)
    ensures var r := TraceWeak(policy, prior);
      !r.alive == NeedsSweep(policy, prior) && (r.alive ==> (r.value == prior <==> LeavesStay(policy, prior)))
  {
    SweepIsTraceReversed(policy, prior);
    if TraceWeak(policy, prior).alive {
      SurvivorUnchangedInPlace(policy, prior);
    }
  }

  // ----- the same through pointers -----

  class LeafCell<T> {
    var leaf: T

    constructor (leaf: T)
      ensures this.leaf == leaf
    {
      this.leaf := leaf;
    }

    /** The leaf's own traceWeak, which updates it through the pointer. */
    method TraceWeakLeaf(policy: LeafPolicy<T>) returns (alive: bool)
      modifies this
      ensures Traced(alive, leaf) == policy.traceWeak(old(leaf))
    {
      var r := policy.traceWeak(leaf);
      leaf := r.value;
      alive := r.alive;
    }
  }

  /** A value laid out in memory: each leaf sits in a cell of its own. */
  datatype Object<T> =
    | IgnoredObject(x: int)
    | LeafObject(cell: LeafCell<T>)
    | UniquePtrObject(owned: Object<T>)
    | NullObject
    | JustObject(content: Object<T>)
    | NothingObject
    | PairObject(first: Object<T>, second: Object<T>)
  {
    function Cells(): set<LeafCell<T>> {
      match this
      case LeafObject(c) => {c}
      case UniquePtrObject(o) => o.Cells()
      case JustObject(o) => o.Cells()
      case PairObject(a, b) => a.Cells() + b.Cells()
      case _ => {}
    }

    /** No two components share a cell. */
    predicate Separate() {
      match this
      case UniquePtrObject(o) => o.Separate()
      case JustObject(o) => o.Separate()
      case PairObject(a, b) => a.Separate() && b.Separate() && a.Cells() !! b.Cells()
      case _ => true
    }

    function View(): Value<T>
      reads Cells()
    {
      match this
      case IgnoredObject(x) => Ignored(x)
      case LeafObject(c) => Leaf(c.leaf)
      case UniquePtrObject(o) => UniquePtr(o.View())
      case NullObject => NullUniquePtr
      case JustObject(o) => Just(o.View())
      case NothingObject => Nothing
      case PairObject(a, b) => Pair(a.View(), b.View())
    }

    /** The view depends only on the cells. The set all holds them, and is known to exist. */
    twostate lemma ViewFrame(all: set<LeafCell<T>>)
      requires Cells() <= all && forall c :: c in all && c in Cells() ==> c.leaf == old(c.leaf)
      ensures View() == old(View())
    {
      match this
      case UniquePtrObject(o) => o.ViewFrame(all);
      case JustObject(o) => o.ViewFrame(all);
      case PairObject(a, b) =>
        a.ViewFrame(all);
        b.ViewFrame(all);
      case _ =>
    }

    /** traceWeak in place, following the policies' short circuits. */
    method TraceWeakInPlace(policy: LeafPolicy<T>, ghost all: set<LeafCell<T>>) returns (alive: bool)
      requires Separate() && Cells() <= all
      modifies Cells()
      ensures Traced(alive, View()) == TraceWeak(policy, old(View()))
      decreases this, 0
    {
      match this
      case LeafObject(c) =>
        alive := c.TraceWeakLeaf(policy);
      case UniquePtrObject(o) =>
        alive := o.TraceWeakInPlace(policy, all);
      case JustObject(o) =>
        alive := o.TraceWeakInPlace(policy, all);
      case PairObject(a, b) =>
        alive := a.TraceWeakBeside(policy, b, all);
        if alive {
          alive := b.TraceWeakBeside(policy, a, all);
        }
      case _ =>
        alive := true;
    }

    /** Tracing one component leaves another that shares no cell with it as it was. */
    method TraceWeakBeside(policy: LeafPolicy<T>, ghost other: Object<T>, ghost all: set<LeafCell<T>>)
      returns (alive: bool)
      requires Separate() && Cells() !! other.Cells() && Cells() + other.Cells() <= all
      modifies Cells()
      ensures Traced(alive, View()) == TraceWeak(policy, old(View()))
      ensures other.View() == old(other.View())
      decreases this, 1
    {
      alive := TraceWeakInPlace(policy, all);
      other.ViewFrame(all);
    }
  }
}
