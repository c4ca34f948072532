/** Whole runs of owning erasures, from construction to destruction: what each holds throughout,
    and that nothing is left behind. */
module ErasureRuns {
  import opened Options
  import opened Erasures

  type Held = Option<Callable>

  /** An operation on the erasures there are, given by index. Constructions put a new erasure, of
      any capacity at any address, at the end; End destroys one, and those after it move up.
      Addresses of temporaries are arbitrary. */
  datatype Op =
    | NewEmpty(base: nat, capacity: nat)
    | New(base: nat, capacity: nat, c: Callable, useBoolOp: bool, truthy: bool)
    | NewByMove(base: nat, capacity: nat, from: nat)
    | NewByCopy(base: nat, capacity: nat, from: nat)
    | NewConverted(base: nat, capacity: nat, from: nat, temporary: nat)
    | NewConvertedCopy(base: nat, capacity: nat, from: nat, temporary: nat)
    | Clear(i: nat)
    | Assign(i: nat, c: Callable, useBoolOp: bool, truthy: bool)
    | Move(to: nat, from: nat)
    | Copy(to: nat, from: nat)
    | MoveConverted(to: nat, from: nat, temporary: nat)
    | CopyConverted(to: nat, from: nat, temporary: nat)
    | Swap(i: nat, j: nat, temporary: nat)
    | End(i: nat)

  predicate Copyable(h: Held) { h.Some? ==> h.value.boxType.copyable }

  /** Two-argument assignments take distinct erasures, and only copyable callables are copied. */
  predicate Legal(op: Op, s: seq<Held>) {
    match op
    case NewEmpty(_, _) => true
    case New(_, _, _, _, _) => true
    case NewByMove(_, _, from) => from < |s|
    case NewByCopy(_, _, from) => from < |s| && Copyable(s[from])
    case NewConverted(_, _, from, _) => from < |s|
    case NewConvertedCopy(_, _, from, _) => from < |s| && Copyable(s[from])
    case Clear(i) => i < |s|
    case Assign(i, _, _, _) => i < |s|
    case Move(to, from) => to < |s| && from < |s| && to != from
    case Copy(to, from) => to < |s| && from < |s| && to != from && Copyable(s[from])
    case MoveConverted(to, from, _) => to < |s| && from < |s| && to != from
    case CopyConverted(to, from, _) => to < |s| && from < |s| && to != from && Copyable(s[from])
    case Swap(i, j, _) => i < |s| && j < |s|
    case End(i) => i < |s|
  }

  /** What a callable becomes when it is taken: nothing if its boolean value is false. */
  function Taken(c: Callable, useBoolOp: bool, truthy: bool): Held {
    if useBoolOp && !truthy then None else Some(c)
  }

  /** What an operation does to the callables held, whatever the capacities and addresses. */
  function Effect(op: Op, s: seq<Held>): seq<Held>
    requires Legal(op, s)
  {
    match op
    case NewEmpty(_, _) => s + [None]
    case New(_, _, c, useBoolOp, truthy) => s + [Taken(c, useBoolOp, truthy)]
    case NewByMove(_, _, from) => s[from := None] + [s[from]]
    case NewByCopy(_, _, from) => s + [s[from]]
    case NewConverted(_, _, from, _) => s[from := None] + [s[from]]
    case NewConvertedCopy(_, _, from, _) => s + [s[from]]
    case Clear(i) => s[i := None]
    case Assign(i, c, useBoolOp, truthy) => s[i := Taken(c, useBoolOp, truthy)]
    case Move(to, from) => s[from := None][to := s[from]]
    case Copy(to, from) => s[to := s[from]]
    case MoveConverted(to, from, _) => s[from := None][to := s[from]]
    case CopyConverted(to, from, _) => s[to := s[from]]
    case Swap(i, j, _) => s[i := s[j]][j := s[i]]
    case End(i) => s[..i] + s[i + 1..]
  }

  /** Nothing changes but at the places given. */
  predicate SameBut(s: seq<Held>, t: seq<Held>, places: set<int>) {
    |s| <= |t| && forall k :: 0 <= k < |s| && k !in places ==> t[k] == s[k]
  }

  predicate IsConstruction(op: Op) {
    op.NewEmpty? || op.New? || op.NewByMove? || op.NewByCopy? || op.NewConverted? || op.NewConvertedCopy?
  }

  /** What a construction leaves, element by element: a new element at the end. */
  predicate Constructed(op: Op, s: seq<Held>, t: seq<Held>)
    requires Legal(op, s) && IsConstruction(op)
  {
    && |t| == |s| + 1
    && match op
       case NewEmpty(_, _) => SameBut(s, t, {}) && t[|s|] == None
       case New(_, _, c, useBoolOp, truthy) =>
         SameBut(s, t, {}) && t[|s|] == if useBoolOp && !truthy then None else Some(c)
       case NewByMove(_, _, from) => SameBut(s, t, {from}) && t[from] == None && t[|s|] == s[from]
       case NewByCopy(_, _, from) => SameBut(s, t, {}) && t[|s|] == s[from]
       case NewConverted(_, _, from, _) => SameBut(s, t, {from}) && t[from] == None && t[|s|] == s[from]
       case NewConvertedCopy(_, _, from, _) => SameBut(s, t, {}) && t[|s|] == s[from]
  }

  /** What the other operations leave: moves empty what they move from, copies leave it, a swap exchanges
      two, and what follows an erasure that ends moves up. */
  predicate Changed(op: Op, s: seq<Held>, t: seq<Held>)
    requires Legal(op, s) && !IsConstruction(op)
  {
    && |t| == |s| - (if op.End? then 1 else 0)
    && match op
       case Clear(i) => SameBut(s, t, {i}) && t[i] == None
       case Assign(i, c, useBoolOp, truthy) =>
         SameBut(s, t, {i}) && t[i] == if useBoolOp && !truthy then None else Some(c)
       case Move(to, from) => SameBut(s, t, {to, from}) && t[from] == None && t[to] == s[from]
       case Copy(to, from) => SameBut(s, t, {to}) && t[to] == s[from]
       case MoveConverted(to, from, _) => SameBut(s, t, {to, from}) && t[from] == None && t[to] == s[from]
       case CopyConverted(to, from, _) => SameBut(s, t, {to}) && t[to] == s[from]
       case Swap(i, j, _) => SameBut(s, t, {i, j}) && t[i] == s[j] && t[j] == s[i]
       case End(i) => forall k :: 0 <= k < |t| ==> t[k] == s[if k < i then k else k + 1]
  }

  lemma EffectMeans(op: Op, s: seq<Held>)
    requires Legal(op, s)
    ensures if IsConstruction(op) then Constructed(op, s, Effect(op, s)) else Changed(op, s, Effect(op, s))
  {
    hide Effect, Constructed, Changed;
    if IsConstruction(op) {
      ConstructionMeans(op, s);
    } else if op.Move? || op.MoveConverted? {
      MoveMeans(op, s);
    } else if op.Swap? {
      SwapMeans(op, s);
    } else if op.End? {
      EndMeans(op, s);
    } else {
      AssignmentMeans(op, s);
    }
  }

  lemma ConstructionMeans(op: Op, s: seq<Held>)
    requires Legal(op, s) && IsConstruction(op)
    ensures Constructed(op, s, Effect(op, s))
  {
  }

  lemma AssignmentMeans(op: Op, s: seq<Held>)
    requires Legal(op, s) && (op.Clear? || op.Assign? || op.Copy? || op.CopyConverted?)
    ensures Changed(op, s, Effect(op, s))
  {
  }

  lemma MoveMeans(op: Op, s: seq<Held>)
    requires Legal(op, s) && (op.Move? || op.MoveConverted?)
    ensures Changed(op, s, Effect(op, s))
  {
  }

  lemma SwapMeans(op: Op, s: seq<Held>)
    requires Legal(op, s) && op.Swap?
    ensures Changed(op, s, Effect(op, s))
  {
  }

  lemma EndMeans(op: Op, s: seq<Held>)
    requires Legal(op, s) && op.End?
    ensures Changed(op, s, Effect(op, s))
  {
  }

  predicate LegalRun(ops: seq<Op>, s: seq<Held>)
    decreases |ops|
  {
    ops == [] || (Legal(ops[0], s) && LegalRun(ops[1..], Effect(ops[0], s)))
  }

  function EffectOfRun(ops: seq<Op>, s: seq<Held>): seq<Held>
    requires LegalRun(ops, s)
    decreases |ops|
  {
    if ops == [] then s else EffectOfRun(ops[1..], Effect(ops[0], s))
  }

  // ----- the erasures there are -----

  ghost predicate Distinct(es: seq<Erasure>) {
    forall i, j :: 0 <= i < j < |es| ==> es[i] != es[j]
  }

  /** The erasures listed are all that are active, each listed once. */
  ghost predicate Lists(es: seq<Erasure>, all: set<Erasure>) {
    Distinct(es) && (forall i :: 0 <= i < |es| ==> es[i] in all) && (forall e :: e in all ==> e in es)
  }

  /** What the erasures hold, in order. */
  ghost function Contents(es: seq<Erasure>, v: map<Erasure, Held>): seq<Held>
    requires forall i :: 0 <= i < |es| ==> es[i] in v
  {
    seq(|es|, i requires 0 <= i < |es| => v[es[i]])
  }

  lemma ContentsPut(es: seq<Erasure>, v: map<Erasure, Held>, i: nat, h: Held)
    requires Lists(es, v.Keys) && i < |es|
    ensures Contents(es, v[es[i] := h]) == Contents(es, v)[i := h] && v[es[i] := h].Keys == v.Keys
  {
  }

  lemma ContentsGrow(es: seq<Erasure>, v: map<Erasure, Held>, e: Erasure, h: Held)
    requires Lists(es, v.Keys) && e !in v
    ensures Lists(es + [e], v[e := h].Keys)
    ensures Contents(es + [e], v[e := h]) == Contents(es, v) + [h]
  {
  }

  /** The index of what comes to place j when element i is dropped. */
  function Dropping(i: nat, j: nat): nat { if j < i then j else j + 1 }

  lemma DropAt<T>(s: seq<T>, i: nat)
    requires i < |s|
    ensures |s[..i] + s[i + 1..]| == |s| - 1
    ensures forall j: nat :: j < |s| - 1 ==> (s[..i] + s[i + 1..])[j] == s[Dropping(i, j)]
  {
  }

  lemma ListsShrink(es: seq<Erasure>, all: set<Erasure>, i: nat, rest: seq<Erasure>)
    requires Lists(es, all) && i < |es| && |rest| == |es| - 1
    requires forall j: nat :: j < |rest| ==> rest[j] == es[Dropping(i, j)]
    ensures Lists(rest, all - {es[i]})
  {
    forall j, k | 0 <= j < k < |rest| ensures rest[j] != rest[k] {
      assert Dropping(i, j) < Dropping(i, k);
    }
    forall e | e in all - {es[i]} ensures e in rest {
      var j :| 0 <= j < |es| && es[j] == e;
      assert rest[if j < i then j else j - 1] == e;
    }
  }

  lemma ContentsShrink(es: seq<Erasure>, v: map<Erasure, Held>, i: nat)
    requires Lists(es, v.Keys) && i < |es|
    ensures Lists(es[..i] + es[i + 1..], (v - {es[i]}).Keys)
    ensures Contents(es[..i] + es[i + 1..], v - {es[i]}) == Contents(es, v)[..i] + Contents(es, v)[i + 1..]
  {
    var rest, w, s := es[..i] + es[i + 1..], v - {es[i]}, Contents(es, v);
    DropAt(es, i);
    DropAt(s, i);
    assert w.Keys == v.Keys - {es[i]};
    ListsShrink(es, v.Keys, i, rest);
    hide Dropping;
    forall j: nat | j < |rest| ensures Contents(rest, w)[j] == (s[..i] + s[i + 1..])[j] {
      assert rest[j] in w;
    }
  }

  lemma CopyableNow(m: Memory, e: Erasure)
    requires m.Valid() && e in m.states && Copyable(m.View()[e])
    ensures e.cmd.ProcessCmd? ==> e.cmd.boxType.copyable
  {
    if e.cmd.ProcessCmd? {
      e.BoxIsThereNow(m);
    }
  }

  // ----- operations -----

  /** The constructors: a new erasure in storage that was not in use. */
  method Create(m: Memory, es: seq<Erasure>, op: Op) returns (es': seq<Erasure>)
    requires m.Valid() && Lists(es, m.states.Keys)
    requires IsConstruction(op) && Legal(op, Contents(es, m.View()))
    modifies m, es
    ensures m.Valid() && Lists(es', m.states.Keys) && forall e :: e in es' ==> e in es || fresh(e)
    ensures Contents(es', m.View()) == Effect(op, old(Contents(es, m.View())))
  {
    hide Memory.Valid, Memory.View, Memory.Snapshot, Lists;
    ghost var v := m.View();
    var e := new Erasure(op.base, op.capacity);
    assert e !in m.states;
    es' := es + [e];
    match op
    case NewEmpty(_, _) =>
      e.BecomeEmpty(m);
      ContentsGrow(es, v, e, None);
    case New(_, _, c, useBoolOp, truthy) =>
      e.InitCallable(m, c, useBoolOp, truthy);
      ContentsGrow(es, v, e, Taken(c, useBoolOp, truthy));
    case NewByMove(_, _, from) =>
      Listed(es, v, from);
      es[from].MoveTo(m, e);
      GrowByMove(es, v, from, e);
    case NewByCopy(_, _, from) =>
      Listed(es, v, from);
      CopyableNow(m, es[from]);
      es[from].CopyTo(m, e);
      ContentsGrow(es, v, e, v[es[from]]);
    case NewConverted(_, _, from, temporary) =>
      Listed(es, v, from);
      e.InitConverted(m, es[from], temporary);
      GrowByMove(es, v, from, e);
    case NewConvertedCopy(_, _, from, temporary) =>
      Listed(es, v, from);
      CopyableNow(m, es[from]);
      e.InitConvertedCopy(m, es[from], temporary);
      ContentsGrow(es, v, e, v[es[from]]);
  }

  lemma Listed(es: seq<Erasure>, v: map<Erasure, Held>, i: nat)
    requires Lists(es, v.Keys) && i < |es|
    ensures es[i] in v && Contents(es, v)[i] == v[es[i]]
  {
  }

  lemma GrowByMove(es: seq<Erasure>, v: map<Erasure, Held>, from: nat, e: Erasure)
    requires Lists(es, v.Keys) && from < |es| && e !in v
    ensures var w := v[es[from] := None][e := v[es[from]]];
      Lists(es + [e], w.Keys) && Contents(es + [e], w) == Contents(es, v)[from := None] + [Contents(es, v)[from]]
  {
    ContentsPut(es, v, from, None);
    ContentsGrow(es, v[es[from] := None], e, v[es[from]]);
  }

  lemma PutTwice(es: seq<Erasure>, v: map<Erasure, Held>, i: nat, h: Held, j: nat, k: Held)
    requires Lists(es, v.Keys) && i < |es| && j < |es|
    ensures var w := v[es[i] := h][es[j] := k];
      w.Keys == v.Keys && Contents(es, w) == Contents(es, v)[i := h][j := k]
  {
    ContentsPut(es, v, i, h);
    ContentsPut(es, v[es[i] := h], j, k);
  }

  /** The assignments. */
  method Change(m: Memory, es: seq<Erasure>, op: Op)
    requires m.Valid() && Lists(es, m.states.Keys)
    requires !IsConstruction(op) && !op.End? && Legal(op, Contents(es, m.View()))
    modifies m, es
    ensures m.Valid() && m.states.Keys == old(m.states.Keys)
    ensures Contents(es, m.View()) == Effect(op, old(Contents(es, m.View())))
  {
    hide Memory.Valid, Memory.View, Memory.Snapshot;
    ghost var v := m.View();
    match op
    case Clear(i) =>
      es[i].AssignNull(m);
      ContentsPut(es, v, i, None);
    case Assign(i, c, useBoolOp, truthy) =>
      es[i].AssignCallable(m, c, useBoolOp, truthy);
      ContentsPut(es, v, i, Taken(c, useBoolOp, truthy));
    case Move(to, from) =>
      es[to].AssignMove(m, es[from]);
      PutTwice(es, v, from, None, to, v[es[from]]);
    case Copy(to, from) =>
      CopyableNow(m, es[from]);
      es[to].AssignCopy(m, es[from]);
      ContentsPut(es, v, to, v[es[from]]);
    case MoveConverted(to, from, temporary) =>
      es[to].AssignConverted(m, es[from], temporary);
      PutTwice(es, v, from, None, to, v[es[from]]);
    case CopyConverted(to, from, temporary) =>
      CopyableNow(m, es[from]);
      es[to].AssignConvertedCopy(m, es[from], temporary);
      ContentsPut(es, v, to, v[es[from]]);
    case Swap(i, j, temporary) =>
      es[i].Swap(m, es[j], temporary);
      PutTwice(es, v, i, v[es[j]], j, v[es[i]]);
  }

  /** The destructor: the erasure and what it held are gone. */
  method Destroy(m: Memory, es: seq<Erasure>, i: nat) returns (es': seq<Erasure>)
    requires m.Valid() && Lists(es, m.states.Keys) && i < |es|
    modifies m
    ensures m.Valid() && es' == es[..i] + es[i + 1..] && Lists(es', m.states.Keys)
    ensures Contents(es', m.View()) == old(Contents(es, m.View()))[..i] + old(Contents(es, m.View()))[i + 1..]
  {
    hide Memory.Valid, Memory.View, Memory.Snapshot, Lists;
    ghost var v := m.View();
    Listed(es, v, i);
    ContentsShrink(es, v, i);
    es[i].WeakDestroy(m);
    es' := es[..i] + es[i + 1..];
  }

  method Do(m: Memory, es: seq<Erasure>, op: Op) returns (es': seq<Erasure>)
    requires m.Valid() && Lists(es, m.states.Keys) && Legal(op, Contents(es, m.View()))
    modifies m, es
    ensures m.Valid() && Lists(es', m.states.Keys) && forall e :: e in es' ==> e in es || fresh(e)
    ensures Contents(es', m.View()) == Effect(op, old(Contents(es, m.View())))
    ensures if IsConstruction(op) then Constructed(op, old(Contents(es, m.View())), Contents(es', m.View()))
            else Changed(op, old(Contents(es, m.View())), Contents(es', m.View()))
  {
    hide Memory.Valid, Memory.View, Memory.Snapshot, Constructed, Changed;
    EffectMeans(op, Contents(es, m.View()));
    hide Lists;
    match op
    case End(i) =>
      es' := Destroy(m, es, i);
    case Clear(_) | Assign(_, _, _, _) | Move(_, _) | Copy(_, _) | MoveConverted(_, _, _) | CopyConverted(_, _, _)
      | Swap(_, _, _) =>
      Change(m, es, op);
      es' := es;
    case _ =>
      es' := Create(m, es, op);
  }

  /** Over any run, memory stays in order and each erasure holds what the operations say. */
  method Run(m: Memory, es: seq<Erasure>, ops: seq<Op>) returns (es': seq<Erasure>)
    requires m.Valid() && Lists(es, m.states.Keys) && LegalRun(ops, Contents(es, m.View()))
    modifies m, es
    ensures m.Valid() && Lists(es', m.states.Keys) && forall e :: e in es' ==> e in es || fresh(e)
    ensures Contents(es', m.View()) == EffectOfRun(ops, old(Contents(es, m.View())))
    decreases |ops|
  {
    hide Memory.Valid, Memory.View, Memory.Snapshot, Effect, Legal, Lists;
    if ops == [] {
      return es;
    }
    var next := Do(m, es, ops[0]);
    assert forall i :: 0 <= i < |next| ==> next[i] in next && (next[i] in es || fresh(next[i]));
    es' := Run(m, next, ops[1..]);
  }

  lemma {:induction false} OneToOne<A, B>(f: map<A, B>, image: set<B>)
    requires forall a, b :: a in f && b in f && a != b ==> f[a] != f[b]
    requires forall a :: a in f ==> f[a] in image
    requires forall b :: b in image ==> exists a :: a in f && f[a] == b
    ensures |f| == |image|
    decreases |image|
  {
    if image == {} {
      assert f.Keys == {};
    } else {
      var b :| b in image;
      var a :| a in f && f[a] == b;
      var g := f - {a};
      assert g.Keys == f.Keys - {a};
      forall c | c in image - {b} ensures exists a' :: a' in g && g[a'] == c {
        var a' :| a' in f && f[a'] == c;
        assert a' in g;
      }
      OneToOne(g, image - {b});
    }
  }

  /** At any time there are as many boxes as erasures that hold something: all boxes that were made
      and are not gone are held, by one erasure each. */
  lemma BoxesAreHeld(m: Memory)
    requires m.Valid()
    ensures |m.live| == |set e | e in m.states && m.View()[e].Some?| == m.boxesMade - m.boxesGone
  {
    hide Consistent;
    var w := m.Snapshot();
    var holders := set e | e in m.states && m.View()[e].Some?;
    forall a | a in w.owner ensures w.owner[a] in holders {
      assert Owned(w.owner[a], w.states[w.owner[a]]) == Some(a);
    }
    forall e | e in holders ensures exists a :: a in w.owner && w.owner[a] == e {
      var a := Owned(e, w.states[e]);
      assert a.Some? && a.value in w.owner;
    }
    OneToOne(w.owner, holders);
    assert |w.owner| == |w.owner.Keys| == |w.live.Keys| == |m.live|;
    assert holders == set e | e in m.states && m.View()[e].Some?;
  }

  /** With no active erasure there is no box and no block. */
  lemma NothingLeft(m: Memory)
    requires m.Valid() && m.states == map[]
    ensures m.live == map[] && m.blocks == {}
    ensures m.boxesMade == m.boxesGone && m.blocksMade == m.blocksGone
  {
    var w := m.Snapshot();
    assert forall a :: a in w.live ==> a in w.owner && w.owner[a] in w.states;
    assert m.live.Keys == {};
    assert forall b :: b in w.blocks ==> OnHeap(b) in w.live;
  }

  /** From nothing to nothing: erasures of any capacities at any addresses are constructed, used and
      destroyed in any order, and those that are left at the end are destroyed. Before that they
      hold what the operations say. Afterwards no box and no block is left; as many boxes were
      destroyed as were made and as many blocks freed as were allocated. */
  method Lifetime(ops: seq<Op>) returns (m: Memory, ghost atEnd: seq<Held>)
    requires LegalRun(ops, [])
    ensures fresh(m) && m.Valid() && m.states == map[] && m.live == map[] && m.blocks == {}
    ensures m.boxesMade == m.boxesGone && m.blocksMade == m.blocksGone
    ensures atEnd == EffectOfRun(ops, [])
  {
    hide Memory.Valid, Memory.View, Lists, LegalRun, EffectOfRun;
    m := new Memory();
    NoneListed(m);
    var es := Run(m, [], ops);
    AllListed(es, m.View());
    atEnd := Contents(es, m.View());
    while es != []
      invariant m.Valid() && Lists(es, m.states.Keys) && fresh(m)
      decreases |es|
    {
      es := Destroy(m, es, |es| - 1);
    }
    NoneActive(m);
    NothingLeft(m);
  }

  lemma AllListed(es: seq<Erasure>, v: map<Erasure, Held>)
    requires Lists(es, v.Keys)
    ensures forall i :: 0 <= i < |es| ==> es[i] in v
  {
  }

  lemma NoneListed(m: Memory)
    requires m.states == map[]
    ensures Lists([], m.states.Keys) && Contents([], m.View()) == []
  {
  }

  lemma NoneActive(m: Memory)
    requires Lists([], m.states.Keys)
    ensures m.states == map[]
  {
    assert m.states.Keys == {};
  }
}
