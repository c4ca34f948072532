/** The owning type erasure: a callable boxed in a small buffer or on the heap, with the state
    held only by a command pointer and an invocation table. */
module Erasures {
  import opened Options
  import Words
  import Layout = HeapLayout

  /** The static type of a box. */
  datatype BoxType = BoxType(id: nat, size: nat, align: nat, copyable: bool)

  type SizedType = t: BoxType | t.size > 0 && t.align > 0 witness BoxType(0, 1, 1, true)

  /** A boxed callable: the type decides what a call does with the payload. */
  datatype Callable = Callable(boxType: SizedType, payload: int)

  /** cmd_: the empty command, or the command of a type for an in-place or a heap box. */
  datatype Command = EmptyCmd | ProcessCmd(boxType: SizedType, inplace: bool)

  /** vtable_: the empty table, or the invokers of a type for an in-place or a heap box. */
  datatype Table = EmptyTable | BoxTable(boxType: SizedType, inplace: bool)

  datatype Address = InBuffer(owner: Erasure, at: nat) | OnHeap(block: nat)

  // ----- the in-place slot -----

  /** std::align: the first aligned address in the buffer, if the box then fits. */
  function AlignIn(t: SizedType, base: nat, capacity: nat): Option<nat> {
    var at := Layout.RoundUp(base, t.align);
    if at + t.size <= base + capacity then Some(at) else None
  }

  predicate Fits(t: SizedType, base: nat, capacity: nat, at: nat) {
    base <= at && at % t.align == 0 && at + t.size <= base + capacity
  }

  /** In place is chosen exactly when some aligned slot in the buffer fits the box; the slot is
      the first such. */
  lemma SlotIsFirstFit(t: SizedType, base: nat, capacity: nat, at: nat)
    ensures AlignIn(t, base, capacity) == Some(at) ==> Fits(t, base, capacity, at)
    ensures Fits(t, base, capacity, at) ==>
      AlignIn(t, base, capacity).Some? && AlignIn(t, base, capacity).value <= at
  {
    Layout.RoundUpIsLeast(base, t.align, at / t.align);
    MultipleHasNoRemainder(Layout.HowMany(base, t.align), t.align);
  }

  lemma MultipleHasNoRemainder(k: nat, y: nat)
    requires y > 0
    ensures (k * y) % y == 0
  {
    assert k * y == k * y + 0;
    Words.DivModUnique(k * y, y, k, 0);
  }

  // ----- where content goes -----

  /** What content under command c has made: boxes in all, boxes in place, heap blocks. */
  function Boxes(c: Command): nat { if c.EmptyCmd? then 0 else 1 }

  function InPlace(c: Command): nat { if c.ProcessCmd? && c.inplace then 1 else 0 }

  function HeapBlocks(c: Command): nat { Boxes(c) - InPlace(c) }

  /** The command of an erasure after content was moved into it: a heap box stays on the heap, a box
      in place goes in place where it fits. */
  function Moved(c: Command, base: nat, capacity: nat): Command {
    if c.ProcessCmd? && c.inplace then ProcessCmd(c.boxType, AlignIn(c.boxType, base, capacity).Some?) else c
  }

  /** And after content was copied into it: the copy of any box goes in place where it fits. */
  function Copied(c: Command, base: nat, capacity: nat): Command {
    if c.ProcessCmd? then ProcessCmd(c.boxType, AlignIn(c.boxType, base, capacity).Some?) else c
  }

  // ----- ownership, on values -----

  datatype State = State(cmd: Command, table: Table, ptr: nat)

  const EMPTY: State := State(EmptyCmd, EmptyTable, 0)

  /** A moment of a run: the states of the active erasures, the boxes that exist, the heap blocks
      that are allocated, and for each box the erasure that owns it. */
  datatype World = World(
    states: map<Erasure, State>,
    live: map<Address, Callable>,
    blocks: set<nat>,
    owner: map<Address, Erasure>
  )

  /** The box an erasure in a state owns, as its command says. */
  function Owned(e: Erasure, st: State): Option<Address> {
    match st.cmd
    case EmptyCmd => None
    case ProcessCmd(t, true) => if e.Slot(t).Some? then Some(InBuffer(e, e.Slot(t).value)) else None
    case ProcessCmd(_, false) => Some(OnHeap(st.ptr))
  }

  /** Command and table are of one kind, and a box of that type exists where they look for it. */
  predicate Consistent(e: Erasure, st: State, live: map<Address, Callable>) {
    match st.cmd
    case EmptyCmd => st.table == EmptyTable
    case ProcessCmd(t, inplace) =>
      && st.table == BoxTable(t, inplace)
      && Owned(e, st).Some? && Owned(e, st).value in live && live[Owned(e, st).value].boxType == t
  }

  /** Each active erasure is in order and is the owner on record of its box. */
  predicate SoundStates(w: World) {
    forall e :: e in w.states ==>
      && Consistent(e, w.states[e], w.live)
      && var a := Owned(e, w.states[e]); a.Some? ==> a.value in w.owner && w.owner[a.value] == e
  }

  /** Every box has one owner, an active erasure that owns it. */
  predicate SoundOwners(w: World) {
    && w.owner.Keys == w.live.Keys
    && forall a :: a in w.owner ==>
         w.owner[a] in w.states && Owned(w.owner[a], w.states[w.owner[a]]) == Some(a)
  }

  /** The allocated blocks are those that hold a box. */
  predicate SoundBlocks(w: World) {
    && (forall a :: a in w.live && a.OnHeap? ==> a.block in w.blocks)
    && (forall b :: b in w.blocks ==> OnHeap(b) in w.live)
  }

  predicate Sound(w: World) { SoundStates(w) && SoundOwners(w) && SoundBlocks(w) }

  function Target(w: World, e: Erasure): Option<Callable>
    requires e in w.states
  {
    var a := Owned(e, w.states[e]);
    if a.Some? && a.value in w.live then Some(w.live[a.value]) else None
  }

  /** What each active erasure holds. */
  function ViewOf(w: World): (v: map<Erasure, Option<Callable>>)
    ensures v.Keys == w.states.Keys
  {
    map e | e in w.states :: Target(w, e)
  }

  function BlocksAt(a: Address): set<nat> { if a.OnHeap? then {a.block} else {} }

  function AddEmpty(w: World, e: Erasure, st: State): World {
    w.(states := w.states[e := st])
  }

  function AddBox(w: World, e: Erasure, st: State, a: Address, c: Callable): World {
    World(w.states[e := st], w.live[a := c], w.blocks + BlocksAt(a), w.owner[a := e])
  }

  function RemoveEmpty(w: World, e: Erasure): World {
    w.(states := w.states - {e})
  }

  function RemoveBox(w: World, e: Erasure, a: Address): World {
    World(w.states - {e}, w.live - {a}, w.blocks - BlocksAt(a), w.owner - {a})
  }

  /** The heap box of one erasure handed to another. */
  function HandOver(w: World, from: Erasure, to: Erasure, st: State): World {
    World((w.states - {from})[to := st], w.live, w.blocks, w.owner[OnHeap(st.ptr) := to])
  }

  predicate CanAddEmpty(w: World, e: Erasure, st: State) {
    Sound(w) && e !in w.states && st.cmd == EmptyCmd && st.table == EmptyTable
  }

  lemma AddEmptyStates(w: World, e: Erasure, st: State)
    requires CanAddEmpty(w, e, st)
    ensures SoundStates(AddEmpty(w, e, st))
  {
    EmptyOwnsNothing(e, st, w.live);
    hide Owned, Consistent, SoundOwners, SoundBlocks;
  }

  lemma AddEmptyOwners(w: World, e: Erasure, st: State)
    requires CanAddEmpty(w, e, st)
    ensures SoundOwners(AddEmpty(w, e, st)) && SoundBlocks(AddEmpty(w, e, st))
  {
    hide Owned, Consistent, SoundStates;
  }

  lemma AddEmptyView(w: World, e: Erasure, st: State)
    requires e !in w.states && Owned(e, st) == None
    ensures ViewOf(AddEmpty(w, e, st)) == ViewOf(w)[e := None]
  {
    hide Owned;
    forall f | f in w.states ensures Target(AddEmpty(w, e, st), f) == Target(w, f) {
    }
  }

  lemma AddEmptySound(w: World, e: Erasure, st: State)
    requires CanAddEmpty(w, e, st)
    ensures Sound(AddEmpty(w, e, st)) && ViewOf(AddEmpty(w, e, st)) == ViewOf(w)[e := None]
  {
    AddEmptyStates(w, e, st);
    AddEmptyOwners(w, e, st);
    EmptyOwnsNothing(e, st, w.live);
    AddEmptyView(w, e, st);
    hide Owned, Consistent, SoundStates, SoundOwners, SoundBlocks, ViewOf;
  }

  lemma EmptyOwnsNothing(e: Erasure, st: State, live: map<Address, Callable>)
    requires st.cmd == EmptyCmd && st.table == EmptyTable
    ensures Consistent(e, st, live) && Owned(e, st) == None
  {
  }

  /** What an erasure that is in order owns, and so holds, depends on that one box only. */
  lemma InOrder(w: World, e: Erasure)
    requires Sound(w) && e in w.states
    ensures Consistent(e, w.states[e], w.live)
    ensures var a := Owned(e, w.states[e]);
      a.Some? ==> a.value in w.live && a.value in w.owner && w.owner[a.value] == e
  {
  }

  lemma HasOwner(w: World, a: Address)
    requires Sound(w) && a in w.live
    ensures a in w.owner && w.owner[a] in w.states && Owned(w.owner[a], w.states[w.owner[a]]) == Some(a)
  {
  }

  lemma ConsistentBeside(e: Erasure, st: State, live: map<Address, Callable>, live': map<Address, Callable>)
    requires Consistent(e, st, live)
    requires Owned(e, st).Some? ==> Owned(e, st).value in live' && live'[Owned(e, st).value] == live[Owned(e, st).value]
    ensures Consistent(e, st, live')
  {
  }

  /** What is asked of a new box: it is somewhere free, and its erasure is set up for it. */
  predicate CanAdd(w: World, e: Erasure, st: State, a: Address, c: Callable) {
    && Sound(w) && e !in w.states && a !in w.live && Owned(e, st) == Some(a)
    && Consistent(e, st, w.live[a := c]) && BlocksAt(a) !! w.blocks
  }

  lemma AddBoxOther(w: World, e: Erasure, st: State, a: Address, c: Callable, f: Erasure)
    requires CanAdd(w, e, st, a, c) && f in w.states
    ensures Consistent(f, w.states[f], w.live[a := c]) && Owned(f, w.states[f]) != Some(a)
    ensures Owned(f, w.states[f]).Some? ==> Owned(f, w.states[f]).value in w.live
  {
    hide Owned, Consistent;
    InOrder(w, f);
    ConsistentBeside(f, w.states[f], w.live, w.live[a := c]);
  }

  lemma AddBoxStates(w: World, e: Erasure, st: State, a: Address, c: Callable)
    requires CanAdd(w, e, st, a, c)
    ensures SoundStates(AddBox(w, e, st, a, c))
  {
    hide Owned, Consistent, SoundOwners, SoundBlocks;
    forall f | f in w.states
      ensures Consistent(f, w.states[f], w.live[a := c]) && Owned(f, w.states[f]) != Some(a)
    {
      AddBoxOther(w, e, st, a, c, f);
    }
  }

  lemma AddBoxOwners(w: World, e: Erasure, st: State, a: Address, c: Callable)
    requires CanAdd(w, e, st, a, c)
    ensures SoundOwners(AddBox(w, e, st, a, c)) && SoundBlocks(AddBox(w, e, st, a, c))
  {
    hide Owned, Consistent, SoundStates;
  }

  lemma AddBoxView(w: World, e: Erasure, st: State, a: Address, c: Callable)
    requires CanAdd(w, e, st, a, c)
    ensures ViewOf(AddBox(w, e, st, a, c)) == ViewOf(w)[e := Some(c)]
  {
    hide Owned, Consistent, SoundStates, SoundOwners, SoundBlocks;
    forall f | f in w.states ensures Target(AddBox(w, e, st, a, c), f) == Target(w, f) {
      AddBoxOther(w, e, st, a, c, f);
    }
  }

  lemma AddBoxSound(w: World, e: Erasure, st: State, a: Address, c: Callable)
    requires CanAdd(w, e, st, a, c)
    ensures Sound(AddBox(w, e, st, a, c)) && ViewOf(AddBox(w, e, st, a, c)) == ViewOf(w)[e := Some(c)]
    ensures |AddBox(w, e, st, a, c).live| == |w.live| + 1
    ensures |AddBox(w, e, st, a, c).blocks| == |w.blocks| + |BlocksAt(a)|
  {
    AddBoxStates(w, e, st, a, c);
    AddBoxOwners(w, e, st, a, c);
    AddBoxView(w, e, st, a, c);
    hide Owned, Consistent, SoundStates, SoundOwners, SoundBlocks, ViewOf;
  }

  lemma RemoveEmptySound(w: World, e: Erasure)
    requires Sound(w) && e in w.states && w.states[e].cmd == EmptyCmd
    ensures Sound(RemoveEmpty(w, e)) && ViewOf(RemoveEmpty(w, e)) == ViewOf(w) - {e}
  {
  }

  lemma RemoveBoxOther(w: World, e: Erasure, a: Address, f: Erasure)
    requires Sound(w) && e in w.states && Owned(e, w.states[e]) == Some(a) && f in w.states && f != e
    ensures Consistent(f, w.states[f], w.live - {a}) && Owned(f, w.states[f]) != Some(a)
    ensures Owned(f, w.states[f]).Some? ==> Owned(f, w.states[f]).value in w.live
  {
    hide Owned, Consistent;
    InOrder(w, e);
    InOrder(w, f);
    ConsistentBeside(f, w.states[f], w.live, w.live - {a});
  }

  lemma RemoveBoxStates(w: World, e: Erasure, a: Address)
    requires Sound(w) && e in w.states && Owned(e, w.states[e]) == Some(a)
    ensures SoundStates(RemoveBox(w, e, a))
  {
    hide Owned, Consistent, SoundOwners, SoundBlocks;
    forall f | f in w.states && f != e
      ensures Consistent(f, w.states[f], w.live - {a}) && Owned(f, w.states[f]) != Some(a)
    {
      RemoveBoxOther(w, e, a, f);
    }
  }

  lemma RemoveBoxKeepsSound(w: World, e: Erasure, a: Address)
    requires Sound(w) && e in w.states && Owned(e, w.states[e]) == Some(a)
    ensures a in w.live && BlocksAt(a) <= w.blocks && Sound(RemoveBox(w, e, a))
  {
    RemoveBoxStates(w, e, a);
    RemoveBoxOwners(w, e, a);
    RemoveBoxBlocks(w, e, a);
    hide Owned, Consistent, SoundStates, SoundOwners, SoundBlocks, BlocksAt;
  }

  lemma RemoveBoxOwners(w: World, e: Erasure, a: Address)
    requires Sound(w) && e in w.states && Owned(e, w.states[e]) == Some(a)
    ensures SoundOwners(RemoveBox(w, e, a))
  {
    InOrder(w, e);
    hide Owned, Consistent, SoundStates, SoundBlocks;
  }

  lemma RemoveBoxBlocks(w: World, e: Erasure, a: Address)
    requires Sound(w) && e in w.states && Owned(e, w.states[e]) == Some(a)
    ensures a in w.live && BlocksAt(a) <= w.blocks && SoundBlocks(RemoveBox(w, e, a))
  {
    InOrder(w, e);
    hide Owned, Consistent, SoundStates, SoundOwners;
  }

  lemma RemoveBoxView(w: World, e: Erasure, a: Address)
    requires Sound(w) && e in w.states && Owned(e, w.states[e]) == Some(a)
    ensures ViewOf(RemoveBox(w, e, a)) == ViewOf(w) - {e}
  {
    hide Owned, Consistent, SoundStates, SoundOwners, SoundBlocks;
    forall f | f in w.states && f != e ensures Target(RemoveBox(w, e, a), f) == Target(w, f) {
      RemoveBoxOther(w, e, a, f);
    }
  }

  lemma RemoveBoxFacts(w: World, e: Erasure, a: Address)
    requires Sound(w) && e in w.states && Owned(e, w.states[e]) == Some(a)
    ensures a in w.live && BlocksAt(a) <= w.blocks
    ensures Sound(RemoveBox(w, e, a)) && ViewOf(RemoveBox(w, e, a)) == ViewOf(w) - {e}
    ensures |w.live - {a}| == |w.live| - 1
  {
    RemoveBoxKeepsSound(w, e, a);
    RemoveBoxView(w, e, a);
  }

  predicate CanHandOver(w: World, from: Erasure, to: Erasure, st: State) {
    && Sound(w) && from in w.states && to !in w.states
    && w.states[from].cmd.ProcessCmd? && !w.states[from].cmd.inplace
    && st.cmd == w.states[from].cmd && st.table == w.states[from].table && st.ptr == w.states[from].ptr
  }

  /** The box looked for by the new owner is the one the old owner had. */
  lemma HandOverSame(w: World, from: Erasure, to: Erasure, st: State)
    requires CanHandOver(w, from, to, st)
    ensures Owned(from, w.states[from]) == Owned(to, st) == Some(OnHeap(st.ptr))
    ensures Consistent(from, w.states[from], w.live) && Consistent(to, st, w.live)
    ensures OnHeap(st.ptr) in w.live && OnHeap(st.ptr) in w.owner && w.owner[OnHeap(st.ptr)] == from
  {
    InOrder(w, from);
  }

  lemma HandOverStates(w: World, from: Erasure, to: Erasure, st: State)
    requires CanHandOver(w, from, to, st)
    ensures SoundStates(HandOver(w, from, to, st))
  {
    hide Owned, Consistent, Sound, SoundOwners, SoundBlocks;
    HandOverSame(w, from, to, st);
    forall f | f in w.states && f != from
      ensures Consistent(f, w.states[f], w.live)
      ensures var a := Owned(f, w.states[f]);
        a.Some? ==> a.value != OnHeap(st.ptr) && a.value in w.owner && w.owner[a.value] == f
    {
      InOrder(w, f);
    }
  }

  lemma HandOverOwners(w: World, from: Erasure, to: Erasure, st: State)
    requires CanHandOver(w, from, to, st)
    ensures SoundOwners(HandOver(w, from, to, st)) && SoundBlocks(HandOver(w, from, to, st))
  {
    hide Owned, Consistent, SoundStates;
    HandOverSame(w, from, to, st);
  }

  lemma HandOverSound(w: World, from: Erasure, to: Erasure, st: State)
    requires CanHandOver(w, from, to, st)
    ensures Sound(HandOver(w, from, to, st))
    ensures ViewOf(HandOver(w, from, to, st)) == (ViewOf(w) - {from})[to := ViewOf(w)[from]]
  {
    HandOverStates(w, from, to, st);
    HandOverOwners(w, from, to, st);
    HandOverSame(w, from, to, st);
    hide Owned, Consistent, SoundStates, SoundOwners, SoundBlocks;
  }

  lemma CanAddFree(w: World, e: Erasure, st: State, a: Address, c: Callable)
    requires CanAdd(w, e, st, a, c)
    ensures a !in w.live
  {
  }

  lemma BoxIsThere(w: World, e: Erasure)
    requires Sound(w) && e in w.states && w.states[e].cmd.ProcessCmd?
    ensures var st, a := w.states[e], Owned(e, w.states[e]);
      && st.table == BoxTable(st.cmd.boxType, st.cmd.inplace)
      && a.Some? && a.value in w.live && w.live[a.value].boxType == st.cmd.boxType
      && (a.value.OnHeap? <==> !st.cmd.inplace) && BlocksAt(a.value) <= w.blocks
      && ViewOf(w)[e] == Some(w.live[a.value])
  {
    InOrder(w, e);
  }

  lemma HoldsNothing(w: World, e: Erasure)
    requires Sound(w) && e in w.states && w.states[e].cmd.EmptyCmd?
    ensures w.states[e].table == EmptyTable && ViewOf(w)[e] == None
  {
  }

  /** A box can be added in the buffer of inactive storage, if it fits there. */
  lemma CanAddInBuffer(w: World, e: Erasure, ptr: nat, c: Callable)
    requires Sound(w) && e !in w.states && e.Slot(c.boxType).Some?
    ensures var t := c.boxType;
      CanAdd(w, e, State(ProcessCmd(t, true), BoxTable(t, true), ptr), InBuffer(e, e.Slot(t).value), c)
  {
    hide AlignIn;
    var a := InBuffer(e, e.Slot(c.boxType).value);
    if a in w.live {
      HasOwner(w, a);
      assert false;
    }
  }

  /** And in a block that was not allocated. */
  lemma CanAddOnHeap(w: World, e: Erasure, block: nat, c: Callable)
    requires Sound(w) && e !in w.states && block !in w.blocks
    ensures var t := c.boxType;
      CanAdd(w, e, State(ProcessCmd(t, false), BoxTable(t, false), block), OnHeap(block), c)
  {
  }

  lemma MinusPut<K, V>(m: map<K, V>, k: K, v: V)
    ensures (m - {k})[k := v] == m[k := v]
  {
  }

  lemma PutSame<K, V>(m: map<K, V>, k: K)
    requires k in m
    ensures m[k := m[k]] == m
  {
  }

  lemma PutBoth<K, V>(m: map<K, V>, j: K, u: V, k: K, v: V)
    requires j != k
    ensures m[j := u][k := v] == m[k := v][j := u]
    ensures (m - {j})[k := v][j := u] == m[j := u][k := v]
    ensures (m[k := v] - {j})[j := u] == m[j := u][k := v]
  {
  }

  // ----- memory -----

  /** The boxes that exist and the heap blocks that are allocated, with counts of all that was
      ever done. Active erasures are those whose command says what they hold; an erasure that is
      under construction, or whose box was destroyed without resetting it, is not. */
  class Memory {
    var live: map<Address, Callable>
    var blocks: set<nat>
    ghost var owner: map<Address, Erasure>
    ghost var states: map<Erasure, State>
    ghost var boxesMade: nat
    ghost var boxesGone: nat
    ghost var blocksMade: nat
    ghost var blocksGone: nat

    constructor ()
      ensures Valid() && Snapshot() == World(map[], map[], {}, map[])
      ensures boxesMade == boxesGone == blocksMade == blocksGone == 0
    {
      live, blocks, owner, states := map[], {}, map[], map[];
      boxesMade, boxesGone, blocksMade, blocksGone := 0, 0, 0, 0;
    }

    ghost function Snapshot(): World
      reads this
    {
      World(states, live, blocks, owner)
    }

    /** The recorded states are those of the erasures, the ownership is sound, the counts balance. */
    ghost predicate Valid()
      reads this, states.Keys
    {
      (forall e :: e in states ==> states[e] == e.Fields()) && Sound(Snapshot()) && Balanced()
    }

    /** What each active erasure holds. */
    ghost function View(): (v: map<Erasure, Option<Callable>>)
      ensures v.Keys == states.Keys
      reads this
    {
      ViewOf(Snapshot())
    }

    /** Conservation: every box made is gone or exists, every block allocated is freed or held. */
    ghost predicate Balanced()
      reads this
    {
      boxesMade == boxesGone + |live| && blocksMade == blocksGone + |blocks|
    }

    /** How many boxes were made and destroyed, how many blocks allocated and freed. */
    twostate predicate Traffic(made: int, gone: int, taken: int, freed: int)
      reads this
    {
      && boxesMade == old(boxesMade) + made && boxesGone == old(boxesGone) + gone
      && blocksMade == old(blocksMade) + taken && blocksGone == old(blocksGone) + freed
    }

    twostate predicate NoTraffic()
      reads this
    {
      Traffic(0, 0, 0, 0)
    }

    method Construct(at: Address, c: Callable, ghost e: Erasure)
      requires at !in live
      modifies this`live, this`owner, this`boxesMade
      ensures live == old(live)[at := c] && owner == old(owner)[at := e]
      ensures boxesMade == old(boxesMade) + 1
    {
      live := live[at := c];
      owner := owner[at := e];
      boxesMade := boxesMade + 1;
    }

    /** No box is destroyed that does not exist. */
    method Destroy(at: Address)
      requires at in live
      modifies this`live, this`owner, this`boxesGone
      ensures live == old(live) - {at} && owner == old(owner) - {at}
      ensures boxesGone == old(boxesGone) + 1
    {
      live := live - {at};
      owner := owner - {at};
      boxesGone := boxesGone + 1;
    }

    method Allocate() returns (block: nat)
      modifies this`blocks, this`blocksMade
      ensures block !in old(blocks) && blocks == old(blocks) + {block}
      ensures blocksMade == old(blocksMade) + 1
    {
      block := FreshBlock(blocks);
      blocks := blocks + {block};
      blocksMade := blocksMade + 1;
    }

    /** No block is freed that is not allocated, and none while a box is in it. */
    method Deallocate(block: nat)
      requires block in blocks && OnHeap(block) !in live
      modifies this`blocks, this`blocksGone
      ensures blocks == old(blocks) - {block} && blocksGone == old(blocksGone) + 1
    {
      blocks := blocks - {block};
      blocksGone := blocksGone + 1;
    }
  }

  method FreshBlock(blocks: set<nat>) returns (block: nat)
    ensures block !in blocks
  {
    block := 0;
    var rest := blocks;
    while rest != {}
      invariant rest <= blocks && forall b :: b in blocks && b !in rest ==> b < block
      decreases rest
    {
      var b :| b in rest;
      rest := rest - {b};
      if b >= block {
        block := b + 1;
      }
    }
  }

  class Erasure {
    const base: nat      // address of the storage
    const capacity: nat  // its size
    var cmd: Command
    var table: Table
    var ptr: nat         // block of a heap box

    /** Raw storage, not yet active. */
    constructor (base: nat, capacity: nat)
      ensures this.base == base && this.capacity == capacity
    {
      this.base, this.capacity := base, capacity;
      cmd, table, ptr := EmptyCmd, EmptyTable, 0;
    }

    function Fields(): State
      reads this
    {
      State(cmd, table, ptr)
    }

    function Slot(t: SizedType): Option<nat> { AlignIn(t, base, capacity) }

    /** Where a box of type t is found, in place or through the pointer. */
    method Retrieve(t: SizedType, inplace: bool) returns (at: Option<Address>)
      ensures at == if inplace then (if Slot(t).Some? then Some(InBuffer(this, Slot(t).value)) else None)
                    else Some(OnHeap(ptr))
    {
      if inplace {
        var slot := Slot(t);
        at := if slot.Some? then Some(InBuffer(this, slot.value)) else None;
      } else {
        at := Some(OnHeap(ptr));
      }
    }

    // ----- the pair of command and table -----

    method SetInplace(t: SizedType)
      modifies this`cmd, this`table
      ensures cmd == ProcessCmd(t, true) && table == BoxTable(t, true)
    {
      table := BoxTable(t, true);
      cmd := ProcessCmd(t, true);
    }

    method SetAllocated(t: SizedType)
      modifies this`cmd, this`table
      ensures cmd == ProcessCmd(t, false) && table == BoxTable(t, false)
    {
      table := BoxTable(t, false);
      cmd := ProcessCmd(t, false);
    }

    method SetEmpty()
      modifies this`cmd, this`table
      ensures cmd == EmptyCmd && table == EmptyTable
    {
      table := EmptyTable;
      cmd := EmptyCmd;
    }

    /** Makes inactive storage an active empty erasure. */
    method BecomeEmpty(m: Memory)
      requires m.Valid() && this !in m.states
      modifies this`cmd, this`table, m`states
      ensures m.Valid() && m.View() == old(m.View())[this := None] && cmd.EmptyCmd?
    {
      hide Sound, ViewOf;
      ghost var w := m.Snapshot();
      SetEmpty();
      m.states := m.states[this := Fields()];
      AddEmptySound(w, this, Fields());
    }

    /** Constructs a box at a free place that this erasure is set up for, and makes it active. */
    method PlaceBox(m: Memory, at: Address, c: Callable, ghost w: World)
      requires CanAdd(w, this, Fields(), at, c) && m.Balanced()
      requires w.states == m.states && forall e :: e in m.states ==> m.states[e] == e.Fields()
      requires w.live == m.live && w.owner == m.owner && m.blocks == w.blocks + BlocksAt(at)
      modifies m`live, m`owner, m`states, m`boxesMade
      ensures m.Valid() && m.View() == ViewOf(w)[this := Some(c)]
      ensures m.boxesMade == old(m.boxesMade) + 1
    {
      hide Sound, ViewOf, CanAdd, Owned, Consistent, BlocksAt;
      CanAddFree(w, this, Fields(), at, c);
      m.Construct(at, c, this);
      m.states := m.states[this := Fields()];
      ghost var w' := AddBox(w, this, Fields(), at, c);
      assert m.Snapshot() == w';
      hide AddBox;
      AddBoxSound(w, this, Fields(), at, c);
    }

    /** Puts a box into inactive storage: in place when it fits, else in a new heap block. */
    method ConstructBox(m: Memory, c: Callable)
      requires m.Valid() && this !in m.states
      modifies this, m
      ensures m.Valid() && m.View() == old(m.View())[this := Some(c)]
      ensures cmd == ProcessCmd(c.boxType, Slot(c.boxType).Some?)
      ensures m.boxesMade == old(m.boxesMade) + 1 && m.boxesGone == old(m.boxesGone)
      ensures m.blocksMade == old(m.blocksMade) + (if cmd.inplace then 0 else 1)
      ensures m.blocksGone == old(m.blocksGone)
    {
      hide Sound, ViewOf, Erasure.Slot, CanAdd, Owned, Consistent;
      var storage := Retrieve(c.boxType, true);
      if storage.Some? {
        CanAddInBuffer(m.Snapshot(), this, ptr, c);
        SetInplace(c.boxType);
        PlaceBox(m, storage.value, c, m.Snapshot());
      } else {
        ConstructOnHeap(m, c);
      }
    }

    /** In a block from the allocator. */
    method ConstructOnHeap(m: Memory, c: Callable)
      requires m.Valid() && this !in m.states
      modifies this, m
      ensures m.Valid() && m.View() == old(m.View())[this := Some(c)]
      ensures cmd == ProcessCmd(c.boxType, false)
      ensures m.boxesMade == old(m.boxesMade) + 1 && m.boxesGone == old(m.boxesGone)
      ensures m.blocksMade == old(m.blocksMade) + 1 && m.blocksGone == old(m.blocksGone)
    {
      hide Sound, ViewOf, CanAdd, Owned, Consistent;
      ghost var w := m.Snapshot();
      ptr := m.Allocate();
      CanAddOnHeap(w, this, ptr, c);
      SetAllocated(c.boxType);
      PlaceBox(m, OnHeap(ptr), c, w);
    }

    lemma HoldsNothingNow(m: Memory)
      requires m.Valid() && this in m.states && cmd.EmptyCmd?
      ensures table == EmptyTable && m.View()[this] == None
    {
      HoldsNothing(m.Snapshot(), this);
    }

    lemma BoxIsThereNow(m: Memory)
      requires m.Valid() && this in m.states && cmd.ProcessCmd?
      ensures table == BoxTable(cmd.boxType, cmd.inplace)
      ensures cmd.inplace ==> Slot(cmd.boxType).Some?
      ensures var at := if cmd.inplace then InBuffer(this, Slot(cmd.boxType).value) else OnHeap(ptr);
        && at in m.live && m.live[at].boxType == cmd.boxType && m.View()[this] == Some(m.live[at])
        && Owned(this, Fields()) == Some(at)
    {
      BoxIsThere(m.Snapshot(), this);
    }

    // ----- the commands -----

    /** op_weak_destroy: the box goes, and a heap box's block with it; command and table are left
        as they are, so the erasure is no longer active. */
    method WeakDestroy(m: Memory)
      requires m.Valid() && this in m.states
      modifies m
      ensures m.Valid() && m.View() == old(m.View()) - {this}
      ensures m.boxesMade == old(m.boxesMade) && m.blocksMade == old(m.blocksMade)
      ensures m.boxesGone == old(m.boxesGone) + (if cmd.EmptyCmd? then 0 else 1)
      ensures m.blocksGone == old(m.blocksGone) + (if cmd.ProcessCmd? && !cmd.inplace then 1 else 0)
    {
      hide Sound, ViewOf;
      if cmd.EmptyCmd? {
        RemoveEmptySound(m.Snapshot(), this);
        m.states := m.states - {this};
      } else {
        RemoveOwnBox(m);
      }
    }

    method RemoveOwnBox(m: Memory)
      requires m.Valid() && this in m.states && cmd.ProcessCmd?
      modifies m
      ensures m.Valid() && m.View() == old(m.View()) - {this}
      ensures m.boxesMade == old(m.boxesMade) && m.blocksMade == old(m.blocksMade)
      ensures m.boxesGone == old(m.boxesGone) + 1
      ensures m.blocksGone == old(m.blocksGone) + (if cmd.inplace then 0 else 1)
    {
      hide Sound, ViewOf, Erasure.Slot, Owned, Consistent, BlocksAt;
      ghost var w := m.Snapshot();
      BoxIsThereNow(m);
      var at := Retrieve(cmd.boxType, cmd.inplace);
      BoxIsThere(w, this);
      RemoveBoxFacts(w, this, at.value);
      FreeBox(m, at.value);
      m.states := m.states - {this};
      assert m.Snapshot() == RemoveBox(w, this, at.value);
    }

    /** Destroys a box, and frees its block when it is on the heap. */
    method FreeBox(m: Memory, at: Address)
      requires at in m.live && BlocksAt(at) <= m.blocks
      requires at.OnHeap? ==> at.block == ptr
      requires cmd.ProcessCmd? && (at.OnHeap? <==> !cmd.inplace)
      modifies m`live, m`owner, m`blocks, m`boxesGone, m`blocksGone
      ensures m.live == old(m.live) - {at} && m.owner == old(m.owner) - {at}
      ensures m.blocks == old(m.blocks) - BlocksAt(at)
      ensures |m.blocks| == old(|m.blocks|) - (if cmd.inplace then 0 else 1)
      ensures m.boxesGone == old(m.boxesGone) + 1
      ensures m.blocksGone == old(m.blocksGone) + (if cmd.inplace then 0 else 1)
    {
      m.Destroy(at);
      if !cmd.inplace {
        m.Deallocate(ptr);
      }
    }

    /** op_destroy: as op_weak_destroy, and resets the erasure to empty. */
    method DestroyBox(m: Memory)
      requires m.Valid() && this in m.states
      modifies m, this`cmd, this`table
      ensures m.Valid() && m.View() == old(m.View())[this := None] && cmd.EmptyCmd?
      ensures m.Traffic(0, Boxes(old(cmd)), 0, HeapBlocks(old(cmd)))
    {
      hide Memory.Valid, Memory.View, Memory.Snapshot, AlignIn;
      if cmd.ProcessCmd? {
        ghost var v := m.View();
        WeakDestroy(m);
        BecomeEmpty(m);
        MinusPut(v, this, None);
      } else {
        HoldsNothingNow(m);
        PutSame(m.View(), this);
      }
    }

    /** op_move: hands a heap box over by its pointer; moves an in-place box into a new one, which
        goes in place or to the heap as the target's capacity has it, and destroys the old one.
        The source is then empty. */
    method MoveTo(m: Memory, to: Erasure)
      requires m.Valid() && this in m.states && to !in m.states
      modifies this`cmd, this`table, to, m
      ensures m.Valid() && m.View() == old(m.View())[this := None][to := old(m.View())[this]]
      ensures old(cmd.ProcessCmd? && !cmd.inplace) ==> m.NoTraffic() && to.ptr == old(ptr) && to.cmd == old(cmd)
      ensures old(cmd.EmptyCmd?) ==> m.NoTraffic()
      ensures old(cmd.ProcessCmd? && cmd.inplace) ==>
        && m.boxesMade == old(m.boxesMade) + 1 && m.boxesGone == old(m.boxesGone) + 1
        && m.blocksMade == old(m.blocksMade) + (if to.Slot(old(cmd).boxType).Some? then 0 else 1)
        && m.blocksGone == old(m.blocksGone)
        && to.cmd == ProcessCmd(old(cmd).boxType, to.Slot(old(cmd).boxType).Some?)
      ensures cmd.EmptyCmd? && to.cmd == Moved(old(cmd), to.base, to.capacity)
      ensures m.Traffic(InPlace(old(cmd)), InPlace(old(cmd)), HeapBlocks(to.cmd) - HeapBlocks(old(cmd)), 0)
    {
      hide Memory.Valid, Memory.View, Memory.Snapshot, AlignIn, Sound, ViewOf;
      ghost var v := m.View();
      match cmd
      case EmptyCmd =>
        HoldsNothingNow(m);
        to.BecomeEmpty(m);
        SetEmpty();
        PutSame(v, this);
      case ProcessCmd(t, true) =>
        BoxIsThereNow(m);
        var at := Retrieve(t, true);
        to.ConstructBox(m, m.live[at.value]);
        WeakDestroy(m);
        BecomeEmpty(m);
        PutBoth(v, this, None, to, v[this]);
      case ProcessCmd(t, false) =>
        MoveHeapBox(m, to);
        BecomeEmpty(m);
        PutBoth(v, this, None, to, v[this]);
    }

    /** Just the pointer changes hands. */
    method MoveHeapBox(m: Memory, to: Erasure)
      requires m.Valid() && this in m.states && to !in m.states
      requires cmd.ProcessCmd? && !cmd.inplace
      modifies to, m`owner, m`states
      ensures m.Valid() && m.View() == (old(m.View()) - {this})[to := old(m.View())[this]]
      ensures to.ptr == ptr && to.cmd == cmd
    {
      hide Sound, ViewOf, AlignIn, Consistent, Owned;
      ghost var w := m.Snapshot();
      BoxIsThere(w, this);
      to.ptr := ptr;
      to.SetAllocated(cmd.boxType);
      HandOverSound(w, this, to, to.Fields());
      m.owner := m.owner[OnHeap(ptr) := to];
      m.states := (m.states - {this})[to := to.Fields()];
      assert m.Snapshot() == HandOver(w, this, to, to.Fields());
    }

    /** op_copy: a new box beside the old one. */
    method CopyTo(m: Memory, to: Erasure)
      requires m.Valid() && this in m.states && to !in m.states
      requires cmd.ProcessCmd? ==> cmd.boxType.copyable
      modifies to, m
      ensures m.Valid() && m.View() == old(m.View())[to := old(m.View())[this]]
      ensures cmd.EmptyCmd? ==> m.NoTraffic() && to.cmd.EmptyCmd?
      ensures cmd.ProcessCmd? ==>
        && to.cmd == ProcessCmd(cmd.boxType, to.Slot(cmd.boxType).Some?)
        && m.Traffic(1, 0, if to.cmd.inplace then 0 else 1, 0)
      ensures to.cmd == Copied(cmd, to.base, to.capacity)
    {
      hide Memory.Valid, Memory.View, Memory.Snapshot, AlignIn, Sound, ViewOf;
      match cmd
      case EmptyCmd =>
        HoldsNothingNow(m);
        to.BecomeEmpty(m);
      case ProcessCmd(t, inplace) =>
        BoxIsThereNow(m);
        var at := Retrieve(t, inplace);
        to.ConstructBox(m, m.live[at.value]);
    }

    /** op_fetch_empty. */
    method Empty(m: Memory) returns (empty: bool)
      requires m.Valid() && this in m.states
      ensures empty <==> m.View()[this] == None
    {
      empty := cmd.EmptyCmd?;
      if empty {
        HoldsNothingNow(m);
      } else {
        BoxIsThereNow(m);
      }
    }

    /** A call goes through the table, not the command: it reaches the callable held, or the empty
        invoker when there is none. */
    method Invoke(m: Memory) returns (called: Option<Callable>)
      requires m.Valid() && this in m.states
      ensures called == m.View()[this]
    {
      if cmd.EmptyCmd? {
        HoldsNothingNow(m);
      } else {
        BoxIsThereNow(m);
      }
      match table
      case EmptyTable =>
        called := None;
      case BoxTable(t, inplace) =>
        var at := Retrieve(t, inplace);
        called := Some(m.live[at.value]);
    }

    // ----- the erasure's own operations -----

    /** operator=(nullptr). */
    method AssignNull(m: Memory)
      requires m.Valid() && this in m.states
      modifies m, this`cmd, this`table
      ensures m.Valid() && m.View() == old(m.View())[this := None] && cmd.EmptyCmd?
      ensures m.Traffic(0, Boxes(old(cmd)), 0, HeapBlocks(old(cmd)))
    {
      DestroyBox(m);
    }

    /** Move assignment from another erasure, of any capacity. */
    method AssignMove(m: Memory, right: Erasure)
      requires m.Valid() && this in m.states && right in m.states && right != this
      modifies m, this, right`cmd, right`table
      ensures m.Valid() && m.View() == old(m.View())[right := None][this := old(m.View())[right]]
      ensures right.cmd.EmptyCmd? && cmd == Moved(old(right.cmd), base, capacity)
      ensures var c, was := old(right.cmd), old(cmd);
        m.Traffic(InPlace(c), InPlace(c) + Boxes(was), HeapBlocks(cmd) - HeapBlocks(c), HeapBlocks(was))
    {
      hide Memory.Valid, Memory.View, Memory.Snapshot, AlignIn;
      ghost var v := m.View();
      WeakDestroy(m);
      right.MoveTo(m, this);
      MinusPutBoth(v, this, v[right], right, None);
    }

    /** Copy assignment. */
    method AssignCopy(m: Memory, right: Erasure)
      requires m.Valid() && this in m.states && right in m.states && right != this
      requires right.cmd.ProcessCmd? ==> right.cmd.boxType.copyable
      modifies m, this
      ensures m.Valid() && m.View() == old(m.View())[this := old(m.View())[right]]
      ensures cmd == Copied(right.cmd, base, capacity)
      ensures m.Traffic(Boxes(cmd), Boxes(old(cmd)), HeapBlocks(cmd), HeapBlocks(old(cmd)))
    {
      hide Memory.Valid, Memory.View, Memory.Snapshot, AlignIn;
      ghost var v := m.View();
      WeakDestroy(m);
      right.CopyTo(m, this);
      MinusPut(v, this, v[right]);
    }

    /** Assignment of a callable; one with a false boolean value clears the erasure instead. */
    method AssignCallable(m: Memory, c: Callable, useBoolOp: bool, truthy: bool)
      requires m.Valid() && this in m.states
      modifies m, this
      ensures m.Valid()
      ensures m.View() == old(m.View())[this := if useBoolOp && !truthy then None else Some(c)]
      ensures cmd == if useBoolOp && !truthy then EmptyCmd else ProcessCmd(c.boxType, Slot(c.boxType).Some?)
      ensures m.Traffic(Boxes(cmd), Boxes(old(cmd)), HeapBlocks(cmd), HeapBlocks(old(cmd)))
    {
      hide Memory.Valid, Memory.View, Memory.Snapshot, AlignIn;
      if useBoolOp && !truthy {
        AssignNull(m);
      } else {
        ghost var v := m.View();
        WeakDestroy(m);
        ConstructBox(m, c);
        MinusPut(v, this, Some(c));
      }
    }

    /** Assignment from an erasure of another configuration takes it by value: it is moved into a
        temporary of the source's capacity, from there into the target, and the temporary dies. */
    method AssignConverted(m: Memory, right: Erasure, temporaryBase: nat)
      requires m.Valid() && this in m.states && right in m.states && right != this
      modifies m, this, right`cmd, right`table
      ensures m.Valid() && m.View() == old(m.View())[right := None][this := old(m.View())[right]]
      ensures var c, was := old(right.cmd), old(cmd);
        var passing := Moved(c, temporaryBase, right.capacity);
        && right.cmd.EmptyCmd? && cmd == Moved(passing, base, capacity)
        && m.Traffic(InPlace(c) + InPlace(passing), InPlace(c) + InPlace(passing) + Boxes(was),
                     HeapBlocks(cmd) - HeapBlocks(c), HeapBlocks(was))
    {
      hide Memory.Valid, Memory.View, Memory.Snapshot, AlignIn;
      ghost var v := m.View();
      var temporary := new Erasure(temporaryBase, right.capacity);
      assert temporary !in m.states;
      right.MoveTo(m, temporary);
      WeakDestroy(m);
      temporary.MoveTo(m, this);
      temporary.WeakDestroy(m);
      ThroughTemporary(v, this, right, temporary, v[right], None);
    }

    /** Converting copy assignment: the temporary is copied from the source instead, which keeps
        what it holds. */
    method AssignConvertedCopy(m: Memory, right: Erasure, temporaryBase: nat)
      requires m.Valid() && this in m.states && right in m.states && right != this
      requires right.cmd.ProcessCmd? ==> right.cmd.boxType.copyable
      modifies m, this
      ensures m.Valid() && m.View() == old(m.View())[this := old(m.View())[right]]
      ensures var passing, was := Copied(right.cmd, temporaryBase, right.capacity), old(cmd);
        && cmd == Moved(passing, base, capacity)
        && m.Traffic(Boxes(cmd) + InPlace(passing), InPlace(passing) + Boxes(was), HeapBlocks(cmd), HeapBlocks(was))
    {
      hide Memory.Valid, Memory.View, Memory.Snapshot, AlignIn;
      ghost var v := m.View();
      var temporary := new Erasure(temporaryBase, right.capacity);
      assert temporary !in m.states;
      right.CopyTo(m, temporary);
      WeakDestroy(m);
      temporary.MoveTo(m, this);
      temporary.WeakDestroy(m);
      CopiedThroughTemporary(v, this, temporary, v[right], None);
    }

    // ----- construction of an erasure in inactive storage -----

    /** From a callable; one with a false boolean value leaves the erasure empty. */
    method InitCallable(m: Memory, c: Callable, useBoolOp: bool, truthy: bool)
      requires m.Valid() && this !in m.states
      modifies m, this
      ensures m.Valid()
      ensures m.View() == old(m.View())[this := if useBoolOp && !truthy then None else Some(c)]
      ensures cmd == if useBoolOp && !truthy then EmptyCmd else ProcessCmd(c.boxType, Slot(c.boxType).Some?)
      ensures m.Traffic(Boxes(cmd), 0, HeapBlocks(cmd), 0)
    {
      hide Memory.Valid, Memory.View, Memory.Snapshot, AlignIn;
      if useBoolOp && !truthy {
        BecomeEmpty(m);
      } else {
        ConstructBox(m, c);
      }
    }

    /** From an erasure of another configuration, taken by value: moved into a temporary of the
        source's capacity and from there into place. */
    method InitConverted(m: Memory, right: Erasure, temporaryBase: nat)
      requires m.Valid() && this !in m.states && right in m.states
      modifies m, this, right`cmd, right`table
      ensures m.Valid() && m.View() == old(m.View())[right := None][this := old(m.View())[right]]
      ensures var c := old(right.cmd);
        var passing := Moved(c, temporaryBase, right.capacity);
        && right.cmd.EmptyCmd? && cmd == Moved(passing, base, capacity)
        && m.Traffic(InPlace(c) + InPlace(passing), InPlace(c) + InPlace(passing), HeapBlocks(cmd) - HeapBlocks(c), 0)
    {
      hide Memory.Valid, Memory.View, Memory.Snapshot, AlignIn;
      ghost var v := m.View();
      var temporary := new Erasure(temporaryBase, right.capacity);
      assert temporary !in m.states;
      right.MoveTo(m, temporary);
      temporary.MoveTo(m, this);
      temporary.WeakDestroy(m);
      IntoNewThroughTemporary(v[right := None], this, temporary, v[right], None);
    }

    /** The same with the temporary copied from the source. */
    method InitConvertedCopy(m: Memory, right: Erasure, temporaryBase: nat)
      requires m.Valid() && this !in m.states && right in m.states
      requires right.cmd.ProcessCmd? ==> right.cmd.boxType.copyable
      modifies m, this
      ensures m.Valid() && m.View() == old(m.View())[this := old(m.View())[right]]
      ensures var passing := Copied(right.cmd, temporaryBase, right.capacity);
        && cmd == Moved(passing, base, capacity)
        && m.Traffic(Boxes(cmd) + InPlace(passing), InPlace(passing), HeapBlocks(cmd), 0)
    {
      hide Memory.Valid, Memory.View, Memory.Snapshot, AlignIn;
      ghost var v := m.View();
      var temporary := new Erasure(temporaryBase, right.capacity);
      assert temporary !in m.states;
      right.CopyTo(m, temporary);
      temporary.MoveTo(m, this);
      temporary.WeakDestroy(m);
      IntoNewThroughTemporary(v, this, temporary, v[right], None);
    }

    /** function::swap: three moves through a temporary, or nothing at all with itself. */
    method Swap(m: Memory, other: Erasure, cacheBase: nat)
      requires m.Valid() && this in m.states && other in m.states
      modifies m, this, other
      ensures m.Valid()
      ensures m.View() == old(m.View())[this := old(m.View())[other]][other := old(m.View())[this]]
      ensures other == this ==> m.NoTraffic() && cmd == old(cmd)
      ensures other != this ==>
        var c, d := old(cmd), old(other.cmd);
        var passing := Moved(d, cacheBase, other.capacity);
        var moves := InPlace(c) + InPlace(d) + InPlace(passing);
        && cmd == Moved(passing, base, capacity) && other.cmd == Moved(c, other.base, other.capacity)
        && m.Traffic(moves, moves, HeapBlocks(cmd) - HeapBlocks(d) + HeapBlocks(other.cmd) - HeapBlocks(c), 0)
    {
      hide Memory.Valid, Memory.View, Memory.Snapshot, AlignIn;
      ghost var v := m.View();
      if other == this {
        PutSame(v, this);
        return;
      }
      var cache := new Erasure(cacheBase, other.capacity);
      assert cache !in m.states;
      other.MoveTo(m, cache);
      other.AssignMove(m, this);
      this.AssignMove(m, cache);
      cache.WeakDestroy(m);
      SwapThroughCache(v, this, other, cache, None);
    }
  }

  lemma MinusPutBoth<K, V>(m: map<K, V>, j: K, u: V, k: K, v: V)
    requires j != k
    ensures (m - {j})[k := v][j := u] == m[k := v][j := u]
  {
  }

  lemma ThroughTemporary<K, V>(m: map<K, V>, to: K, from: K, temp: K, u: V, none: V)
    requires to != from && temp !in m && to in m && from in m
    ensures (m[from := none][temp := u] - {to})[temp := none][to := u] - {temp} == m[from := none][to := u]
  {
  }

  lemma CopiedThroughTemporary<K, V>(m: map<K, V>, to: K, temp: K, u: V, none: V)
    requires temp !in m && to in m
    ensures (m[temp := u] - {to})[temp := none][to := u] - {temp} == m[to := u]
  {
  }

  lemma IntoNewThroughTemporary<K, V>(m: map<K, V>, to: K, temp: K, u: V, none: V)
    requires temp !in m && to !in m && to != temp
    ensures m[temp := u][temp := none][to := u] - {temp} == m[to := u]
  {
  }

  lemma SwapThroughCache<K, V>(m: map<K, V>, x: K, y: K, cache: K, none: V)
    requires x != y && cache !in m && x in m && y in m
    ensures m[y := none][cache := m[y]][x := none][y := m[x]][cache := none][x := m[y]] - {cache}
         == m[x := m[y]][y := m[x]]
  {
  }
}
