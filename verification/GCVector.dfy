/** A growable vector whose elements may be erased, and mutated, in one pass. */
module GCVector {

  /** What a call of the predicate does: it may change the element and, through captured
      variables, its own state; erase says whether to drop the element. */
  datatype Visit<S, T> = Visit(state: S, erase: bool, elem: T)

  type Pred<!S, !T> = (S, T) -> Visit<S, T>

  /** The predicate's state after calls on each of xs, in order. */
  function StateAfter<S, T>(pred: Pred<S, T>, s: S, xs: seq<T>): S {
    if xs == [] then s
    else pred(StateAfter(pred, s, xs[..|xs| - 1]), xs[|xs| - 1]).state
  }

  /** The mutated survivors of xs, in order. */
  function Survivors<S, T>(pred: Pred<S, T>, s: S, xs: seq<T>): seq<T> {
    if xs == [] then []
    else
      var before := xs[..|xs| - 1];
      var visit := pred(StateAfter(pred, s, before), xs[|xs| - 1]);
      Survivors(pred, s, before) + if visit.erase then [] else [visit.elem]
  }

  class GCVector<T(0)> {
    var buffer: array<T>
    var length: nat

    ghost predicate Valid()
      reads this
    {
      length <= buffer.Length
    }

    ghost function Contents(): seq<T>
      requires Valid()
      reads this, buffer
    {
      buffer[..length]
    }

    constructor (buffer: array<T>, length: nat)
      requires length <= buffer.Length
      ensures Valid() && Contents() == buffer[..length]
    {
      this.buffer := buffer;
      this.length := length;
    }

    method ShrinkBy(amount: nat)
      requires Valid() && amount <= length
      modifies this`length
      ensures Valid() && Contents() == old(Contents())[..old(length) - amount]
    {
      length := length - amount;
    }

    /** Visits each element from startIndex on exactly once, in order; leaves those before it
        untouched; keeps the mutated survivors in their order. */
    method MutableEraseIf<S>(pred: Pred<S, T>, s: S, startIndex: nat) returns (end: S)
      requires Valid() && startIndex <= length
      modifies this`length, buffer
      ensures Valid()
      ensures end == StateAfter(pred, s, old(Contents())[startIndex..])
      ensures Contents()
           == old(Contents())[..startIndex] + Survivors(pred, s, old(Contents())[startIndex..])
    {
      hide StateAfter, Survivors;
      ghost var all := Contents();
      ghost var tail, seen, kept := all[startIndex..], [], all[..startIndex];
      end := s;
      VisitNone(pred, s);
      var src, dst := startIndex, startIndex;
      while src != length
        invariant startIndex <= dst <= src <= length == old(length)
        invariant seen == tail[..src - startIndex] && end == StateAfter(pred, s, seen)
        invariant kept == all[..startIndex] + Survivors(pred, s, seen)
        invariant buffer[..dst] == kept && buffer[src..length] == all[src..]
        decreases length - src
      {
        ghost var x := buffer[src];
        assert x == buffer[src..length][0] == tail[src - startIndex];
        VisitOne(pred, s, seen, x);
        var visit := pred(end, buffer[src]);
        end := visit.state;
        buffer[src] := visit.elem;
        if !visit.erase {
          if src != dst {
            buffer[dst] := buffer[src];
          }
          dst := dst + 1;
          kept := kept + [visit.elem];
        }
        src := src + 1;
        seen := seen + [x];
        assert buffer[src..length] == all[src - 1..][1..];
      }
      assert seen == tail;
      ShrinkBy(length - dst);
    }

    /** traceWeak drops the elements whose edge dies and reports whether any element is left. */
    method TraceWeak(trace: T -> (bool, T)) returns (any: bool)
      requires Valid()
      modifies this`length, buffer
      ensures Valid()
      ensures Contents() == Survivors(TraceAsPred(trace), (), old(Contents()))
      ensures any <==> Contents() != []
    {
      assert Contents()[0..] == Contents();
      var _ := MutableEraseIf(TraceAsPred(trace), (), 0);
      any := length != 0;
    }
  }

  function TraceAsPred<T>(trace: T -> (bool, T)): Pred<(), T> {
    (_: (), x: T) => var r := trace(x); Visit((), !r.0, r.1)
  }

  lemma VisitNone<S, T>(pred: Pred<S, T>, s: S)
    ensures StateAfter(pred, s, []) == s && Survivors(pred, s, []) == []
  {
  }

  /** One more visit at the end. */
  lemma VisitOne<S, T>(pred: Pred<S, T>, s: S, seen: seq<T>, x: T)
    ensures var visit := pred(StateAfter(pred, s, seen), x);
      && StateAfter(pred, s, seen + [x]) == visit.state
      && Survivors(pred, s, seen + [x])
         == Survivors(pred, s, seen) + if visit.erase then [] else [visit.elem]
  {
    assert (seen + [x])[..|seen|] == seen;
  }

  /** After traceWeak the vector holds, in order, the updated forms of exactly the elements that
      stay alive; it reports false exactly when all die. */
  lemma {:induction false} TraceWeakKeepsLive<T>(trace: T -> (bool, T), xs: seq<T>)
    ensures var ys := Survivors(TraceAsPred(trace), (), xs);
      && (forall y :: y in ys <==> exists x :: x in xs && trace(x) == (true, y))
      && (ys == [] <==> forall x :: x in xs ==> !trace(x).0)
    decreases |xs|
  {
    if xs != [] {
      var before, last := xs[..|xs| - 1], xs[|xs| - 1];
      TraceWeakKeepsLive(trace, before);
      assert xs == before + [last];
      var ys := Survivors(TraceAsPred(trace), (), xs);
      forall y ensures y in ys <==> exists x :: x in xs && trace(x) == (true, y) {
        if y in ys && y !in Survivors(TraceAsPred(trace), (), before) {
          assert trace(last) == (true, y);
        }
      }
    }
  }
}
