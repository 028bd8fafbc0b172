/** The closure `is_less: FnMut(&T, &T) -> bool` that the sorts are given. */
module Comparators {
  import opened StableOrder

  datatype Answer = Yes | No | Panic

  function AnswerOf(b: bool): Answer { if b then Yes else No }

  /** The number of these calls, from the first on, that end in a panic. */
  ghost function PanicsIn<T>(respond: (seq<(T, T)>, T, T) -> Answer, calls: seq<(T, T)>): nat {
    if calls == [] then 0
    else
      var n := |calls| - 1;
      PanicsIn(respond, calls[..n]) + if respond(calls[..n], calls[n].0, calls[n].1) == Panic then 1 else 0
  }

  /** An arbitrary closure. It may keep state, contradict itself and panic: its answer is any
      function of all the calls made so far and of the two elements it is asked about. */
  class Comparator<T(!new)> {
    const respond: (seq<(T, T)>, T, T) -> Answer
    var calls: seq<(T, T)>

    constructor (respond: (seq<(T, T)>, T, T) -> Answer)
      ensures this.respond == respond && calls == []
    {
      this.respond := respond;
      calls := [];
    }

    method IsLess(a: T, b: T) returns (r: Answer)
      modifies this
      ensures calls == old(calls) + [(a, b)]
      ensures r == respond(old(calls), a, b) && CanSay(a, b, r)
      ensures Panicked() <==> r == Panic
      ensures Panics() == old(Panics()) + if r == Panic then 1 else 0
    {
      r := respond(calls, a, b);
      ghost var before := calls;
      calls := calls + [(a, b)];
      assert calls[..|calls| - 1] == before;
    }

    /** The closure can give this answer, after some calls. */
    ghost predicate CanSay(a: T, b: T, r: Answer) {
      exists h :: respond(h, a, b) == r
    }

    /** The last call of the closure ended in a panic. */
    ghost predicate Panicked()
      reads this
    {
      && calls != []
      && var n := |calls| - 1; respond(calls[..n], calls[n].0, calls[n].1) == Panic
    }

    /** How many calls ended in a panic. */
    ghost function Panics(): nat
      reads this
    {
      PanicsIn(respond, calls)
    }

    /** How a method ends that started after `before` panics: either none of its calls panicked, or just
        the last one did. */
    ghost predicate Ended(ok: bool, before: nat)
      reads this
    {
      Panics() == before + (if ok then 0 else 1) && (!ok ==> Panicked())
    }

    /** The closure always answers by `less`. */
    ghost predicate Answers(less: (T, T) -> bool) {
      forall h, a, b :: respond(h, a, b) == AnswerOf(less(a, b))
    }

    /** The closure always answers by the strict weak order `less`. */
    ghost predicate Orders(less: (T, T) -> bool) {
      StrictWeakOrder(less) && Answers(less)
    }

    lemma OrdersWithoutPanic(less: (T, T) -> bool)
      ensures Orders(less) ==> !Panicked()
    {
    }
  }
}
