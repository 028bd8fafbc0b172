/** Orders, and what it means for one sequence to be the stable sort of another.

    An order is given by its strict part `less`, the only question the sort ever asks.
    Elements neither of which is less than the other are equivalent; a stable sort keeps the
    elements of every equivalence class in the order in which they stood in the input. */
module StableOrder {

  /** What `sort_by` asks of its comparator, stated for the strict part alone: `less` is
      asymmetric, and being not-less is transitive. */
  ghost predicate StrictWeakOrder<T(!new)>(less: (T, T) -> bool) {
    && (forall a, b :: less(a, b) ==> !less(b, a))
    && (forall a, b, c :: less(a, c) ==> less(a, b) || less(b, c))
  }

  predicate Equivalent<T>(less: (T, T) -> bool, a: T, b: T) {
    !less(a, b) && !less(b, a)
  }

  ghost predicate Sorted<T>(less: (T, T) -> bool, s: seq<T>) {
    forall i, j :: 0 <= i < j < |s| ==> !less(s[j], s[i])
  }

  /** No element of `s` is after an element of `t`. */
  ghost predicate Below<T>(less: (T, T) -> bool, s: seq<T>, t: seq<T>) {
    forall i, j :: 0 <= i < |s| && 0 <= j < |t| ==> !less(t[j], s[i])
  }

  /** The subsequence of `s` equivalent to `x`. */
  ghost function Class<T>(less: (T, T) -> bool, x: T, s: seq<T>): seq<T> {
    if s == [] then []
    else (if Equivalent(less, x, s[0]) then [s[0]] else []) + Class(less, x, s[1..])
  }

  /** The two sequences hold each equivalence class in the same order. */
  ghost predicate SameClasses<T(!new)>(less: (T, T) -> bool, a: seq<T>, b: seq<T>) {
    forall x :: Class(less, x, a) == Class(less, x, b)
  }

  ghost predicate StableSortOf<T(!new)>(less: (T, T) -> bool, a: seq<T>, b: seq<T>) {
    Sorted(less, b) && SameClasses(less, a, b) && multiset(a) == multiset(b)
  }

  /** What every step of the sort keeps: nothing is lost or duplicated, whatever the comparator
      answers, and classes keep their order when it answers by an order (`ordered`). */
  ghost predicate Rearranges<T(!new)>(ordered: bool, less: (T, T) -> bool, a: seq<T>, b: seq<T>) {
    multiset(a) == multiset(b) && (ordered ==> SameClasses(less, a, b))
  }

  lemma {:induction false} ClassOfConcat<T>(less: (T, T) -> bool, x: T, a: seq<T>, b: seq<T>)
    ensures Class(less, x, a + b) == Class(less, x, a) + Class(less, x, b)
  {
    if a == [] {
      assert a + b == b;
    } else {
      assert (a + b)[1..] == a[1..] + b;
      ClassOfConcat(less, x, a[1..], b);
    }
  }

  lemma RearrangesConcat<T(!new)>(ordered: bool, less: (T, T) -> bool,
                                  a: seq<T>, a': seq<T>, b: seq<T>, b': seq<T>)
    requires Rearranges(ordered, less, a, a')
    requires Rearranges(ordered, less, b, b')
    ensures Rearranges(ordered, less, a + b, a' + b')
  {
    forall x | ordered ensures Class(less, x, a + b) == Class(less, x, a' + b') {
      ClassOfConcat(less, x, a, b);
      ClassOfConcat(less, x, a', b');
    }
  }

  /** Rearranging the middle of a sequence rearranges the sequence. */
  lemma RearrangesWithin<T(!new)>(ordered: bool, less: (T, T) -> bool,
                                  p: seq<T>, a: seq<T>, a': seq<T>, q: seq<T>)
    requires Rearranges(ordered, less, a, a')
    ensures Rearranges(ordered, less, p + a + q, p + a' + q)
  {
    RearrangesConcat(ordered, less, p, p, a, a');
    RearrangesConcat(ordered, less, p + a, p + a', q, q);
  }

  lemma RearrangesTrans<T(!new)>(ordered: bool, less: (T, T) -> bool, a: seq<T>, b: seq<T>, c: seq<T>)
    requires Rearranges(ordered, less, a, b) && Rearranges(ordered, less, b, c)
    ensures Rearranges(ordered, less, a, c)
  {
  }

  /** Rearranging a part of a sequence in place rearranges the sequence. */
  lemma RearrangesPart<T(!new)>(ordered: bool, less: (T, T) -> bool, a: seq<T>, b: seq<T>, lo: nat, hi: nat)
    requires lo <= hi <= |a| == |b|
    requires forall j :: 0 <= j < lo ==> b[j] == a[j]
    requires forall j :: hi <= j < |a| ==> b[j] == a[j]
    requires Rearranges(ordered, less, a[lo..hi], b[lo..hi])
    ensures Rearranges(ordered, less, a, b)
  {
    RearrangesWithin(ordered, less, a[..lo], a[lo..hi], b[lo..hi], a[hi..]);
    assert a == a[..lo] + a[lo..hi] + a[hi..];
    assert b == a[..lo] + b[lo..hi] + a[hi..];
  }

  lemma {:induction false} ClassOfStrangers<T>(less: (T, T) -> bool, x: T, s: seq<T>)
    requires forall y :: y in s ==> !Equivalent(less, x, y)
    ensures Class(less, x, s) == []
  {
    if s != [] {
      assert s[0] in s;
      assert forall y :: y in s[1..] ==> y in s;
      ClassOfStrangers(less, x, s[1..]);
    }
  }

  /** An element may be moved past elements it is not equivalent to. */
  lemma MoveAcross<T(!new)>(ordered: bool, less: (T, T) -> bool, x: T, s: seq<T>)
    requires ordered ==> StrictWeakOrder(less) && forall y :: y in s ==> !Equivalent(less, x, y)
    ensures Rearranges(ordered, less, [x] + s, s + [x])
  {
    forall z | ordered ensures Class(less, z, [x] + s) == Class(less, z, s + [x]) {
      ClassOfConcat(less, z, [x], s);
      ClassOfConcat(less, z, s, [x]);
      if Equivalent(less, z, x) {
        ClassOfStrangers(less, z, s);
      } else {
        assert Class(less, z, [x]) == [];
      }
    }
  }

  /** Elements of a class are elements of the sequence, and the other way round. */
  lemma {:induction false} ClassMembers<T>(less: (T, T) -> bool, x: T, s: seq<T>, y: T)
    ensures y in Class(less, x, s) <==> y in s && Equivalent(less, x, y)
  {
    if s != [] {
      assert s == [s[0]] + s[1..];
      ClassMembers(less, x, s[1..], y);
    }
  }

  /** Sequences with the same classes begin, once sorted, with the same element. */
  lemma SameHead<T(!new)>(less: (T, T) -> bool, a: seq<T>, b: seq<T>)
    requires StrictWeakOrder(less) && Sorted(less, a) && Sorted(less, b)
    requires SameClasses(less, a, b) && a != [] && b != []
    ensures a[0] == b[0]
  {
    ClassMembers(less, a[0], a, a[0]);
    ClassMembers(less, a[0], b, a[0]);
    ClassMembers(less, b[0], a, b[0]);
    ClassMembers(less, b[0], b, b[0]);
    assert a[0] in b && b[0] in a;
    assert Class(less, a[0], a)[0] == a[0];
    assert Class(less, a[0], b)[0] == b[0];
  }

  /** There is only one stable sort of a sequence. */
  lemma {:induction false} StableSortUnique<T(!new)>(less: (T, T) -> bool, a: seq<T>, b: seq<T>)
    requires StrictWeakOrder(less) && Sorted(less, a) && Sorted(less, b)
    requires SameClasses(less, a, b)
    ensures a == b
    decreases |a|
  {
    if a != [] {
      ClassMembers(less, a[0], a, a[0]);
      ClassMembers(less, a[0], b, a[0]);
    }
    if b != [] {
      ClassMembers(less, b[0], b, b[0]);
      ClassMembers(less, b[0], a, b[0]);
    }
    if a != [] && b != [] {
      SameHead(less, a, b);
      forall x ensures Class(less, x, a[1..]) == Class(less, x, b[1..]) {
        var h := if Equivalent(less, x, a[0]) then [a[0]] else [];
        assert Class(less, x, a) == h + Class(less, x, a[1..]);
        assert Class(less, x, b) == h + Class(less, x, b[1..]);
        assert Class(less, x, a[1..]) == Class(less, x, a)[|h|..];
        assert Class(less, x, b[1..]) == Class(less, x, b)[|h|..];
      }
      StableSortUnique(less, a[1..], b[1..]);
      assert a == [a[0]] + a[1..] && b == [b[0]] + b[1..];
    }
  }

  lemma SortedConcat<T>(less: (T, T) -> bool, a: seq<T>, b: seq<T>)
    requires Sorted(less, a) && Sorted(less, b) && Below(less, a, b)
    ensures Sorted(less, a + b)
  {
  }
}
