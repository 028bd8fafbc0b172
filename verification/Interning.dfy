/** `TyIntern`: strings and paths are replaced by handles, and steps are compared by their handles. */
module Interning {

  class Interner<T(==)> {
    /** The item behind each handle. */
    var items: seq<T>
    var handles: map<T, nat>

    /** `items` and `handles` are each other's inverse. */
    ghost predicate Valid()
      reads this
    {
      && (forall h :: 0 <= h < |items| ==> items[h] in handles && handles[items[h]] == h)
      && (forall t :: t in handles ==> handles[t] < |items| && items[handles[t]] == t)
    }

    constructor ()
      ensures Valid() && items == []
    {
      items, handles := [], map[];
    }

    /** `intern` and `intern_borrow`. Handles that were given out before keep their meaning. */
    method Intern(item: T) returns (h: nat)
      requires Valid()
      modifies this
      ensures Valid() && h < |items| && items[h] == item
      ensures items == if item in old(items) then old(items) else old(items) + [item]
    {
      if item in handles {
        return handles[item];
      }
      h := |items|;
      handles := handles[item := h];
      items := items + [item];
    }

    /** `get` */
    method Get(h: nat) returns (item: T)
      requires Valid() && h < |items|
      ensures item == items[h] && item in handles && handles[item] == h
    {
      item := items[h];
    }
  }

  /** Over any run, two handles are the same exactly if the items are, and every handle leads back to
      its item. */
  method InternAll<T(==)>(values: seq<T>) returns (hs: seq<nat>, back: seq<T>)
    ensures |hs| == |values| && back == values
    ensures forall i, j :: 0 <= i < |hs| && 0 <= j < |hs| ==> (hs[i] == hs[j] <==> values[i] == values[j])
  {
    var interner := new Interner<T>();
    hs := [];
    for k := 0 to |values|
      invariant interner.Valid() && fresh(interner) && |hs| == k
      invariant forall i :: 0 <= i < k ==> hs[i] < |interner.items| && interner.items[hs[i]] == values[i]
    {
      var h := interner.Intern(values[k]);
      hs := hs + [h];
    }
    forall i, j | 0 <= i < |hs| && 0 <= j < |hs| ensures hs[i] == hs[j] <==> values[i] == values[j] {
      assert interner.handles[values[i]] == hs[i] && interner.handles[values[j]] == hs[j];
    }
    back := [];
    for k := 0 to |hs|
      invariant interner.Valid() && back == values[..k]
      invariant forall i :: 0 <= i < |hs| ==> hs[i] < |interner.items| && interner.items[hs[i]] == values[i]
    {
      var item := interner.Get(hs[k]);
      back := back + [item];
    }
  }
}
