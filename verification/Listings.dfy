/** Lists read off the object tree, by place: which interface of which object, and which of its
    properties, in the order in which the nested loops come to them. */
module Listings {

  datatype Place = Place(obj: nat, iface: nat, prop: nat)

  predicate Before(p: Place, q: Place) {
    || p.obj < q.obj
    || (p.obj == q.obj && (p.iface < q.iface || (p.iface == q.iface && p.prop < q.prop)))
  }

  ghost predicate Ascending(at: seq<Place>) {
    forall m, n :: 0 <= m < n < |at| ==> Before(at[m], at[n])
  }

  ghost predicate Holds<T>(list: seq<T>, at: seq<Place>, value: Place -> T) {
    |list| == |at| && forall n :: 0 <= n < |at| ==> list[n] == value(at[n])
  }

  /** `list` holds the values at exactly the places that `wanted` names, in order. */
  ghost predicate IsListing<T(!new)>(list: seq<T>, at: seq<Place>, wanted: Place -> bool, value: Place -> T) {
    Ascending(at) && Holds(list, at, value) && forall p :: p in at <==> wanted(p)
  }

  /** The same as far as the loops have come, everything before `end`. */
  ghost predicate UpTo<T(!new)>(list: seq<T>, at: seq<Place>, wanted: Place -> bool, value: Place -> T, end: Place) {
    Ascending(at) && Holds(list, at, value) && forall p :: p in at <==> wanted(p) && Before(p, end)
  }

  /** Nothing is wanted between `end` and `next`. */
  lemma Skip<T(!new)>(list: seq<T>, at: seq<Place>, wanted: Place -> bool, value: Place -> T, end: Place, next: Place)
    requires UpTo(list, at, wanted, value, end)
    requires forall p :: wanted(p) ==> (Before(p, end) <==> Before(p, next))
    ensures UpTo(list, at, wanted, value, next)
  {
  }

  /** The place at `end` is wanted, and it is the only one before `next`. */
  lemma Take<T(!new)>(list: seq<T>, at: seq<Place>, wanted: Place -> bool, value: Place -> T, end: Place, next: Place)
    requires UpTo(list, at, wanted, value, end) && wanted(end)
    requires forall p :: Before(p, next) <==> Before(p, end) || p == end
    ensures UpTo(list + [value(end)], at + [end], wanted, value, next)
  {
    var at' := at + [end];
    forall m, n | 0 <= m < n < |at'|
      ensures Before(at'[m], at'[n])
    {
      assert n == |at| ==> at[m] in at;
    }
    forall p
      ensures p in at' <==> wanted(p) && Before(p, next)
    {
      assert p in at' <==> p in at || p == end;
    }
  }
}
