/** A value that may be missing. */
module Options {
  datatype Option<T> = None | Some(value: T)
}

/** Picking and listing the members of sets. */
module Collections {
  /** A member in no particular order, as a Go map is ranged over. */
  method AnyOf<T>(s: set<T>) returns (x: T)
    requires s != {}
    ensures x in s
  {
    x :| x in s;
  }

  /** All the members, each once, in no particular order. */
  method ListOf<T>(s: set<T>) returns (list: seq<T>)
    ensures forall x :: x in list <==> x in s
    ensures forall i, j :: 0 <= i < j < |list| ==> list[i] != list[j]
  {
    list := [];
    var rest := s;
    while rest != {}
      invariant rest <= s && forall x :: x in s <==> x in list || x in rest
      invariant forall x :: x in list ==> x !in rest
      invariant forall i, j :: 0 <= i < j < |list| ==> list[i] != list[j]
      decreases |rest|
    {
      var x := AnyOf(rest);
      list, rest := list + [x], rest - {x};
    }
  }

  lemma Member<T>(s: set<T>) returns (x: T)
    requires s != {}
    ensures x in s
  {
    x :| x in s;
  }
}
