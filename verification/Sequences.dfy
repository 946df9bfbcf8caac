module Sequences {
  /** The elements of all the parts, in order. */
  function Flatten<T>(parts: seq<seq<T>>): seq<T> {
    if parts == [] then [] else Flatten(parts[..|parts| - 1]) + parts[|parts| - 1]
  }

  lemma FlattenAppend<T>(parts: seq<seq<T>>, part: seq<T>)
    ensures Flatten(parts + [part]) == Flatten(parts) + part
  {
    assert (parts + [part])[..|parts|] == parts;
  }

  lemma {:induction false} FlattenCons<T>(part: seq<T>, parts: seq<seq<T>>)
    ensures Flatten([part] + parts) == part + Flatten(parts)
  {
    if parts == [] {
      assert [part] + parts == [] + [part];
      FlattenAppend([], part);
    } else {
      var n := |parts| - 1;
      assert [part] + parts == [part] + parts[..n] + [parts[n]];
      FlattenAppend([part] + parts[..n], parts[n]);
      FlattenCons(part, parts[..n]);
    }
  }
}
