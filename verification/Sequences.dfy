module Sequences {

  function Concat<T>(parts: seq<seq<T>>): seq<T> {
    if parts == [] then [] else Concat(parts[..|parts| - 1]) + parts[|parts| - 1]
  }

  lemma Assoc<T>(a: seq<T>, b: seq<T>, c: seq<T>)
    ensures a + (b + c) == (a + b) + c
  {
  }

  lemma ConcatOne<T>(part: seq<T>)
    ensures Concat([part]) == part
  {
    assert [part][..0] == [] && [] + part == part;
  }

  lemma {:induction false} ConcatFront<T>(part: seq<T>, parts: seq<seq<T>>)
    ensures Concat([part] + parts) == part + Concat(parts)
    decreases |parts|
  {
    if parts == [] {
      ConcatOne(part);
      assert [part] + [] == [part] && part + [] == part;
    } else {
      var init, last := parts[..|parts| - 1], parts[|parts| - 1];
      assert ([part] + parts)[..|parts|] == [part] + init;
      ConcatFront(part, init);
      Assoc(part, Concat(init), last);
    }
  }
}
