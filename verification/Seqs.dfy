/** Sequences of parts. */
module Seqs {

  /** The elements of the parts, in order. */
  function Concat<T>(parts: seq<seq<T>>): seq<T> {
    if |parts| == 0 then [] else parts[0] + Concat(parts[1..])
  }

  lemma {:induction false} ConcatAppend<T>(a: seq<seq<T>>, b: seq<seq<T>>)
    ensures Concat(a + b) == Concat(a) + Concat(b)
  {
    if |a| == 0 {
      assert a + b == b;
    } else {
      var rest := a[1..] + b;
      assert (a + b)[1..] == rest;
      ConcatAppend(a[1..], b);
      assert Concat(a + b) == a[0] + Concat(rest);
    }
  }

  lemma Associative<T>(a: seq<T>, b: seq<T>, c: seq<T>)
    ensures (a + b) + c == a + (b + c)
  {
  }

  lemma SameTail<T>(head: seq<T>, p: seq<T>, q: seq<T>)
    ensures head + p == head + q <==> p == q
  {
    assert p == (head + p)[|head|..] && q == (head + q)[|head|..];
  }

  lemma DropFromBoth<T>(a: seq<T>, b: seq<T>, n: nat)
    requires n <= |a|
    ensures (a + b)[n..] == a[n..] + b
  {
  }
}
