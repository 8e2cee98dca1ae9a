/** Mapping and filtering of lists. */
module Sequences {

  function MapSeq<A, B>(f: A -> B, s: seq<A>): (r: seq<B>) {
    seq(|s|, i requires 0 <= i < |s| => f(s[i]))
  }

  lemma FirstIn<T>(s: seq<T>)
    ensures s != [] ==> s[0] in s
  {}

  /** The entry alone, if it is kept. */
  function Head<T(!new)>(p: T -> bool, x: T): (r: seq<T>) {
    if p(x) then [x] else []
  }

  function Sift<T(!new)>(p: T -> bool, s: seq<T>): (r: seq<T>) {
    if s == [] then [] else Head(p, s[0]) + Sift(p, s[1..])
  }

  lemma {:induction false} SiftMembers<T(!new)>(p: T -> bool, s: seq<T>)
    ensures forall x :: x in Sift(p, s) <==> x in s && p(x)
    decreases |s|
  {
    if s != [] {
      SiftMembers(p, s[1..]);
      assert s == [s[0]] + s[1..];
    }
  }

  function Filter<T(!new)>(p: T -> bool, s: seq<T>): (r: seq<T>)
    ensures forall x :: x in r <==> x in s && p(x)
  {
    SiftMembers(p, s);
    Sift(p, s)
  }

  /** Each kept entry comes from a place of its own in the list. */
  lemma {:induction false} SiftIndex<T(!new)>(p: T -> bool, s: seq<T>, k: nat) returns (at: nat)
    requires k < |Sift(p, s)|
    ensures at < |s| && s[at] == Sift(p, s)[k] && p(s[at])
    ensures k == |Sift(p, s[..at])|
    decreases |s|
  {
    var tail, head := s[1..], Head(p, s[0]);
    if p(s[0]) && k == 0 {
      at := 0;
      assert s[..0] == [];
    } else {
      var rest := SiftIndex(p, tail, k - |head|);
      at := rest + 1;
      assert s[..at][0] == s[0] && s[..at][1..] == tail[..rest];
    }
  }

  lemma FilterIndex<T(!new)>(p: T -> bool, s: seq<T>, k: nat) returns (at: nat)
    requires k < |Filter(p, s)|
    ensures at < |s| && s[at] == Filter(p, s)[k] && p(s[at])
    ensures k == |Filter(p, s[..at])|
  {
    at := SiftIndex(p, s, k);
  }

  lemma {:induction false} SiftConcat<T(!new)>(p: T -> bool, a: seq<T>, b: seq<T>)
    ensures Sift(p, a + b) == Sift(p, a) + Sift(p, b)
    decreases |a|
  {
    if a == [] {
      assert a + b == b;
    } else {
      SiftConcat(p, a[1..], b);
      assert (a + b)[0] == a[0] && (a + b)[1..] == a[1..] + b;
      Associate(Head(p, a[0]), Sift(p, a[1..]), Sift(p, b));
    }
  }

  lemma Associate<T>(a: seq<T>, b: seq<T>, c: seq<T>)
    ensures a + (b + c) == a + b + c
  {}

  lemma FilterOne<T(!new)>(p: T -> bool, x: T)
    ensures Filter(p, [x]) == Head(p, x)
  {
    assert [x][1..] == [];
    assert Sift(p, [x]) == Head(p, x) + Sift(p, []);
  }

  lemma FilterConcat<T(!new)>(p: T -> bool, a: seq<T>, b: seq<T>)
    ensures Filter(p, a + b) == Filter(p, a) + Filter(p, b)
  {
    SiftConcat(p, a, b);
  }

  lemma {:induction false} SiftAgain<T(!new)>(p: T -> bool, q: T -> bool, s: seq<T>)
    requires forall x :: x in s && p(x) ==> q(x)
    ensures Sift(p, Sift(q, s)) == Sift(p, s)
    decreases |s|
  {
    if s != [] {
      SiftAgain(p, q, s[1..]);
      SiftConcat(p, Head(q, s[0]), Sift(q, s[1..]));
      assert Sift(p, [s[0]]) == Head(p, s[0]) + Sift(p, []) == Head(p, s[0]) by { assert [s[0]][1..] == []; }
      assert Sift(p, []) == [];
    }
  }

  lemma {:induction false} SiftNone<T(!new)>(p: T -> bool, s: seq<T>)
    requires forall x :: x in s ==> !p(x)
    ensures Sift(p, s) == []
    decreases |s|
  {
    if s != [] {
      SiftNone(p, s[1..]);
    }
  }

  lemma {:induction false} SiftAll<T(!new)>(p: T -> bool, s: seq<T>)
    requires forall x :: x in s ==> p(x)
    ensures Sift(p, s) == s
    decreases |s|
  {
    if s != [] {
      SiftAll(p, s[1..]);
    }
  }

  /** Filtering twice keeps what both filters keep. */
  lemma FilterAgain<T(!new)>(p: T -> bool, q: T -> bool, s: seq<T>)
    ensures (forall x :: x in s && p(x) ==> q(x)) ==> Filter(p, Filter(q, s)) == Filter(p, s)
    ensures (forall x :: x in s && p(x) ==> !q(x)) ==> Filter(p, Filter(q, s)) == []
  {
    if forall x :: x in s && p(x) ==> q(x) {
      SiftAgain(p, q, s);
    }
    if forall x :: x in s && p(x) ==> !q(x) {
      SiftNone(p, Filter(q, s));
    }
  }

  lemma FilterAll<T(!new)>(p: T -> bool, s: seq<T>)
    requires forall x :: x in s ==> p(x)
    ensures Filter(p, s) == s
  {
    SiftAll(p, s);
  }

  lemma FilterNone<T(!new)>(p: T -> bool, s: seq<T>)
    requires forall x :: x in s ==> !p(x)
    ensures Filter(p, s) == []
  {
    SiftNone(p, s);
  }
}
