/** Splitting text at a separator character and joining it again. */
module Text {

  /** The white space of a pattern. */
  predicate IsSpace(c: char) {
    || c in {'\t', '\n', '\U{0B}', '\U{0C}', '\r', ' ', '\U{A0}', '\U{1680}'}
    || c in {'\U{2028}', '\U{2029}', '\U{202F}', '\U{205F}', '\U{3000}', '\U{FEFF}'}
    || '\U{2000}' <= c <= '\U{200A}'
  }

  function Split(s: string, c: char): (r: seq<string>)
    ensures |r| > 0
    ensures forall part :: part in r ==> c !in part
  {
    if s == "" then [""]
    else
      var rest := Split(s[1..], c);
      if s[0] == c then [""] + rest
      else [[s[0]] + rest[0]] + rest[1..]
  }

  function Join(parts: seq<string>, c: char): string {
    if parts == [] then ""
    else if |parts| == 1 then parts[0]
    else parts[0] + [c] + Join(parts[1..], c)
  }

  lemma {:induction false} SplitWord(s: string, c: char)
    requires c !in s
    ensures Split(s, c) == [s]
    decreases |s|
  {
    if s != "" {
      SplitWord(s[1..], c);
      assert s == [s[0]] + s[1..];
    }
  }

  lemma {:induction false} SplitAfterWord(s: string, c: char, rest: string)
    requires c !in s
    ensures Split(s + [c] + rest, c) == [s] + Split(rest, c)
    decreases |s|
  {
    if s == "" {
      assert s + [c] + rest == [c] + rest;
    } else {
      SplitAfterWord(s[1..], c, rest);
      assert (s + [c] + rest)[1..] == s[1..] + [c] + rest;
      assert ([s[1..]] + Split(rest, c))[1..] == Split(rest, c) && s == [s[0]] + s[1..];
    }
  }

  /** Splitting what was joined returns the parts. */
  lemma {:induction false} SplitJoin(parts: seq<string>, c: char)
    requires parts != [] && forall p :: p in parts ==> c !in p
    ensures Split(Join(parts, c), c) == parts
    decreases |parts|
  {
    if |parts| == 1 {
      SplitWord(parts[0], c);
    } else {
      SplitJoin(parts[1..], c);
      SplitAfterWord(parts[0], c, Join(parts[1..], c));
    }
  }

  /** Joining what was split returns the text. */
  lemma {:induction false} JoinSplit(s: string, c: char)
    ensures Join(Split(s, c), c) == s
    decreases |s|
  {
    if s != "" {
      JoinSplit(s[1..], c);
      var rest := Split(s[1..], c);
      if |rest| > 1 {
        assert Split(s, c)[1..] == if s[0] == c then rest else rest[1..];
      }
    }
  }

  /** One more character in front of a split text. */
  function Cons(x: char, parts: seq<string>, c: char): seq<string>
    requires parts != []
  {
    if x == c then [""] + parts else [[x] + parts[0]] + parts[1..]
  }

  lemma SplitCons(s: string, c: char)
    requires s != ""
    ensures Split(s, c) == Cons(s[0], Split(s[1..], c), c)
  {}

  lemma ConsConcat(x: char, a: seq<string>, b: seq<string>, c: char)
    requires a != []
    ensures Cons(x, a + b, c) == Cons(x, a, c) + b
  {
    assert (a + b)[0] == a[0] && (a + b)[1..] == a[1..] + b;
  }

  /** Splitting at a separator that is there: both sides are split on their own. */
  lemma {:induction false} SplitBoth(a: string, b: string, c: char)
    ensures Split(a + [c] + b, c) == Split(a, c) + Split(b, c)
    decreases |a|
  {
    if a == "" {
      assert a + [c] + b == [c] + b;
    } else {
      SplitBoth(a[1..], b, c);
      assert (a + [c] + b)[0] == a[0] && (a + [c] + b)[1..] == a[1..] + [c] + b;
      SplitCons(a, c);
      SplitCons(a + [c] + b, c);
      hide Split;
      ConsConcat(a[0], Split(a[1..], c), Split(b, c), c);
      hide Cons;
    }
  }
}
