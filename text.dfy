/**
  Text assembled piece by piece, and where a piece sits in the result.
 */
module Text {

  /** The pieces `f(xs[0]) + f(xs[1]) + ...`, appended in order. */
  function ConcatMap<T>(f: T -> string, xs: seq<T>): string
  {
    if xs == [] then "" else ConcatMap(f, xs[..|xs| - 1]) + f(xs[|xs| - 1])
  }

  /** Text built from two runs of pieces is the two texts one after the other. */
  lemma {:induction false} ConcatMapAppend<T>(f: T -> string, xs: seq<T>, ys: seq<T>)
    ensures ConcatMap(f, xs + ys) == ConcatMap(f, xs) + ConcatMap(f, ys)
    decreases |ys|
  {
    if ys == [] {
      assert xs + ys == xs;
    } else {
      var n := |ys| - 1;
      assert (xs + ys)[..|xs + ys| - 1] == xs + ys[..n];
      ConcatMapAppend(f, xs, ys[..n]);
    }
  }

  /** The piece of element `i` sits between the pieces before it and those after it. */
  lemma ConcatMapAt<T>(f: T -> string, xs: seq<T>, i: nat)
    requires i < |xs|
    ensures ConcatMap(f, xs) == ConcatMap(f, xs[..i]) + f(xs[i]) + ConcatMap(f, xs[i + 1..])
  {
    var upTo := xs[..i + 1];
    assert xs == upTo + xs[i + 1..];
    ConcatMapAppend(f, upTo, xs[i + 1..]);
    assert upTo[..|upTo| - 1] == xs[..i];
    assert ConcatMap(f, upTo) == ConcatMap(f, xs[..i]) + f(xs[i]);
  }

  /** An element whose piece is empty can be dropped without changing the text. */
  lemma ConcatMapDropEmpty<T>(f: T -> string, xs: seq<T>, i: nat)
    requires i < |xs| && f(xs[i]) == ""
    ensures ConcatMap(f, xs) == ConcatMap(f, xs[..i] + xs[i + 1..])
  {
    var before, after := xs[..i], xs[i + 1..];
    calc {
      ConcatMap(f, xs);
      { ConcatMapAt(f, xs, i); }
      ConcatMap(f, before) + f(xs[i]) + ConcatMap(f, after);
      ConcatMap(f, before) + ConcatMap(f, after);
      { ConcatMapAppend(f, before, after); }
      ConcatMap(f, before + after);
    }
  }

  /** Appending one more element's piece, as a loop over `xs` does. */
  lemma ConcatMapSnoc<T>(f: T -> string, xs: seq<T>, i: nat)
    requires i < |xs|
    ensures ConcatMap(f, xs[..i + 1]) == ConcatMap(f, xs[..i]) + f(xs[i])
  {
    assert xs[..i + 1][..i] == xs[..i];
  }

  predicate StartsWith(s: string, prefix: string)
  {
    |prefix| <= |s| && s[..|prefix|] == prefix
  }

  predicate EndsWith(s: string, suffix: string)
  {
    |suffix| <= |s| && s[|s| - |suffix|..] == suffix
  }

  /** `part` appears somewhere in `whole`. */
  ghost predicate Occurs(part: string, whole: string)
  {
    exists p :: 0 <= p <= |whole| && StartsWith(whole[p..], part)
  }

  /** An occurrence of `first` ends before an occurrence of `second` starts. */
  ghost predicate Precedes(whole: string, first: string, second: string)
  {
    exists p, q ::
      0 <= p && p + |first| <= q <= |whole|
      && StartsWith(whole[p..], first) && StartsWith(whole[q..], second)
  }

  lemma OccursBetween(before: string, part: string, after: string)
    ensures Occurs(part, before + part + after)
  {
    var whole := before + part + after;
    assert StartsWith(whole[|before|..], part) by {
      assert whole[|before|..] == part + after;
    }
  }

  // `AppendAssoc` and `AppendAssoc5` are facts Dafny already knows; they are
  // called only to point the verifier at the regrouping a proof step needs.
  lemma AppendAssoc(a: string, b: string, c: string)
    ensures (a + b) + c == a + (b + c)
  {
  }

  lemma AppendAssoc5(a: string, b: string, c: string, d: string, e: string)
    ensures a + b + c + d + e == a + (b + c + d + e)
  {
  }

  /** Each element's piece appears in the text. */
  lemma OccursInConcatMap<T>(f: T -> string, xs: seq<T>, i: nat)
    requires i < |xs|
    ensures Occurs(f(xs[i]), ConcatMap(f, xs))
  {
    ConcatMapAt(f, xs, i);
    OccursBetween(ConcatMap(f, xs[..i]), f(xs[i]), ConcatMap(f, xs[i + 1..]));
  }

  lemma OccursInPrefix(part: string, a: string, b: string)
    requires Occurs(part, a)
    ensures Occurs(part, a + b)
  {
    var p :| 0 <= p <= |a| && StartsWith(a[p..], part);
    assert (a + b)[p..] == a[p..] + b;
    assert StartsWith((a + b)[p..], part);
  }

  lemma OccursInSuffix(part: string, a: string, b: string)
    requires Occurs(part, b)
    ensures Occurs(part, a + b)
  {
    var p :| 0 <= p <= |b| && StartsWith(b[p..], part);
    assert (a + b)[|a| + p..] == b[p..];
  }

  /** What occurs in a piece occurs in any text the piece is part of. */
  lemma OccursInside(part: string, a: string, b: string, c: string)
    requires Occurs(part, b)
    ensures Occurs(part, a + b + c)
  {
    OccursInSuffix(part, a, b);
    OccursInPrefix(part, a + b, c);
  }

  /** Something in the front part comes before something in the back part. */
  lemma PrecedesAcross(front: string, back: string, first: string, second: string)
    requires Occurs(first, front) && Occurs(second, back)
    ensures Precedes(front + back, first, second)
  {
    var p :| 0 <= p <= |front| && StartsWith(front[p..], first);
    var q :| 0 <= q <= |back| && StartsWith(back[q..], second);
    var whole := front + back;
    assert whole[p..] == front[p..] + back;
    assert StartsWith(whole[p..], first);
    assert whole[|front| + q..] == back[q..];
  }

  /**
    In a text made of a head, one run of pieces, a second run of pieces over
    the same elements, and a tail, every piece of the first run comes before
    every piece of the second.
   */
  lemma FirstRunPrecedesSecond<T>(head: string, f: T -> string, g: T -> string, xs: seq<T>, tail: string, j: nat, k: nat)
    requires j < |xs| && k < |xs|
    ensures Precedes(head + ConcatMap(f, xs) + ConcatMap(g, xs) + tail, f(xs[j]), g(xs[k]))
  {
    var front, back := head + ConcatMap(f, xs), ConcatMap(g, xs) + tail;
    OccursInConcatMap(f, xs, j);
    OccursInSuffix(f(xs[j]), head, ConcatMap(f, xs));
    OccursInConcatMap(g, xs, k);
    OccursInPrefix(g(xs[k]), ConcatMap(g, xs), tail);
    PrecedesAcross(front, back, f(xs[j]), g(xs[k]));
    AppendAssoc(front, ConcatMap(g, xs), tail);
  }

  /** Cutting `a + b + c + d` where `b` ends gives the two halves back. */
  lemma SplitAfterSecond(a: string, b: string, c: string, d: string)
    ensures (a + b + c + d)[..|a| + |b|] == a + b
    ensures (a + b + c + d)[|a| + |b|..] == c + d
  {
    AppendAssoc(a + b, c, d);
  }

  lemma ConcatMapTwo<T>(f: T -> string, xs: seq<T>)
    requires |xs| == 2
    ensures ConcatMap(f, xs) == f(xs[0]) + f(xs[1])
  {
    var first := xs[..1];
    assert xs[..|xs| - 1] == first;
    assert first[..0] == [];
    assert ConcatMap(f, first) == "" + f(xs[0]);
    assert "" + f(xs[0]) == f(xs[0]);
  }
}
