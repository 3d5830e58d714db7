/**
  The order in which the tool's containers hand back strings.

  Copy groups are kept in a `std::map<std::string, std::set<std::string>>`;
  both containers iterate in ascending `std::string` order, which is the
  lexicographic order on characters. `Less` is that order, `Sorted` is the
  sequence a `std::set<std::string>` (or the key set of a `std::map`) yields
  when iterated from `begin()` to `end()`.
 */
module StringOrder {

  /** `a < b` on `std::string`: lexicographic, a proper prefix comes first. */
  predicate Less(a: string, b: string)
    decreases |a|
  {
    if |a| == 0 then |b| > 0
    else if |b| == 0 then false
    else a[0] < b[0] || (a[0] == b[0] && Less(a[1..], b[1..]))
  }

  lemma {:induction false} LessIrreflexive(a: string)
    ensures !Less(a, a)
    decreases |a|
  {
    if |a| > 0 {
      LessIrreflexive(a[1..]);
    }
  }

  lemma {:induction false} LessTransitive(a: string, b: string, c: string)
    requires Less(a, b) && Less(b, c)
    ensures Less(a, c)
    decreases |a|
  {
    if |a| > 0 && a[0] == b[0] && b[0] == c[0] {
      LessTransitive(a[1..], b[1..], c[1..]);
    }
  }

  /** Any two different strings are ordered one way or the other. */
  lemma {:induction false} LessTotal(a: string, b: string)
    requires a != b
    ensures Less(a, b) || Less(b, a)
    decreases |a|
  {
    if |a| > 0 && |b| > 0 && a[0] == b[0] {
      assert a == [a[0]] + a[1..] && b == [b[0]] + b[1..];
      LessTotal(a[1..], b[1..]);
    }
  }

  lemma LessAsymmetric(a: string, b: string)
    requires Less(a, b)
    ensures !Less(b, a)
  {
    if Less(b, a) {
      LessTransitive(a, b, a);
      LessIrreflexive(a);
    }
  }

  /** Two ordered strings drawn from an ordered pair are that pair, in its order. */
  lemma OrderedPair(a: string, b: string, x: string, y: string)
    requires Less(a, b) && Less(x, y)
    requires (a == x || a == y) && (b == x || b == y)
    ensures a == x && b == y
  {
    LessIrreflexive(a);
    if a == y {
      LessAsymmetric(x, y);
    }
  }

  /** `m` is the first element of `s` in iteration order. */
  predicate IsLeast(m: string, s: set<string>)
  {
    m in s && forall x :: x in s ==> !Less(x, m)
  }

  lemma {:induction false} LeastExists(s: set<string>)
    requires s != {}
    ensures exists m :: IsLeast(m, s)
    decreases s
  {
    var x :| x in s;
    if s == {x} {
      LessIrreflexive(x);
      assert IsLeast(x, s);
    } else {
      LeastExists(s - {x});
      var m :| IsLeast(m, s - {x});
      if Less(x, m) {
        forall y | y in s
          ensures !Less(y, x)
        {
          if y == x {
            LessIrreflexive(x);
          } else if Less(y, x) {
            LessTransitive(y, x, m);
          }
        }
        assert IsLeast(x, s);
      } else {
        assert IsLeast(m, s);
      }
    }
  }

  lemma LeastUnique(s: set<string>)
    ensures forall a, b :: IsLeast(a, s) && IsLeast(b, s) ==> a == b
  {
    forall a, b | IsLeast(a, s) && IsLeast(b, s)
      ensures a == b
    {
      if a != b {
        LessTotal(a, b);
      }
    }
  }

  /** Everything else in `s` comes after its least element. */
  lemma LeastBeforeRest(m: string, s: set<string>)
    requires IsLeast(m, s)
    ensures forall x :: x in s - {m} ==> Less(m, x)
  {
    forall x | x in s - {m}
      ensures Less(m, x)
    {
      LessTotal(m, x);
    }
  }

  /** Strictly ascending, hence also free of duplicates. */
  predicate Ascending(r: seq<string>)
  {
    forall i, j {:trigger Less(r[i], r[j])} :: 0 <= i < j < |r| ==> Less(r[i], r[j])
  }

  /** A string below everything in an ascending sequence can go in front of it. */
  lemma AscendingCons(m: string, rest: seq<string>)
    requires Ascending(rest)
    requires forall x :: x in rest ==> Less(m, x)
    ensures Ascending([m] + rest)
  {
    var r := [m] + rest;
    forall i, j | 0 <= i < j < |r|
      ensures Less(r[i], r[j])
    {
      assert r[j] == rest[j - 1];
      if i > 0 {
        assert r[i] == rest[i - 1];
      }
    }
  }

  /**
    The elements of `s` in the order a `std::set<std::string>` visits them:
    every element exactly once, in ascending order.
   */
  function Sorted(s: set<string>): (r: seq<string>)
    ensures |r| == |s|
    ensures forall x :: x in r <==> x in s
    ensures Ascending(r)
    decreases |s|
  {
    if s == {} then []
    else
      LeastExists(s);
      LeastUnique(s);
      var m :| IsLeast(m, s);
      LeastBeforeRest(m, s);
      var rest := Sorted(s - {m});
      AscendingCons(m, rest);
      [m] + rest
  }

  /** An ascending sequence is determined by its elements. */
  lemma {:induction false} AscendingUnique(a: seq<string>, b: seq<string>)
    requires Ascending(a) && Ascending(b)
    requires forall x :: x in a <==> x in b
    ensures a == b
    decreases |a|
  {
    assert a != [] ==> a[0] in b;
    assert b != [] ==> b[0] in a;
    if a != [] {
      if a[0] != b[0] {
        assert b[0] in a && a[0] in b;
        var i :| 0 <= i < |a| && a[i] == b[0];
        var j :| 0 <= j < |b| && b[j] == a[0];
        assert i > 0 && j > 0;
        LessAsymmetric(a[0], b[0]);
      }
      forall x
        ensures x in a[1..] <==> x in b[1..]
      {
        if x in a[1..] {
          var i :| 1 <= i < |a| && a[i] == x;
          LessIrreflexive(x);
          assert x in b && x != b[0];
        }
        if x in b[1..] {
          var j :| 1 <= j < |b| && b[j] == x;
          LessIrreflexive(x);
          assert x in a && x != a[0];
        }
      }
      AscendingUnique(a[1..], b[1..]);
      assert a == [a[0]] + a[1..] && b == [b[0]] + b[1..];
    }
  }

  /** `Sorted` is the one ascending listing of a set. */
  lemma SortedCharacterized(s: set<string>, r: seq<string>)
    requires Ascending(r)
    requires forall x :: x in r <==> x in s
    ensures Sorted(s) == r
  {
    AscendingUnique(Sorted(s), r);
  }
}
