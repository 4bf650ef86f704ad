/**
 * Go's string order and sort.Strings, as doReduce uses them to put the
 * distinct keys of a reduce task in ascending order.
 */
module GoStrings {
  import opened Common

  /**
   * Go's a < b on strings: byte-wise lexicographic comparison, a proper
   * prefix coming first.
   */
  predicate Less(a: GoString, b: GoString)
    decreases |a|
  {
    if a == [] then b != []
    else if b == [] then false
    else a[0] < b[0] || (a[0] == b[0] && Less(a[1..], b[1..]))
  }

  lemma {:induction false} LessIrreflexive(a: GoString)
    ensures !Less(a, a)
  {
    if a != [] {
      LessIrreflexive(a[1..]);
    }
  }

  lemma {:induction false} LessAsymmetric(a: GoString, b: GoString)
    ensures Less(a, b) ==> !Less(b, a)
  {
    if a != [] && b != [] && a[0] == b[0] {
      LessAsymmetric(a[1..], b[1..]);
    }
  }

  lemma {:induction false} LessTransitive(a: GoString, b: GoString, c: GoString)
    ensures Less(a, b) && Less(b, c) ==> Less(a, c)
  {
    if a != [] && b != [] && c != [] && a[0] == b[0] && b[0] == c[0] {
      LessTransitive(a[1..], b[1..], c[1..]);
    }
  }

  /** Any two different strings are ordered one way or the other. */
  lemma {:induction false} LessTotal(a: GoString, b: GoString)
    ensures a == b || Less(a, b) || Less(b, a)
  {
    if a != [] && b != [] && a[0] == b[0] {
      LessTotal(a[1..], b[1..]);
      if a[1..] == b[1..] {
        assert a == [a[0]] + a[1..] && b == [b[0]] + b[1..];
      }
    }
  }

  /** "Not after" is transitive too. */
  lemma AtMostTransitive(a: GoString, b: GoString, c: GoString)
    ensures !Less(b, a) && !Less(c, b) ==> !Less(c, a)
  {
    if !Less(b, a) && !Less(c, b) && Less(c, a) {
      LessTotal(b, c);
      LessTransitive(b, c, a);
      assert false;
    }
  }

  /** Ascending, equal neighbours allowed: what sort.Strings leaves behind. */
  ghost predicate Sorted(s: seq<GoString>)
  {
    forall p, q :: 0 <= p < q < |s| ==> !Less(s[q], s[p])
  }

  /** Ascending with no string repeated. */
  ghost predicate StrictlyAscending(s: seq<GoString>)
  {
    forall p, q :: 0 <= p < q < |s| ==> Less(s[p], s[q])
  }

  ghost predicate Distinct(s: seq<GoString>)
  {
    forall p, q :: 0 <= p < q < |s| ==> s[p] != s[q]
  }

  /**
   * While the string first at position i moves left: every other pair in
   * s[..i+1] is in order, and the moving string, now at j, is below
   * everything to its right.
   */
  ghost predicate Inserting(s: seq<GoString>, i: int, j: int)
    requires 0 <= j <= i < |s|
  {
    (forall p, q :: 0 <= p < q <= i && p != j && q != j ==> !Less(s[q], s[p]))
    && (forall q :: j < q <= i ==> Less(s[j], s[q]))
  }

  /** Before the string at i moves: s[..i] is sorted, and nothing lies between j = i and i. */
  lemma InsertionStart(s: seq<GoString>, i: int)
    requires 0 <= i < |s| && Sorted(s[..i])
    ensures Inserting(s, i, i)
  {
    forall p, q | 0 <= p < q <= i && p != i && q != i
      ensures !Less(s[q], s[p])
    {
      assert s[..i][p] == s[p] && s[..i][q] == s[q];
    }
  }

  /**
   * The last step of an insertion: once the moving string at j is not
   * below its left neighbour, s[..i+1] is sorted.
   */
  lemma InsertionDone(s: seq<GoString>, i: int, j: int)
    requires 0 <= j <= i < |s| && Inserting(s, i, j)
    requires j > 0 ==> !Less(s[j], s[j - 1])
    ensures Sorted(s[..i + 1])
  {
    forall p, q | 0 <= p < q <= i
      ensures !Less(s[q], s[p])
    {
      if q == j && p < j - 1 {
        AtMostTransitive(s[p], s[j - 1], s[j]);
      } else if p == j {
        LessAsymmetric(s[j], s[q]);
      }
    }
  }

  /** Swapping the moving string with a greater left neighbour keeps the insertion in order. */
  lemma SwapLeft(s: seq<GoString>, i: int, j: int)
    requires 0 < j <= i < |s| && Inserting(s, i, j) && Less(s[j], s[j - 1])
    ensures Inserting(s[j - 1 := s[j]][j := s[j - 1]], i, j - 1)
  {
    var t := s[j - 1 := s[j]][j := s[j - 1]];
    forall q | j - 1 < q <= i
      ensures Less(t[j - 1], t[q])
    {
      if q > j {
        LessTransitive(s[j], s[j - 1], s[q]);
        LessTotal(s[j - 1], s[q]);
        LessAsymmetric(s[q], s[j - 1]);
      }
    }
    forall p, q | 0 <= p < q <= i && p != j - 1 && q != j - 1
      ensures !Less(t[q], t[p])
    {
      if q == j {
        LessAsymmetric(s[j], s[j - 1]);
        if p < j - 1 {
          AtMostTransitive(s[p], s[j - 1], s[j]);
        }
      }
    }
  }

  /** Swapping two neighbours permutes a sequence. */
  lemma SwapPermutes(s: seq<GoString>, j: int)
    requires 0 < j < |s|
    ensures multiset(s[j - 1 := s[j]][j := s[j - 1]]) == multiset(s)
  {
    var t := s[j - 1 := s[j]][j := s[j - 1]];
    assert s == s[..j - 1] + [s[j - 1], s[j]] + s[j + 1..];
    assert t == s[..j - 1] + [s[j], s[j - 1]] + s[j + 1..];
  }

  /**
   * sort.Strings(a): sorts the slice in place into ascending order.  The
   * library's algorithm is not part of this model; an insertion sort
   * stands for it, and the contract is what the library promises.
   */
  method SortStrings(a: array<GoString>)
    modifies a
    ensures Sorted(a[..])
    ensures multiset(a[..]) == old(multiset(a[..]))
  {
    var i := 0;
    while i < a.Length
      invariant 0 <= i <= a.Length
      invariant Sorted(a[..i])
      invariant multiset(a[..]) == old(multiset(a[..]))
    {
      Insert(a, i);
      i := i + 1;
    }
    assert a[..a.Length] == a[..];
  }

  /** One insertion step: the string at i moves left past every greater one. */
  method Insert(a: array<GoString>, i: int)
    requires 0 <= i < a.Length && Sorted(a[..i])
    modifies a
    ensures Sorted(a[..i + 1])
    ensures multiset(a[..]) == old(multiset(a[..]))
    ensures a[i + 1..] == old(a[i + 1..])
  {
    var j := i;
    InsertionStart(a[..], i);
    while j > 0 && Less(a[j], a[j - 1])
      invariant 0 <= j <= i
      invariant Inserting(a[..], i, j)
      invariant multiset(a[..]) == old(multiset(a[..]))
      invariant a[i + 1..] == old(a[i + 1..])
    {
      ghost var s := a[..];
      SwapLeft(s, i, j);
      SwapPermutes(s, j);
      a[j - 1], a[j] := a[j], a[j - 1];
      assert a[..] == s[j - 1 := s[j]][j := s[j - 1]];
      j := j - 1;
    }
    InsertionDone(a[..], i, j);
  }

  /** A string that occurs once in a sequence. */
  lemma {:induction false} DistinctCount(s: seq<GoString>, x: GoString)
    requires Distinct(s)
    ensures multiset(s)[x] <= 1
  {
    if s != [] {
      assert s == [s[0]] + s[1..];
      assert Distinct(s[1..]) by {
        forall p, q | 0 <= p < q < |s[1..]| ensures s[1..][p] != s[1..][q] {
          assert s[1..][p] == s[p + 1] && s[1..][q] == s[q + 1];
        }
      }
      DistinctCount(s[1..], x);
      if x == s[0] {
        assert x !in s[1..];
      }
    }
  }

  /** Permuting a sequence of distinct strings keeps them distinct. */
  lemma DistinctPermutation(s: seq<GoString>, t: seq<GoString>)
    requires Distinct(s) && multiset(s) == multiset(t)
    ensures Distinct(t)
  {
    forall p, q | 0 <= p < q < |t|
      ensures t[p] != t[q]
    {
      if t[p] == t[q] {
        var x := t[p];
        assert t == t[..q] + t[q..];
        assert x in t[..q] && x in t[q..];
        assert multiset(t)[x] == multiset(t[..q])[x] + multiset(t[q..])[x];
        DistinctCount(s, x);
        assert false;
      }
    }
  }

  /** A least element of a set of strings. */
  ghost predicate IsLeast(m: GoString, s: set<GoString>)
  {
    m in s && forall x :: x in s && x != m ==> Less(m, x)
  }

  lemma {:induction false} LeastExists(s: set<GoString>)
    requires s != {}
    ensures exists m :: IsLeast(m, s)
    decreases |s|
  {
    var x :| x in s;
    if s == {x} {
      assert IsLeast(x, s);
    } else {
      LeastExists(s - {x});
      var m :| IsLeast(m, s - {x});
      if Less(x, m) {
        forall y | y in s && y != x
          ensures Less(x, y)
        {
          if y != m {
            LessTransitive(x, m, y);
          }
        }
        assert IsLeast(x, s);
      } else {
        LessTotal(x, m);
        assert IsLeast(m, s);
      }
    }
  }

  /** The strings of a finite set in ascending order. */
  ghost function SortedKeys(s: set<GoString>): (ks: seq<GoString>)
    ensures |ks| == |s|
    ensures forall k :: k in ks <==> k in s
    ensures StrictlyAscending(ks)
    decreases |s|
  {
    if s == {} then []
    else
      LeastExists(s);
      var m :| IsLeast(m, s);
      var rest := SortedKeys(s - {m});
      LeastFirst(m, s, rest);
      [m] + rest
  }

  /** The least string of a set followed by the rest of it in ascending order is in ascending order. */
  lemma LeastFirst(m: GoString, s: set<GoString>, rest: seq<GoString>)
    requires IsLeast(m, s) && StrictlyAscending(rest)
    requires forall k :: k in rest <==> k in s - {m}
    ensures StrictlyAscending([m] + rest)
    ensures forall k :: k in [m] + rest <==> k in s
  {
    var t := [m] + rest;
    forall p, q | 0 <= p < q < |t|
      ensures Less(t[p], t[q])
    {
      if p == 0 {
        assert t[q] == rest[q - 1];
        assert t[q] in rest;
      } else {
        assert t[p] == rest[p - 1] && t[q] == rest[q - 1];
      }
    }
  }

  /**
   * Two strictly ascending sequences with the same strings are the same
   * sequence: the ascending order of a set does not depend on the order in
   * which its strings were found.
   */
  lemma {:induction false} AscendingUnique(a: seq<GoString>, b: seq<GoString>)
    requires StrictlyAscending(a) && StrictlyAscending(b)
    requires forall k :: k in a <==> k in b
    ensures a == b
    decreases |a|
  {
    if a != [] {
      var x := a[0];
      assert x in a;
    }
    if b != [] {
      var x := b[0];
      assert x in b;
    }
    if a != [] {
      assert b[0] in a && a[0] in b;
      var q :| 0 <= q < |a| && a[q] == b[0];
      var p :| 0 <= p < |b| && b[p] == a[0];
      if q != 0 && p != 0 {
        assert Less(a[0], a[q]) && Less(b[0], b[p]);
        LessAsymmetric(a[0], b[0]);
        assert false;
      }
      assert a[0] == b[0];
      assert a == [a[0]] + a[1..] && b == [b[0]] + b[1..];
      LessIrreflexive(a[0]);
      forall k
        ensures k in a[1..] <==> k in b[1..]
      {
        if k in a[1..] {
          var i :| 0 <= i < |a[1..]| && a[1..][i] == k;
          assert Less(a[0], a[i + 1]);
          assert k in b && k != b[0];
        }
        if k in b[1..] {
          var i :| 0 <= i < |b[1..]| && b[1..][i] == k;
          assert Less(b[0], b[i + 1]);
          assert k in a && k != a[0];
        }
      }
      AscendingUnique(a[1..], b[1..]);
    }
  }

  /**
   * Sorting the distinct keys of a set, taken in any order, gives the set's
   * ascending order.
   */
  lemma SortedIsSortedKeys(t: seq<GoString>, found: seq<GoString>, s: set<GoString>)
    requires Sorted(t) && multiset(t) == multiset(found)
    requires Distinct(found) && forall k :: k in found <==> k in s
    ensures t == SortedKeys(s)
  {
    DistinctPermutation(found, t);
    forall p, q | 0 <= p < q < |t|
      ensures Less(t[p], t[q])
    {
      LessTotal(t[p], t[q]);
    }
    forall k
      ensures k in t <==> k in s
    {
      assert k in t <==> k in multiset(t);
      assert k in found <==> k in multiset(found);
    }
    AscendingUnique(t, SortedKeys(s));
  }
}
