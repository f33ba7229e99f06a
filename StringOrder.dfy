/** The order in which `sortedUniq` arranges strings, and `sortedUniq`
    itself: sort ascending, keep one copy of each value. */
module StringOrder {

  /** Lexicographic order on strings, character by character; a proper
      prefix comes first. */
  predicate Less(a: string, b: string): (r: bool)
    ensures r ==> a != b
    ensures |a| < |b| && a == b[..|a|] ==> r
    decreases |a|
  {
    if |a| == 0 then |b| > 0
    else |b| > 0 && (a[0] < b[0] || (a[0] == b[0] && Less(a[1..], b[1..])))
  }

  lemma {:induction false} LessIrreflexive(a: string)
    ensures !Less(a, a)
  {
    if |a| > 0 {
      LessIrreflexive(a[1..]);
    }
  }

  /** Any two strings are equal or ordered one way, and never both ways. */
  lemma {:induction false} LessTrichotomy(a: string, b: string)
    ensures a == b || Less(a, b) || Less(b, a)
    ensures !(Less(a, b) && Less(b, a))
  {
    if |a| > 0 && |b| > 0 {
      LessTrichotomy(a[1..], b[1..]);
      if a[0] == b[0] && a[1..] == b[1..] {
        assert a == [a[0]] + a[1..];
        assert b == [b[0]] + b[1..];
      }
    }
  }

  lemma {:induction false} LessTransitive(a: string, b: string, c: string)
    requires Less(a, b) && Less(b, c)
    ensures Less(a, c)
  {
    if |a| > 0 && a[0] == b[0] && b[0] == c[0] {
      LessTransitive(a[1..], b[1..], c[1..]);
    }
  }

  /** Ascending with no value repeated. */
  ghost predicate StrictlySorted(s: seq<string>)
  {
    forall i, j :: 0 <= i < j < |s| ==> Less(s[i], s[j])
  }

  /** A strictly sorted sequence holds each value once. */
  lemma SortedNoDuplicates(s: seq<string>, i: nat, j: nat)
    requires StrictlySorted(s) && i < j < |s|
    ensures s[i] != s[j]
  {
    LessIrreflexive(s[i]);
  }

  /** The first element of a strictly sorted sequence is below every later one,
      and the rest is strictly sorted too. */
  lemma SortedHead(s: seq<string>)
    requires StrictlySorted(s) && |s| > 0
    ensures StrictlySorted(s[1..])
    ensures forall y :: y in s[1..] ==> Less(s[0], y)
  {
    forall i, j | 0 <= i < j < |s[1..]|
      ensures Less(s[1..][i], s[1..][j])
    {
      assert s[1..][i] == s[i + 1] && s[1..][j] == s[j + 1];
    }
    forall y | y in s[1..]
      ensures Less(s[0], y)
    {
      var k :| 0 <= k < |s[1..]| && s[1..][k] == y;
      assert s[k + 1] == y;
    }
  }

  lemma ConsSorted(x: string, s: seq<string>)
    requires StrictlySorted(s)
    requires forall y :: y in s ==> Less(x, y)
    ensures StrictlySorted([x] + s)
  {
    var t := [x] + s;
    forall i, j | 0 <= i < j < |t|
      ensures Less(t[i], t[j])
    {
      assert t[j] == s[j - 1];
      if i > 0 {
        assert t[i] == s[i - 1];
      }
    }
  }

  /** `x` put in its place in a strictly sorted sequence, unless already there. */
  function Insert(s: seq<string>, x: string): (r: seq<string>)
    requires StrictlySorted(s)
    ensures StrictlySorted(r)
    ensures forall y :: y in r <==> y in s || y == x
  {
    if |s| == 0 then [x]
    else if x == s[0] then s
    else
      SortedHead(s);
      LessTrichotomy(x, s[0]);
      if Less(x, s[0]) then
        assert forall y :: y in s ==> Less(x, y) by {
          forall y | y in s ensures Less(x, y) {
            if y != s[0] {
              assert y in s[1..] by { assert s == [s[0]] + s[1..]; }
              LessTransitive(x, s[0], y);
            }
          }
        }
        ConsSorted(x, s);
        [x] + s
      else
        var t := Insert(s[1..], x);
        assert s == [s[0]] + s[1..];
        ConsSorted(s[0], t);
        [s[0]] + t
  }

  /** `sortedUniq(s)`: the values of `s`, ascending, each once. */
  function SortedUniq(s: seq<string>): (r: seq<string>)
    ensures StrictlySorted(r)
    ensures forall y :: y in r <==> y in s
  {
    if |s| == 0 then []
    else
      var n := |s| - 1;
      assert s == s[..n] + [s[n]];
      Insert(SortedUniq(s[..n]), s[n])
  }

  lemma HasFirst(s: seq<string>)
    ensures |s| > 0 ==> s[0] in s
  {
  }

  /** Two strictly sorted sequences with the same values are equal: the
      output of SortedUniq is the only strictly sorted arrangement of the
      values it is given. */
  lemma {:induction false} SortedUnique(a: seq<string>, b: seq<string>)
    requires StrictlySorted(a) && StrictlySorted(b)
    requires forall y :: y in a <==> y in b
    ensures a == b
  {
    if |a| > 0 && |b| > 0 {
      SortedHead(a);
      SortedHead(b);
      assert a == [a[0]] + a[1..];
      assert b == [b[0]] + b[1..];
      assert a[0] == b[0] || Less(b[0], a[0]) by {
        assert a[0] in b;
      }
      assert b[0] == a[0] || Less(a[0], b[0]) by {
        assert b[0] in a;
      }
      LessTrichotomy(a[0], b[0]);
      LessIrreflexive(a[0]);
      assert a[0] !in a[1..] && b[0] !in b[1..];
      forall y
        ensures y in a[1..] <==> y in b[1..]
      {
        assert y in a <==> y == a[0] || y in a[1..];
        assert y in b <==> y == b[0] || y in b[1..];
      }
      SortedUnique(a[1..], b[1..]);
      assert a == [a[0]] + a[1..];
      assert b == [b[0]] + b[1..];
    } else {
      HasFirst(a);
      HasFirst(b);
    }
  }

  /** A sequence that is already strictly sorted is left as it is. */
  lemma SortedUniqOfSorted(s: seq<string>)
    requires StrictlySorted(s)
    ensures SortedUniq(s) == s
  {
    SortedUnique(SortedUniq(s), s);
  }

  /** `sortedUniq` is idempotent. */
  lemma SortedUniqIdempotent(s: seq<string>)
    ensures SortedUniq(SortedUniq(s)) == SortedUniq(s)
  {
    SortedUniqOfSorted(SortedUniq(s));
  }

  /** `sortedUniq` depends only on which values occur, not on their order or
      repetition. */
  lemma SortedUniqSameValues(a: seq<string>, b: seq<string>)
    requires forall y :: y in a <==> y in b
    ensures SortedUniq(a) == SortedUniq(b)
  {
    SortedUnique(SortedUniq(a), SortedUniq(b));
  }
}
