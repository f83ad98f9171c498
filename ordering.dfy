/** Python's ordering of `str` values, which `sorted` uses for the channel
    names: lexicographic by code point, a proper prefix first. */
module Ordering {

  predicate StrLess(a: string, b: string)
    // a proper prefix comes first, and nothing comes before its own prefix
    ensures a < b ==> StrLess(a, b)
    ensures b <= a ==> !StrLess(a, b)
    decreases |a|
  {
    if |a| == 0 then |b| > 0
    else if |b| == 0 then false
    else if a[0] != b[0] then a[0] < b[0]
    else StrLess(a[1..], b[1..])
  }

  lemma {:induction false} StrLessIrreflexive(a: string)
    ensures !StrLess(a, a)
    decreases |a|
  {
    if |a| > 0 {
      StrLessIrreflexive(a[1..]);
    }
  }

  lemma {:induction false} StrLessTransitive(a: string, b: string, c: string)
    requires StrLess(a, b) && StrLess(b, c)
    ensures StrLess(a, c)
    decreases |a|
  {
    if |a| > 0 && |b| > 0 && |c| > 0 && a[0] == b[0] && b[0] == c[0] {
      StrLessTransitive(a[1..], b[1..], c[1..]);
    }
  }

  /** Two different strings are ordered one way round. */
  lemma {:induction false} StrLessTotal(a: string, b: string)
    requires a != b
    ensures StrLess(a, b) || StrLess(b, a)
    decreases |a|
  {
    if |a| > 0 && |b| > 0 && a[0] == b[0] {
      assert a == [a[0]] + a[1..] && b == [b[0]] + b[1..];
      StrLessTotal(a[1..], b[1..]);
    }
  }

  /** And only one way round. */
  lemma {:induction false} StrLessAsymmetric(a: string, b: string)
    requires StrLess(a, b)
    ensures !StrLess(b, a)
    decreases |a|
  {
    if |a| > 0 && |b| > 0 && a[0] == b[0] {
      StrLessAsymmetric(a[1..], b[1..]);
    }
  }

  /** Strictly increasing, hence without repeats. */
  predicate Sorted(s: seq<string>) {
    forall i, j :: 0 <= i < j < |s| ==> StrLess(s[i], s[j])
  }

  predicate Distinct(s: seq<string>) {
    forall i, j :: 0 <= i < j < |s| ==> s[i] != s[j]
  }

  /** `sorted(names)` for names without repeats: the same names, increasing.
      Each name is inserted after the names that come before it. */
  method SortNames(names: seq<string>) returns (sorted: seq<string>)
    requires Distinct(names)
    ensures Sorted(sorted) && multiset(sorted) == multiset(names)
  {
    sorted := [];
    var i := 0;
    while i < |names|
      invariant i <= |names|
      invariant Sorted(sorted) && multiset(sorted) == multiset(names[..i])
    {
      var name := names[i];
      assert name !in multiset(sorted) by {
        forall k | 0 <= k < i ensures names[..i][k] != name {
          assert names[..i][k] == names[k];
        }
      }
      sorted := Insert(sorted, name);
      assert names[..i + 1] == names[..i] + [name];
      i := i + 1;
    }
    assert names[..i] == names;
  }

  /** One pass of the outer loop: `name` goes in after the names below it. */
  method Insert(sorted: seq<string>, name: string) returns (r: seq<string>)
    requires Sorted(sorted) && name !in multiset(sorted)
    ensures Sorted(r) && multiset(r) == multiset(sorted) + multiset{name}
  {
    var j := FindSlot(sorted, name);
    InsertSorted(sorted, j, name);
    assert sorted == sorted[..j] + sorted[j..];
    r := sorted[..j] + [name] + sorted[j..];
  }

  /** The place of `name` in `sorted`: after every name below it. */
  method FindSlot(sorted: seq<string>, name: string) returns (j: nat)
    ensures j <= |sorted|
    ensures forall k :: 0 <= k < j ==> StrLess(sorted[k], name)
    ensures j < |sorted| ==> !StrLess(sorted[j], name)
  {
    j := 0;
    while j < |sorted| && StrLess(sorted[j], name)
      invariant j <= |sorted|
      invariant forall k :: 0 <= k < j ==> StrLess(sorted[k], name)
    {
      j := j + 1;
    }
  }

  /** Inserting a new name after exactly the names below it keeps the order. */
  lemma InsertSorted(s: seq<string>, j: nat, name: string)
    requires Sorted(s) && j <= |s| && name !in multiset(s)
    requires forall k :: 0 <= k < j ==> StrLess(s[k], name)
    requires j < |s| ==> !StrLess(s[j], name)
    ensures Sorted(s[..j] + [name] + s[j..])
  {
    var t := s[..j] + [name] + s[j..];
    if j < |s| {
      assert s[j] in multiset(s);
      StrLessTotal(s[j], name);
    }
    forall a, b | 0 <= a < b < |t| ensures StrLess(t[a], t[b]) {
      if a == j && b - 1 > j {
        StrLessTransitive(name, s[j], s[b - 1]);
      }
    }
  }

  /** No name occurs twice in a sorted sequence. */
  lemma SortedDistinct(s: seq<string>)
    requires Sorted(s)
    ensures Distinct(s)
  {
    forall i, j | 0 <= i < j < |s| ensures s[i] != s[j] {
      StrLessIrreflexive(s[i]);
    }
  }

  /** A sorted sequence is fixed by the names it holds: `sorted` has one answer. */
  lemma {:induction false} SortedUnique(a: seq<string>, b: seq<string>)
    requires Sorted(a) && Sorted(b)
    requires forall x :: x in a <==> x in b
    ensures a == b
    decreases |a|
  {
    if |a| == 0 {
      forall x ensures x !in multiset(b) {
        assert x !in a;
      }
      assert multiset(b) == multiset{};
      assert |b| == |multiset(b)| == 0;
    } else {
      assert |b| > 0 by {
        assert a[0] in b;
      }
      assert a[0] == b[0] by {
        assert a[0] in b && b[0] in a;
        var i :| 0 <= i < |a| && a[i] == b[0];
        var j :| 0 <= j < |b| && b[j] == a[0];
        if i > 0 && j > 0 {
          StrLessAsymmetric(a[0], a[i]);
        }
      }
      forall x ensures x in a[1..] <==> x in b[1..] {
        SortedDistinct(a);
        SortedDistinct(b);
        if x in a[1..] {
          var i :| 1 <= i < |a| && a[i] == x;
          assert x != a[0];
          assert x in b;
        }
        if x in b[1..] {
          var j :| 1 <= j < |b| && b[j] == x;
          assert x != b[0];
          assert x in a;
        }
      }
      SortedUnique(a[1..], b[1..]);
      assert a == [a[0]] + a[1..] && b == [b[0]] + b[1..];
    }
  }

  /** A sorted sequence holds as many different names as it is long. */
  lemma {:induction false} SortedCount(s: seq<string>)
    requires Sorted(s)
    ensures |set x | x in s| == |s|
    decreases |s|
  {
    if |s| > 0 {
      SortedCount(s[1..]);
      SortedDistinct(s);
      assert (set x | x in s) == {s[0]} + (set x | x in s[1..]);
      assert s[0] !in s[1..];
    }
  }
}
