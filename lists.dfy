/** Sequence helpers shared by the components: the `filter(x => x !== v)` and `find`
    idioms, duplicate-freedom and the `Array.from({ length: n }, (_, i) => i)` range. */
module Lists {
  import opened Wrappers

  /** `s.find(matches)`: the first entry that matches, if any. */
  function FindFirst<T(==)>(s: seq<T>, matches: T -> bool): (r: Option<T>)
    ensures r.None? <==> forall k :: 0 <= k < |s| ==> !matches(s[k])
    ensures r.Some? ==> exists k :: 0 <= k < |s| && s[k] == r.value && matches(r.value)
                                    && forall j :: 0 <= j < k ==> !matches(s[j])
  {
    if s == [] then None
    else if matches(s[0]) then Some(s[0])
    else
      var tail := s[1..];
      var r := FindFirst(tail, matches);
      assert forall k :: 0 <= k < |tail| ==> tail[k] == s[k + 1];
      if r.None? then r
      else
        var k :| 0 <= k < |tail| && tail[k] == r.value && matches(r.value)
                 && forall j :: 0 <= j < k ==> !matches(tail[j]);
        assert forall j :: 0 <= j < k + 1 ==> !matches(s[j]);
        r
  }

  /** `s.filter(y => y !== x)`: every copy of `x` goes, everything else stays in order. */
  function RemoveAll<T(==)>(s: seq<T>, x: T): (r: seq<T>)
    ensures x !in r
    ensures multiset(r) == multiset(s)[x := 0]
    ensures |r| <= |s|
  {
    if s == [] then []
    else
      assert s == [s[0]] + s[1..];
      if s[0] == x then RemoveAll(s[1..], x)
      else [s[0]] + RemoveAll(s[1..], x)
  }

  /** Filtering distributes over concatenation, so it keeps the relative order of what it keeps. */
  lemma {:induction false} RemoveAllAppend<T>(a: seq<T>, b: seq<T>, x: T)
    ensures RemoveAll(a + b, x) == RemoveAll(a, x) + RemoveAll(b, x)
  {
    if a == [] {
      assert a + b == b;
    } else {
      assert (a + b)[1..] == a[1..] + b;
      RemoveAllAppend(a[1..], b, x);
    }
  }

  /** Removing a value that is not there changes nothing. */
  lemma {:induction false} RemoveAllAbsent<T>(s: seq<T>, x: T)
    requires x !in s
    ensures RemoveAll(s, x) == s
  {
    if s != [] {
      RemoveAllAbsent(s[1..], x);
    }
  }

  predicate NoDup<T(==)>(s: seq<T>) {
    forall i, j :: 0 <= i < j < |s| ==> s[i] != s[j]
  }

  /** Filtering a duplicate-free sequence leaves it duplicate-free. */
  lemma {:induction false} RemoveAllKeepsNoDup<T>(s: seq<T>, x: T)
    requires NoDup(s)
    ensures NoDup(RemoveAll(s, x))
  {
    if s != [] {
      RemoveAllKeepsNoDup(s[1..], x);
      var rest := RemoveAll(s[1..], x);
      if s[0] != x {
        assert s[0] !in s[1..];
        assert s[0] !in multiset(rest);
      }
    }
  }

  /** `Array.from({ length: n }, (_, i) => i)`. */
  function Range(n: nat): (r: seq<int>)
    ensures |r| == n
    ensures forall i :: 0 <= i < n ==> r[i] == i
  {
    seq(n, i => i)
  }

  /** `a` is `b` with some entries left out, the rest in their original order. */
  predicate Subsequence<T(==)>(a: seq<T>, b: seq<T>)
    decreases |b|
  {
    a == [] || (b != [] && ((a[0] == b[0] && Subsequence(a[1..], b[1..])) || Subsequence(a, b[1..])))
  }

  /** Filtering keeps the surviving entries in their original order. */
  lemma {:induction false} RemoveAllSubsequence<T>(s: seq<T>, x: T)
    ensures Subsequence(RemoveAll(s, x), s)
  {
    if s != [] {
      RemoveAllSubsequence(s[1..], x);
    }
  }
}
