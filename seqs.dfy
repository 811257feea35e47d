/** Generic sequence operations behind Ruby's `select`, `find` and `uniq`, with their laws. */
module Seqs {
  import opened Wrappers

  /** `a` is obtained from `b` by deleting elements, so it keeps `b`'s order. */
  predicate IsSubseq<T(==)>(a: seq<T>, b: seq<T>)
    decreases |b|
  {
    a == [] || (b != [] && ((a[0] == b[0] && IsSubseq(a[1..], b[1..])) || IsSubseq(a, b[1..])))
  }

  /** A subsequence of a sequence whose keys increase has increasing keys. */
  lemma {:induction false} SubseqOrder<T>(a: seq<T>, b: seq<T>, key: T -> int, i: nat, j: nat)
    requires IsSubseq(a, b) && i < j < |a|
    requires forall m, n :: 0 <= m < n < |b| ==> key(b[m]) < key(b[n])
    ensures key(a[i]) < key(a[j])
    decreases |b|
  {
    assert b != [];
    var tail := b[1..];
    assert forall m, n :: 0 <= m < n < |tail| ==> key(tail[m]) < key(tail[n]) by {
      forall m, n | 0 <= m < n < |tail| ensures key(tail[m]) < key(tail[n]) {
        assert tail[m] == b[m + 1] && tail[n] == b[n + 1];
      }
    }
    if a[0] == b[0] && IsSubseq(a[1..], tail) {
      if i > 0 {
        SubseqOrder(a[1..], tail, key, i - 1, j - 1);
      } else {
        SubseqMember(a[1..], tail, j - 1);
      }
    } else {
      SubseqOrder(a, tail, key, i, j);
    }
  }

  /** Every element of a subsequence occurs in the whole. */
  lemma {:induction false} SubseqMember<T>(a: seq<T>, b: seq<T>, k: nat)
    requires IsSubseq(a, b) && k < |a|
    ensures exists m :: 0 <= m < |b| && b[m] == a[k]
    decreases |b|
  {
    if a[0] == b[0] && IsSubseq(a[1..], b[1..]) {
      if k == 0 {
        assert b[0] == a[0];
      } else {
        SubseqMember(a[1..], b[1..], k - 1);
        var m :| 0 <= m < |b[1..]| && b[1..][m] == a[1..][k - 1];
        assert b[m + 1] == a[k];
      }
    } else {
      SubseqMember(a, b[1..], k);
      var m :| 0 <= m < |b[1..]| && b[1..][m] == a[k];
      assert b[m + 1] == a[k];
    }
  }

  lemma {:induction false} SubseqRefl<T>(s: seq<T>)
    ensures IsSubseq(s, s)
  {
    if s != [] {
      SubseqRefl(s[1..]);
    }
  }

  /** Ruby's `select`: the elements satisfying `p`, in their original order. */
  function Filter<T(==,!new)>(s: seq<T>, p: T -> bool): (r: seq<T>)
    ensures |r| <= |s|
    ensures forall x :: x in r <==> x in s && p(x)
    ensures IsSubseq(r, s)
  {
    if s == [] then []
    else if p(s[0]) then [s[0]] + Filter(s[1..], p)
    else Filter(s[1..], p)
  }

  lemma {:induction false} FilterAppend<T(!new)>(s: seq<T>, t: seq<T>, p: T -> bool)
    ensures Filter(s + t, p) == Filter(s, p) + Filter(t, p)
  {
    if s == [] {
      assert s + t == t;
    } else {
      assert (s + t)[1..] == s[1..] + t;
      FilterAppend(s[1..], t, p);
    }
  }

  /** Replacing one element changes the number of selected elements by at most the two tests. */
  lemma {:induction false} FilterUpdateCount<T(!new)>(s: seq<T>, k: nat, x: T, p: T -> bool)
    requires k < |s|
    ensures |Filter(s[k := x], p)| == |Filter(s, p)| - (if p(s[k]) then 1 else 0) + (if p(x) then 1 else 0)
  {
    if k == 0 {
      assert s[k := x][1..] == s[1..];
    } else {
      assert s[k := x][1..] == s[1..][k - 1 := x];
      FilterUpdateCount(s[1..], k - 1, x, p);
    }
  }

  /** Selecting from a selection never yields more than selecting from the whole. */
  lemma {:induction false} FilterOfFilterCount<T(!new)>(s: seq<T>, p: T -> bool, q: T -> bool)
    ensures |Filter(Filter(s, p), q)| <= |Filter(s, q)|
  {
    if s != [] {
      FilterOfFilterCount(s[1..], p, q);
      if p(s[0]) {
        assert Filter(s, p) == [s[0]] + Filter(s[1..], p);
        assert Filter(s, p)[1..] == Filter(s[1..], p);
      }
    }
  }

  /** A stricter test selects no more elements. */
  lemma {:induction false} FilterStricterCount<T(!new)>(s: seq<T>, p: T -> bool, q: T -> bool)
    requires forall x :: p(x) ==> q(x)
    ensures |Filter(s, p)| <= |Filter(s, q)|
  {
    if s != [] {
      FilterStricterCount(s[1..], p, q);
    }
  }

  /** Selecting by `p` and then by `q` is selecting once by their conjunction. */
  lemma {:induction false} FilterOfFilter<T(!new)>(s: seq<T>, p: T -> bool, q: T -> bool, pq: T -> bool)
    requires forall x :: pq(x) == (p(x) && q(x))
    ensures Filter(Filter(s, p), q) == Filter(s, pq)
  {
    if s != [] {
      FilterOfFilter(s[1..], p, q, pq);
      if p(s[0]) {
        assert Filter(s, p) == [s[0]] + Filter(s[1..], p);
        assert Filter(s, p)[1..] == Filter(s[1..], p);
      }
    }
  }

  /** Selecting by two tests that agree everywhere gives the same result. */
  lemma {:induction false} FilterExt<T(!new)>(s: seq<T>, p: T -> bool, q: T -> bool)
    requires forall x :: p(x) == q(x)
    ensures Filter(s, p) == Filter(s, q)
  {
    if s != [] {
      FilterExt(s[1..], p, q);
    }
  }

  /** Selecting by a test every element passes keeps the whole sequence. */
  lemma {:induction false} FilterAll<T(!new)>(s: seq<T>, p: T -> bool)
    requires forall x :: x in s ==> p(x)
    ensures Filter(s, p) == s
  {
    if s != [] {
      assert forall x :: x in s[1..] ==> x in s;
      FilterAll(s[1..], p);
    }
  }

  /** Selecting by a test no element passes gives nothing. */
  lemma {:induction false} FilterNone<T(!new)>(s: seq<T>, p: T -> bool)
    requires forall x :: x in s ==> !p(x)
    ensures Filter(s, p) == []
  {
    if s != [] {
      assert forall x :: x in s[1..] ==> x in s;
      FilterNone(s[1..], p);
    }
  }

  /** Ruby's `find` by position: the first index whose element satisfies `p`. */
  function FirstIndex<T>(s: seq<T>, p: T -> bool): (r: Option<nat>)
    ensures r.Some? ==> r.value < |s| && p(s[r.value]) && forall j :: 0 <= j < r.value ==> !p(s[j])
    ensures r.None? ==> forall j :: 0 <= j < |s| ==> !p(s[j])
  {
    if s == [] then None
    else if p(s[0]) then Some(0)
    else match FirstIndex(s[1..], p)
      case None => None
      case Some(i) => Some(i + 1)
  }

  predicate NoDups<T(==,!new)>(s: seq<T>) {
    forall i, j :: 0 <= i < j < |s| ==> s[i] != s[j]
  }

  /** Position of the first occurrence of `x` in `s`. */
  function IndexOf<T(==,!new)>(s: seq<T>, x: T): (i: nat)
    requires x in s
    ensures i < |s| && s[i] == x && forall j :: 0 <= j < i ==> s[j] != x
  {
    if s[0] == x then 0 else 1 + IndexOf(s[1..], x)
  }

  /** Ruby's `uniq`: drops every repetition, keeping each first occurrence. */
  function Dedup<T(==,!new)>(s: seq<T>): (r: seq<T>)
    ensures NoDups(r)
    ensures forall x :: x in r <==> x in s
    ensures |r| <= |s|
    decreases |s|
  {
    if s == [] then []
    else
      var d := Dedup(s[..|s| - 1]);
      if s[|s| - 1] in d then d else d + [s[|s| - 1]]
  }

  lemma IndexOfPrefix<T(!new)>(s: seq<T>, y: T, x: T)
    requires x in s
    ensures x in s + [y] && IndexOf(s + [y], x) == IndexOf(s, x)
  {
    var i := IndexOf(s, x);
    assert (s + [y])[i] == x;
  }

  /** `uniq` lists the distinct elements in the order of their first occurrences. */
  lemma {:induction false} DedupFirstOccurrenceOrder<T(!new)>(s: seq<T>)
    ensures forall i, j :: 0 <= i < j < |Dedup(s)| ==> IndexOf(s, Dedup(s)[i]) < IndexOf(s, Dedup(s)[j])
    decreases |s|
  {
    if s != [] {
      var init, y := s[..|s| - 1], s[|s| - 1];
      assert s == init + [y];
      DedupFirstOccurrenceOrder(init);
      var d := Dedup(init);
      forall x | x in d
        ensures IndexOf(s, x) == IndexOf(init, x)
      {
        IndexOfPrefix(init, y, x);
      }
      if y !in d {
        assert IndexOf(s, y) == |init|;
      }
    }
  }
}
