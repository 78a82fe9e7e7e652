/** Order-preserving list operations used by the scheduler's task list:
    `List<T>.Remove` (first occurrence) and the filter that a backward
    removal loop performs. */
module Sequences {

  /** No element occurs twice. */
  predicate Distinct<T(==)>(s: seq<T>) {
    forall i, j :: 0 <= i < j < |s| ==> s[i] != s[j]
  }

  /** `a` is obtained from `b` by deleting elements, keeping the order of the rest. */
  predicate SubSeq<T(==)>(a: seq<T>, b: seq<T>)
    decreases |b|
  {
    if a == [] then true
    else if b == [] then false
    else if a[0] == b[0] then SubSeq(a[1..], b[1..])
    else SubSeq(a, b[1..])
  }

  /** `List<T>.Remove(x)`: deletes the first occurrence of `x`, if any. */
  function RemoveFirst<T(==)>(s: seq<T>, x: T): (r: seq<T>)
    ensures |r| == if x in s then |s| - 1 else |s|
    ensures forall y :: y in r ==> y in s
  {
    if s == [] then []
    else if s[0] == x then s[1..]
    else [s[0]] + RemoveFirst(s[1..], x)
  }

  /** The elements of `s` that are not in `gone`, in their order in `s`. */
  function Without<T(==)>(s: seq<T>, gone: set<T>): (r: seq<T>)
  {
    if s == [] then []
    else if s[0] in gone then Without(s[1..], gone)
    else [s[0]] + Without(s[1..], gone)
  }

  lemma {:induction false} RemoveFirstAbsent<T>(s: seq<T>, x: T)
    requires x !in s
    ensures RemoveFirst(s, x) == s
  {
    if s != [] {
      assert s[0] != x;
      assert x !in s[1..];
      RemoveFirstAbsent(s[1..], x);
    }
  }

  /** Removing the first occurrence deletes exactly one copy of `x` when
      there is one, and nothing otherwise. */
  lemma {:induction false} RemoveFirstCount<T>(s: seq<T>, x: T)
    ensures x in s ==> multiset(RemoveFirst(s, x)) == multiset(s) - multiset{x}
    ensures x !in s ==> RemoveFirst(s, x) == s
  {
    if s == [] {
    } else if s[0] == x {
      assert s == [s[0]] + s[1..];
    } else {
      assert s == [s[0]] + s[1..];
      RemoveFirstCount(s[1..], x);
    }
  }

  /** When `x` first occurs at index `i`, `Remove` deletes exactly index `i`. */
  lemma {:induction false} RemoveFirstAt<T>(s: seq<T>, x: T, i: nat)
    requires i < |s| && s[i] == x && x !in s[..i]
    ensures RemoveFirst(s, x) == s[..i] + s[i+1..]
  {
    if i > 0 {
      assert s[0] in s[..i];
      assert s[1..][..i-1] == s[1..i];
      assert x !in s[1..][..i-1];
      RemoveFirstAt(s[1..], x, i - 1);
      assert s[..i] == [s[0]] + s[1..][..i-1];
      assert s[i+1..] == s[1..][i..];
    }
  }

  /** `Remove` keeps the order of the remaining elements. */
  lemma {:induction false} RemoveFirstSubSeq<T>(s: seq<T>, x: T)
    ensures SubSeq(RemoveFirst(s, x), s)
  {
    if s == [] {
    } else if s[0] == x {
      DropFirstSubSeq(s);
    } else {
      RemoveFirstSubSeq(s[1..], x);
      assert ([s[0]] + RemoveFirst(s[1..], x))[1..] == RemoveFirst(s[1..], x);
    }
  }

  lemma {:induction false} SubSeqRefl<T>(s: seq<T>)
    ensures SubSeq(s, s)
  {
    if s != [] {
      SubSeqRefl(s[1..]);
    }
  }

  lemma DropFirstSubSeq<T>(s: seq<T>)
    requires s != []
    ensures SubSeq(s[1..], s)
  {
    SubSeqRefl(s[1..]);
    SubSeqSkip(s[1..], s);
  }

  /** A task is in the filtered list exactly when it was in the list and is not removed. */
  lemma {:induction false} WithoutMembers<T>(s: seq<T>, gone: set<T>)
    ensures forall x :: x in Without(s, gone) <==> x in s && x !in gone
  {
    if s != [] {
      WithoutMembers(s[1..], gone);
      assert s == [s[0]] + s[1..];
    }
  }

  /** Survivors keep their relative order. */
  lemma {:induction false} WithoutSubSeq<T>(s: seq<T>, gone: set<T>)
    ensures SubSeq(Without(s, gone), s)
  {
    if s == [] {
    } else if s[0] in gone {
      WithoutSubSeq(s[1..], gone);
      SubSeqSkip(Without(s[1..], gone), s);
    } else {
      WithoutSubSeq(s[1..], gone);
      assert ([s[0]] + Without(s[1..], gone))[1..] == Without(s[1..], gone);
    }
  }

  lemma {:induction false} SubSeqSkip<T>(a: seq<T>, b: seq<T>)
    requires b != [] && SubSeq(a, b[1..])
    ensures SubSeq(a, b)
    decreases |b|, 0
  {
    if a != [] && a[0] == b[0] {
      // a[1..] is a sub-sequence of a, and a of b[1..]
      SubSeqTail(a, b[1..]);
    }
  }

  lemma {:induction false} SubSeqTail<T>(a: seq<T>, b: seq<T>)
    requires a != [] && SubSeq(a, b)
    ensures SubSeq(a[1..], b)
    decreases |b|, 1
  {
    assert b != [];
    if a[0] == b[0] {
      assert SubSeq(a[1..], b[1..]);
      SubSeqSkip(a[1..], b);
    } else {
      SubSeqTail(a, b[1..]);
      SubSeqSkip(a[1..], b);
    }
  }

  /** Filtering is unaffected by removed elements that do not occur. */
  lemma {:induction false} WithoutIgnoresAbsent<T>(s: seq<T>, gone: set<T>, x: T)
    requires x !in s
    ensures Without(s, gone + {x}) == Without(s, gone)
  {
    if s != [] {
      assert x !in s[1..];
      WithoutIgnoresAbsent(s[1..], gone, x);
    }
  }

  /** In a duplicate-free list, removing `x` leaves no `x` behind, so a
      second removal changes nothing. */
  lemma RemoveFirstIdempotent<T>(s: seq<T>, x: T)
    requires Distinct(s)
    ensures x !in RemoveFirst(s, x)
    ensures RemoveFirst(RemoveFirst(s, x), x) == RemoveFirst(s, x)
  {
    RemoveFirstCount(s, x);
    if x in s {
      var i :| 0 <= i < |s| && s[i] == x;
      assert multiset(s)[x] == 1 by {
        DistinctCount(s, i);
      }
      assert multiset(RemoveFirst(s, x))[x] == 0;
    }
    RemoveFirstAbsent(RemoveFirst(s, x), x);
  }

  lemma {:induction false} DistinctCount<T>(s: seq<T>, i: nat)
    requires Distinct(s) && i < |s|
    ensures multiset(s)[s[i]] == 1
  {
    assert s == s[..i] + [s[i]] + s[i+1..];
    assert s[i] !in s[..i];
    assert s[i] !in s[i+1..];
  }
}
