/** Duplicate-free sequences, and filtering that keeps the order of what it leaves. */
module Sequences {

  ghost predicate NoDup<T>(s: seq<T>) {
    forall i, j :: 0 <= i < j < |s| ==> s[i] != s[j]
  }

  function Elems<T>(s: seq<T>): set<T> {
    set x | x in s
  }

  /** The elements of `s` outside `drop`, in their old order. */
  function Without<T(==)>(s: seq<T>, drop: set<T>): seq<T> {
    if s == [] then []
    else if s[0] in drop then Without(s[1..], drop)
    else [s[0]] + Without(s[1..], drop)
  }

  /** The elements of `s` inside `keep`, in their old order. */
  function Only<T(==)>(s: seq<T>, keep: set<T>): seq<T> {
    if s == [] then []
    else if s[0] in keep then [s[0]] + Only(s[1..], keep)
    else Only(s[1..], keep)
  }

  lemma {:induction false} WithoutMembers<T>(s: seq<T>, drop: set<T>, x: T)
    ensures x in Without(s, drop) <==> x in s && x !in drop
  {
    if s != [] {
      WithoutMembers(s[1..], drop, x);
      assert s == [s[0]] + s[1..];
    }
  }

  lemma {:induction false} OnlyMembers<T>(s: seq<T>, keep: set<T>, x: T)
    ensures x in Only(s, keep) <==> x in s && x in keep
  {
    if s != [] {
      OnlyMembers(s[1..], keep, x);
      assert s == [s[0]] + s[1..];
    }
  }

  lemma {:induction false} WithoutIsSubsequence<T>(s: seq<T>, drop: set<T>, i: nat, j: nat)
    requires i < j < |Without(s, drop)|
    ensures exists a, b :: 0 <= a < b < |s| && s[a] == Without(s, drop)[i] && s[b] == Without(s, drop)[j]
  {
    var rest := Without(s[1..], drop);
    if s[0] in drop {
      WithoutIsSubsequence(s[1..], drop, i, j);
      var a, b :| 0 <= a < b < |s[1..]| && s[1..][a] == rest[i] && s[1..][b] == rest[j];
      assert s[a + 1] == rest[i] && s[b + 1] == rest[j];
    } else if i == 0 {
      WithoutMembers(s[1..], drop, rest[j - 1]);
      var b :| 0 <= b < |s[1..]| && s[1..][b] == rest[j - 1];
      assert s[0] == Without(s, drop)[0] && s[b + 1] == Without(s, drop)[j];
    } else {
      WithoutIsSubsequence(s[1..], drop, i - 1, j - 1);
      var a, b :| 0 <= a < b < |s[1..]| && s[1..][a] == rest[i - 1] && s[1..][b] == rest[j - 1];
      assert s[a + 1] == Without(s, drop)[i] && s[b + 1] == Without(s, drop)[j];
    }
  }

  lemma WithoutNoDup<T>(s: seq<T>, drop: set<T>)
    requires NoDup(s)
    ensures NoDup(Without(s, drop))
  {
    var r := Without(s, drop);
    forall i, j | 0 <= i < j < |r| ensures r[i] != r[j] {
      WithoutIsSubsequence(s, drop, i, j);
    }
  }

  lemma {:induction false} WithoutNothing<T>(s: seq<T>, drop: set<T>)
    requires forall x :: x in s ==> x !in drop
    ensures Without(s, drop) == s
  {
    if s != [] {
      assert forall x :: x in s[1..] ==> x in s;
      WithoutNothing(s[1..], drop);
      assert s == [s[0]] + s[1..];
    }
  }

  lemma {:induction false} WithoutTwice<T>(s: seq<T>, d0: set<T>, d1: set<T>)
    ensures Without(Without(s, d0), d1) == Without(s, d0 + d1)
  {
    if s != [] {
      WithoutTwice(s[1..], d0, d1);
      if s[0] !in d0 {
        assert Without(s, d0) == [s[0]] + Without(s[1..], d0);
        assert Without(s, d0)[1..] == Without(s[1..], d0);
      } else {
        assert Without(s, d0) == Without(s[1..], d0);
      }
    }
  }

  /** Dropping the one occurrence of an element is cutting the sequence there. */
  lemma {:induction false} WithoutOne<T>(s: seq<T>, at: nat)
    requires NoDup(s) && at < |s|
    ensures Without(s, {s[at]}) == s[..at] + s[at + 1..]
  {
    if at == 0 {
      WithoutNothing(s[1..], {s[0]});
    } else {
      assert s[1..][at - 1] == s[at];
      WithoutOne(s[1..], at - 1);
      assert s[1..][..at - 1] == s[1..at];
      assert s[1..][at..] == s[at + 1..];
      assert [s[0]] + s[1..at] == s[..at];
    }
  }

  lemma ElemsCard<T>(s: seq<T>)
    requires NoDup(s)
    ensures |Elems(s)| == |s|
    decreases |s|
  {
    if s == [] {
      assert Elems(s) == {};
    } else {
      var front, last := s[..|s| - 1], s[|s| - 1];
      ElemsCard(front);
      assert s == front + [last];
      assert Elems(s) == Elems(front) + {last};
    }
  }

  lemma {:induction false} OnlyNoDup<K>(order: seq<K>, keep: set<K>)
    requires NoDup(order)
    ensures NoDup(Only(order, keep))
  {
    if order != [] {
      assert NoDup(order[1..]);
      OnlyNoDup(order[1..], keep);
      if order[0] in keep {
        OnlyMembers(order[1..], keep, order[0]);
      }
    }
  }

  lemma {:induction false} SubsetCard<T>(a: set<T>, b: set<T>)
    requires a <= b
    ensures |a| <= |b|
  {
    if a != {} {
      var x :| x in a;
      SubsetCard(a - {x}, b - {x});
    }
  }

  lemma ConcatAssociates<T>(a: seq<T>, b: seq<T>, c: seq<T>)
    ensures a + (b + c) == a + b + c
  {
  }
}
