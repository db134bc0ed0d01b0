/** Subsequences of a sequence, used for growing orders and for line diffs. */
module Subsequences {

  predicate IsSubsequence<T(==)>(s: seq<T>, a: seq<T>)
    decreases |a|
  {
    if s == [] then true
    else if a == [] then false
    else if s[0] == a[0] then IsSubsequence(s[1..], a[1..])
    else IsSubsequence(s, a[1..])
  }

  lemma {:induction false} DropHead<T>(s: seq<T>, a: seq<T>)
    requires s != [] && IsSubsequence(s, a)
    ensures a != [] && IsSubsequence(s[1..], a)
    decreases |a|, 1
  {
    if s[0] == a[0] {
      Weaken(s[1..], a);
    } else {
      DropHead(s, a[1..]);
      Weaken(s[1..], a);
    }
  }

  // A subsequence of the tail is a subsequence of the whole.
  lemma {:induction false} Weaken<T>(s: seq<T>, a: seq<T>)
    requires a != [] && IsSubsequence(s, a[1..])
    ensures IsSubsequence(s, a)
    decreases |a|, 0
  {
    if s != [] && s[0] == a[0] {
      DropHead(s, a[1..]);
    }
  }

  // Dropping both heads.
  lemma DropBoth<T>(s: seq<T>, a: seq<T>)
    requires s != [] && IsSubsequence(s, a)
    ensures a != [] && IsSubsequence(s[1..], a[1..])
  {
    if s[0] != a[0] {
      DropHead(s, a[1..]);
    }
  }

  lemma {:induction false} NoLonger<T>(s: seq<T>, a: seq<T>)
    requires IsSubsequence(s, a)
    ensures |s| <= |a|
    ensures |s| == |a| ==> s == a
    decreases |a|
  {
    if s != [] {
      if s[0] == a[0] {
        NoLonger(s[1..], a[1..]);
        assert s == [s[0]] + s[1..] && a == [a[0]] + a[1..];
      } else {
        NoLonger(s, a[1..]);
      }
    }
  }

  lemma {:induction false} WeakenBy<T>(s: seq<T>, a: seq<T>, n: nat)
    requires n <= |a| && IsSubsequence(s, a[n..])
    ensures IsSubsequence(s, a)
  {
    if n > 0 {
      assert a[n - 1..][1..] == a[n..];
      Weaken(s, a[n - 1..]);
      WeakenBy(s, a, n - 1);
    } else {
      assert a[0..] == a;
    }
  }

  lemma ConsBoth<T>(x: T, s: seq<T>, a: seq<T>)
    requires IsSubsequence(s, a)
    ensures IsSubsequence([x] + s, [x] + a)
  {
    assert ([x] + s)[1..] == s && ([x] + a)[1..] == a;
  }

  lemma ConsRight<T>(x: T, s: seq<T>, a: seq<T>)
    requires IsSubsequence(s, a)
    ensures IsSubsequence(s, [x] + a)
  {
    assert ([x] + a)[1..] == a;
    Weaken(s, [x] + a);
  }
}
