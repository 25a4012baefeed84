/** Facts about sequences that several components use. */
module Sequences {

  predicate Unique<T(==)>(s: seq<T>) {
    forall i, j :: 0 <= i < j < |s| ==> s[i] != s[j]
  }

  lemma UniquePrefix<T>(s: seq<T>, i: nat)
    requires i <= |s| && Unique(s)
    ensures Unique(s[..i]) && (i < |s| ==> s[i] !in s[..i])
  {}

  lemma UniqueAppend<T>(s: seq<T>, x: T)
    requires Unique(s) && x !in s
    ensures Unique(s + [x])
  {}

  lemma UniqueConcat<T>(a: seq<T>, b: seq<T>)
    requires Unique(a) && Unique(b) && forall x :: x in a ==> x !in b
    ensures Unique(a + b)
  {
    forall i, j | 0 <= i < j < |a + b| ensures (a + b)[i] != (a + b)[j] {
      if i < |a| <= j {
        assert a[i] in a && b[j - |a|] in b;
      }
    }
  }

  ghost function Elements<T>(s: seq<T>): set<T> {
    set x | x in s
  }

  lemma {:induction false} UniqueCount<T>(s: seq<T>)
    requires Unique(s)
    ensures |Elements(s)| == |s|
  {
    if s != [] {
      var front, last := s[..|s| - 1], s[|s| - 1];
      UniqueCount(front);
      assert s == front + [last];
      assert Elements(s) == Elements(front) + {last};
    }
  }

  /** One step of rewriting `s` from the left, `done` being the rewritten part. */
  lemma NextOf<T>(s: seq<T>, done: seq<T>, now: seq<T>, i: nat)
    requires i < |s| && |done| == i && now == done + s[i..]
    ensures |now| == |s| && now[i] == s[i] && s[..i + 1] == s[..i] + [s[i]]
    ensures forall x :: now[i := x] == done + [x] + s[i + 1..]
  {}
}
