/** Sequence facts shared by the name pool: subsequences, duplicate-freedom
    and the removal of one element at an index (JavaScript's `splice(i, 1)`). */
module Seqs {

  /** `s` can be obtained from `t` by deleting elements, order kept. */
  predicate IsSubsequence<T(==)>(s: seq<T>, t: seq<T>)
    decreases |t|
  {
    s == [] ||
    (t != [] && (IsSubsequence(s, t[1..]) || (s[0] == t[0] && IsSubsequence(s[1..], t[1..]))))
  }

  /** No value occurs twice. */
  predicate NoDuplicates<T(==)>(s: seq<T>)
  {
    forall i, j :: 0 <= i < j < |s| ==> s[i] != s[j]
  }

  /** `s` with the element at index `i` taken out, as `s.splice(i, 1)` leaves it. */
  function Remove<T>(s: seq<T>, i: nat): (r: seq<T>)
    requires i < |s|
    ensures |r| == |s| - 1
    ensures forall k :: 0 <= k < i ==> r[k] == s[k]
    ensures forall k :: i <= k < |r| ==> r[k] == s[k + 1]
    ensures multiset(r) + multiset{s[i]} == multiset(s)
  {
    assert s == s[..i] + [s[i]] + s[i + 1..];
    s[..i] + s[i + 1..]
  }

  lemma {:induction false} SubsequenceReflexive<T>(s: seq<T>)
    ensures IsSubsequence(s, s)
    decreases |s|
  {
    if s != [] {
      SubsequenceReflexive(s[1..]);
    }
  }

  lemma {:induction false} SubsequenceTransitive<T>(a: seq<T>, b: seq<T>, c: seq<T>)
    requires IsSubsequence(a, b) && IsSubsequence(b, c)
    ensures IsSubsequence(a, c)
    decreases |c|
  {
    if a != [] {
      if IsSubsequence(b, c[1..]) {
        SubsequenceTransitive(a, b, c[1..]);
      } else if IsSubsequence(a, b[1..]) {
        SubsequenceTransitive(a, b[1..], c[1..]);
      } else {
        SubsequenceTransitive(a[1..], b[1..], c[1..]);
      }
    }
  }

  lemma AppendAssociative<T>(a: seq<T>, b: seq<T>, c: seq<T>)
    ensures a + (b + c) == a + b + c
  {
  }

  /** Dropping every copy of `y` from a non-empty list: the first entry
      stays unless it is `y`. */
  lemma MultisetWithoutCons<T>(s: seq<T>, y: T)
    requires s != []
    ensures multiset(s)[y := 0] ==
      if s[0] == y then multiset(s[1..])[y := 0] else multiset(s[1..])[y := 0] + multiset{s[0]}
  {
    assert s == [s[0]] + s[1..];
    assert multiset(s) == multiset{s[0]} + multiset(s[1..]);
  }

  /** Removing one element leaves a subsequence. */
  lemma {:induction false} RemoveIsSubsequence<T>(s: seq<T>, i: nat)
    requires i < |s|
    ensures IsSubsequence(Remove(s, i), s)
    decreases i
  {
    var r := Remove(s, i);
    if i == 0 {
      assert r == s[1..];
      SubsequenceReflexive(s[1..]);
    } else {
      var tail := Remove(s[1..], i - 1);
      assert r == [s[0]] + tail by {
        assert r == s[..i] + s[i + 1..];
        assert s[..i] == [s[0]] + s[1..][..i - 1];
        assert s[i + 1..] == s[1..][i..];
      }
      RemoveIsSubsequence(s[1..], i - 1);
      assert r[1..] == tail;
    }
  }

  /** A subsequence holds no more copies of any value than the whole. */
  lemma {:induction false} SubsequenceMultiset<T>(s: seq<T>, t: seq<T>)
    requires IsSubsequence(s, t)
    ensures multiset(s) <= multiset(t)
    ensures forall x :: x in s ==> x in t
    decreases |t|
  {
    if s != [] {
      assert t == [t[0]] + t[1..];
      if IsSubsequence(s, t[1..]) {
        SubsequenceMultiset(s, t[1..]);
      } else {
        SubsequenceMultiset(s[1..], t[1..]);
        assert s == [s[0]] + s[1..];
      }
    }
    forall x | x in s ensures x in t {
      assert x in multiset(s);
    }
  }

  /** A subsequence of `t` holding every entry of `t` except the copies of
      `y` is unique: it is what filtering `y` out of `t` gives. */
  lemma {:induction false} FilterUnique<T>(a: seq<T>, b: seq<T>, t: seq<T>, y: T)
    requires IsSubsequence(a, t) && multiset(a) == multiset(t)[y := 0]
    requires IsSubsequence(b, t) && multiset(b) == multiset(t)[y := 0]
    ensures a == b
    decreases |t|
  {
    if t == [] {
      SubsequenceMultiset(a, t);
      SubsequenceMultiset(b, t);
    } else {
      var rest := t[1..];
      MultisetWithoutCons(t, y);
      if t[0] == y {
        FilterSkip(a, t, y);
        FilterSkip(b, t, y);
        FilterUnique(a, b, rest, y);
      } else {
        FilterKeep(a, t, y);
        FilterKeep(b, t, y);
        FilterUnique(a[1..], b[1..], rest, y);
        assert a == [a[0]] + a[1..] && b == [b[0]] + b[1..];
      }
    }
  }

  /** One step of FilterUnique: a first entry of `t` that is `y` is skipped. */
  lemma FilterSkip<T>(a: seq<T>, t: seq<T>, y: T)
    requires t != [] && t[0] == y
    requires IsSubsequence(a, t) && multiset(a) == multiset(t)[y := 0]
    ensures IsSubsequence(a, t[1..]) && multiset(a) == multiset(t[1..])[y := 0]
  {
    MultisetWithoutCons(t, y);
    if a != [] {
      assert a == [a[0]] + a[1..];
    }
  }

  /** One step of FilterUnique: a first entry of `t` that is not `y` is kept. */
  lemma FilterKeep<T>(a: seq<T>, t: seq<T>, y: T)
    requires t != [] && t[0] != y
    requires IsSubsequence(a, t) && multiset(a) == multiset(t)[y := 0]
    ensures a != [] && a[0] == t[0] && IsSubsequence(a[1..], t[1..])
    ensures multiset(a[1..]) == multiset(t[1..])[y := 0]
  {
    MultisetWithoutCons(t, y);
    var m := multiset(t[1..])[y := 0];
    assert multiset(a) == m + multiset{t[0]};
    assert multiset(a)[t[0]] == multiset(t[1..])[t[0]] + 1;
    if IsSubsequence(a, t[1..]) {
      SubsequenceMultiset(a, t[1..]);
      assert false;
    }
    assert a == [a[0]] + a[1..];
    assert multiset(a) == multiset{t[0]} + multiset(a[1..]);
    forall x ensures multiset(a[1..])[x] == m[x] {
      assert multiset(a)[x] == m[x] + multiset{t[0]}[x];
      assert multiset(a)[x] == multiset{t[0]}[x] + multiset(a[1..])[x];
    }
  }

  lemma NoDuplicatesCons<T>(x: T, s: seq<T>)
    ensures NoDuplicates([x] + s) <==> x !in s && NoDuplicates(s)
  {
    var xs := [x] + s;
    if x !in s && NoDuplicates(s) {
      forall i, j | 0 <= i < j < |xs| ensures xs[i] != xs[j] {
        assert xs[j] == s[j - 1];
        if i > 0 {
          assert xs[i] == s[i - 1];
        }
      }
    }
    if NoDuplicates(xs) {
      forall i, j | 0 <= i < j < |s| ensures s[i] != s[j] {
        assert s[i] == xs[i + 1] && s[j] == xs[j + 1];
      }
      forall j | 0 <= j < |s| ensures s[j] != x {
        assert s[j] == xs[j + 1] && x == xs[0];
      }
    }
  }

  /** A subsequence of a duplicate-free sequence is duplicate-free. */
  lemma {:induction false} SubsequenceNoDuplicates<T>(s: seq<T>, t: seq<T>)
    requires IsSubsequence(s, t) && NoDuplicates(t)
    ensures NoDuplicates(s)
    decreases |t|
  {
    if s != [] {
      assert t == [t[0]] + t[1..];
      NoDuplicatesCons(t[0], t[1..]);
      if IsSubsequence(s, t[1..]) {
        SubsequenceNoDuplicates(s, t[1..]);
      } else {
        SubsequenceNoDuplicates(s[1..], t[1..]);
        SubsequenceMultiset(s[1..], t[1..]);
        assert s == [s[0]] + s[1..];
        NoDuplicatesCons(s[0], s[1..]);
      }
    }
  }

  /** In a duplicate-free sequence, removing index `i` removes exactly the value `s[i]`. */
  lemma RemoveMembership<T>(s: seq<T>, i: nat, x: T)
    requires i < |s| && NoDuplicates(s)
    ensures x in Remove(s, i) <==> x in s && x != s[i]
  {
    var r := Remove(s, i);
    if x in r {
      var k :| 0 <= k < |r| && r[k] == x;
      if k < i {
        assert s[k] == x;
      } else {
        assert s[k + 1] == x;
      }
    }
    if x in s && x != s[i] {
      var k :| 0 <= k < |s| && s[k] == x;
      if k < i {
        assert r[k] == x;
      } else {
        assert r[k - 1] == x;
      }
    }
  }
}
