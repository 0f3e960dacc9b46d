/** The array operations the script relies on (Array.prototype.filter, map and
    push of whole arrays), stated once over sequences, with the facts about them
    that the rest of the model uses. */
module Sequences {

  /** `s.filter(keep)`, where the callback sees each element and its index in `s`. */
  function Filter<T>(s: seq<T>, keep: (T, nat) -> bool): (r: seq<T>)
    ensures |r| <= |s|
    decreases |s|
  {
    if s == [] then []
    else
      var last := |s| - 1;
      Filter(s[..last], keep) + (if keep(s[last], last) then [s[last]] else [])
  }

  /** `a` is `b` with some elements dropped and the rest kept in order. */
  predicate IsSubsequence<T(==)>(a: seq<T>, b: seq<T>)
    decreases |b|
  {
    a == [] ||
    (b != [] &&
     ((a[|a| - 1] == b[|b| - 1] && IsSubsequence(a[..|a| - 1], b[..|b| - 1])) ||
      IsSubsequence(a, b[..|b| - 1])))
  }

  /** Filtering one more element at the end decides only that element, by its own index. */
  lemma FilterSnoc<T>(s: seq<T>, x: T, keep: (T, nat) -> bool)
    ensures Filter(s + [x], keep) == Filter(s, keep) + (if keep(x, |s|) then [x] else [])
  {
    assert (s + [x])[..|s|] == s;
  }

  /** An element survives the filter exactly when it stands at an index the callback keeps. */
  lemma {:induction false} FilterMembership<T>(s: seq<T>, keep: (T, nat) -> bool, x: T)
    ensures x in Filter(s, keep) <==> exists i :: 0 <= i < |s| && s[i] == x && keep(s[i], i)
    decreases |s|
  {
    if s != [] {
      var last := |s| - 1;
      var front := s[..last];
      FilterMembership(front, keep, x);
      if x in Filter(s, keep) {
        if x in Filter(front, keep) {
          var i :| 0 <= i < |front| && front[i] == x && keep(front[i], i);
          assert s[i] == x && keep(s[i], i);
        } else {
          assert s[last] == x && keep(s[last], last);
        }
      }
      if exists i :: 0 <= i < |s| && s[i] == x && keep(s[i], i) {
        var i :| 0 <= i < |s| && s[i] == x && keep(s[i], i);
        if i < last {
          assert front[i] == x && keep(front[i], i);
        }
      }
    }
  }

  /** Filtering keeps the surviving elements in their original order. */
  lemma {:induction false} FilterIsSubsequence<T>(s: seq<T>, keep: (T, nat) -> bool)
    ensures IsSubsequence(Filter(s, keep), s)
    decreases |s|
  {
    if s != [] {
      var last := |s| - 1;
      var front := Filter(s[..last], keep);
      FilterIsSubsequence(s[..last], keep);
      if keep(s[last], last) {
        var r := front + [s[last]];
        assert r[..|r| - 1] == front && r[|r| - 1] == s[|s| - 1];
        assert IsSubsequence(r, s);
      } else {
        assert Filter(s, keep) == front + [];
        assert front + [] == front;
      }
    }
  }

  /** A callback that keeps every index leaves the sequence unchanged. */
  lemma {:induction false} FilterKeepingAll<T>(s: seq<T>, keep: (T, nat) -> bool)
    requires forall i :: 0 <= i < |s| ==> keep(s[i], i)
    ensures Filter(s, keep) == s
    decreases |s|
  {
    if s != [] {
      var last := |s| - 1;
      FilterKeepingAll(s[..last], keep);
      assert s[..last] + [s[last]] == s;
    }
  }

  /** Being a subsequence is transitive. */
  lemma {:induction false} SubsequenceTransitive<T>(a: seq<T>, b: seq<T>, c: seq<T>)
    requires IsSubsequence(a, b) && IsSubsequence(b, c)
    ensures IsSubsequence(a, c)
    decreases |c|
  {
    if a != [] {
      assert b != [] && c != [];
      var c' := c[..|c| - 1];
      if IsSubsequence(b, c') {
        SubsequenceTransitive(a, b, c');
      } else {
        var b' := b[..|b| - 1];
        assert b[|b| - 1] == c[|c| - 1] && IsSubsequence(b', c');
        if a[|a| - 1] == b[|b| - 1] && IsSubsequence(a[..|a| - 1], b') {
          SubsequenceTransitive(a[..|a| - 1], b', c');
        } else {
          SubsequenceTransitive(a, b', c');
        }
      }
    }
  }

  /** `s.map(f)`. */
  function Map<A, B>(f: A -> B, s: seq<A>): (r: seq<B>)
    ensures |r| == |s|
    ensures forall i :: 0 <= i < |s| ==> r[i] == f(s[i])
    decreases |s|
  {
    if s == [] then [] else [f(s[0])] + Map(f, s[1..])
  }

  lemma MapAppend<A, B>(f: A -> B, a: seq<A>, b: seq<A>)
    ensures Map(f, a + b) == Map(f, a) + Map(f, b)
  {
  }

  /** A sequence is what comes before position `k`, the element there, and what follows. */
  lemma SplitAt<T>(b: seq<T>, k: nat)
    requires k < |b|
    ensures b == b[..k] + ([b[k]] + b[k + 1..])
    ensures b == (b[..k] + [b[k]]) + b[k + 1..]
  {
  }

  /** Removing the element at `k` removes one occurrence of it from the multiset. */
  lemma RemoveAt<T>(b: seq<T>, k: nat)
    requires k < |b|
    ensures multiset(b[..k] + b[k + 1..]) == multiset(b) - multiset{b[k]}
  {
    SplitAt(b, k);
  }

  /** What is left of a sequence after its first element. */
  lemma DropFirst<T>(a: seq<T>) returns (t: seq<T>)
    requires a != []
    ensures t == a[1..] && multiset(t) == multiset(a) - multiset{a[0]} && a == [a[0]] + t
  {
    t := a[1..];
    assert a == [a[0]] + t;
  }

  /** Mapping a sequence with one element taken out loses only that element's image. */
  lemma MapRemoveAt<A, B>(f: A -> B, b: seq<A>, k: nat)
    requires k < |b|
    ensures multiset(Map(f, b)) == multiset(Map(f, b[..k] + b[k + 1..])) + multiset{f(b[k])}
  {
    var front, back := Map(f, b[..k]), Map(f, b[k + 1..]);
    SplitAt(b, k);
    MapAppend(f, b[..k], [b[k]] + b[k + 1..]);
    assert Map(f, [b[k]] + b[k + 1..]) == [f(b[k])] + back;
    MapAppend(f, b[..k], b[k + 1..]);
    assert multiset(Map(f, b)) == multiset(front) + multiset{f(b[k])} + multiset(back);
  }

  /** Pairs the element at `i` of `a` with an equal element of its permutation `b`;
      what is left of each is again a permutation of the other. */
  lemma MatchIn<T>(a: seq<T>, b: seq<T>, i: nat) returns (k: nat, a': seq<T>, b': seq<T>)
    requires multiset(a) == multiset(b) && i < |a|
    ensures k < |b| && b[k] == a[i]
    ensures a' == a[..i] + a[i + 1..] && b' == b[..k] + b[k + 1..]
    ensures |a'| < |a| && multiset(a') == multiset(b')
  {
    assert a[i] in multiset(b);
    k :| 0 <= k < |b| && b[k] == a[i];
    a', b' := a[..i] + a[i + 1..], b[..k] + b[k + 1..];
    RemoveAt(a, i);
    RemoveAt(b, k);
  }

  lemma MapRemoveBoth<A, B>(f: A -> B, a: seq<A>, i: nat, b: seq<A>, k: nat)
    requires i < |a| && k < |b| && a[i] == b[k]
    requires multiset(Map(f, a[..i] + a[i + 1..])) == multiset(Map(f, b[..k] + b[k + 1..]))
    ensures multiset(Map(f, a)) == multiset(Map(f, b))
  {
    MapRemoveAt(f, a, i);
    MapRemoveAt(f, b, k);
  }

  /** Mapping two permutations of one another gives two permutations of one another. */
  lemma {:induction false} MapPermutation<A, B>(f: A -> B, a: seq<A>, b: seq<A>)
    requires multiset(a) == multiset(b)
    ensures multiset(Map(f, a)) == multiset(Map(f, b))
    decreases |a|
  {
    if a == [] {
      assert b == [] by {
        assert |b| == |multiset(b)|;
      }
    } else {
      var k, a', b' := MatchIn(a, b, 0);
      MapPermutation(f, a', b');
      MapRemoveBoth(f, a, 0, b, k);
    }
  }

  /** The array that `for (p of parts) acc.push(...p)` builds from an empty `acc`. */
  function Concat<T>(parts: seq<seq<T>>): (r: seq<T>)
    decreases |parts|
  {
    if parts == [] then [] else Concat(parts[..|parts| - 1]) + parts[|parts| - 1]
  }

  lemma {:induction false} ConcatAppend<T>(a: seq<seq<T>>, b: seq<seq<T>>)
    ensures Concat(a + b) == Concat(a) + Concat(b)
    decreases |b|
  {
    if b != [] {
      var b' := b[..|b| - 1];
      assert (a + b)[..|a + b| - 1] == a + b';
      ConcatAppend(a, b');
    } else {
      assert a + b == a;
    }
  }

  /** Concatenating parts with one part taken out loses exactly that part's elements. */
  lemma ConcatRemoveAt<T>(b: seq<seq<T>>, k: nat)
    requires k < |b|
    ensures multiset(Concat(b)) == multiset(Concat(b[..k] + b[k + 1..])) + multiset(b[k])
  {
    var x := b[k];
    SplitAt(b, k);
    ConcatAppend(b[..k] + [x], b[k + 1..]);
    ConcatAppend(b[..k], [x]);
    ConcatAppend(b[..k], b[k + 1..]);
    assert Concat([x]) == x by {
      assert [x][..0] == [];
    }
  }

  lemma ConcatRemoveBoth<T>(a: seq<seq<T>>, i: nat, b: seq<seq<T>>, k: nat)
    requires i < |a| && k < |b| && a[i] == b[k]
    requires multiset(Concat(a[..i] + a[i + 1..])) == multiset(Concat(b[..k] + b[k + 1..]))
    ensures multiset(Concat(a)) == multiset(Concat(b))
  {
    ConcatRemoveAt(a, i);
    ConcatRemoveAt(b, k);
  }

  /** Concatenating the same parts in another order gives a permutation of the elements. */
  lemma {:induction false} ConcatPermutation<T>(a: seq<seq<T>>, b: seq<seq<T>>)
    requires multiset(a) == multiset(b)
    ensures multiset(Concat(a)) == multiset(Concat(b))
    decreases |a|
  {
    if a == [] {
      assert b == [] by {
        assert |b| == |multiset(b)|;
      }
    } else {
      var k, a', b' := MatchIn(a, b, 0);
      ConcatPermutation(a', b');
      ConcatRemoveBoth(a, 0, b, k);
    }
  }
}
