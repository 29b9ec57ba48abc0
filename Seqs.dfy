/** Sequence helpers shared by the model: first-appearance de-duplication
    (the iteration order of a JavaScript Set and of d3's rollups), distinctness
    and the element set of a sequence. */
module Seqs {

  predicate Distinct<T(==)>(s: seq<T>) {
    forall i, j :: 0 <= i < j < |s| ==> s[i] != s[j]
  }

  function Elems<T>(s: seq<T>): set<T> {
    set x | x in s
  }

  /** `Set.prototype.add` on an insertion-ordered set held as a sequence. */
  function Add<T(==)>(d: seq<T>, x: T): seq<T> {
    if x in d then d else d + [x]
  }

  /** The distinct elements of `s` in order of first appearance, as a
      JavaScript Set built from `s` iterates them: an element listed before
      another occurs in `s` before every occurrence of the other. */
  function Dedup<T(==)>(s: seq<T>): (d: seq<T>)
    ensures forall i :: 0 <= i < |d| ==> d[i] in s
    ensures forall i :: 0 <= i < |s| ==> s[i] in d
    ensures Distinct(d)
    ensures |d| <= |s|
    ensures forall i, j, q :: 0 <= i < j < |d| && 0 <= q < |s| && s[q] == d[j] ==> d[i] in s[..q]
  {
    if s == [] then []
    else
      var p := Dedup(s[..|s| - 1]);
      assert s == s[..|s| - 1] + [s[|s| - 1]];
      AddKeepsOrder(s[..|s| - 1], p, s[|s| - 1]);
      Add(p, s[|s| - 1])
  }

  /** Adding the next element of the input to its de-duplicated prefix keeps
      every listed element ahead of the later ones in the input. */
  lemma AddKeepsOrder<T>(t: seq<T>, p: seq<T>, x: T)
    requires forall i :: 0 <= i < |p| ==> p[i] in t
    requires forall i :: 0 <= i < |t| ==> t[i] in p
    requires forall i, j, q :: 0 <= i < j < |p| && 0 <= q < |t| && t[q] == p[j] ==> p[i] in t[..q]
    ensures var d := Add(p, x);
            var s := t + [x];
            forall i, j, q :: 0 <= i < j < |d| && 0 <= q < |s| && s[q] == d[j] ==> d[i] in s[..q]
  {
    var d := Add(p, x);
    var s := t + [x];
    forall i, j, q | 0 <= i < j < |d| && 0 <= q < |s| && s[q] == d[j]
      ensures d[i] in s[..q]
    {
      if q == |t| {
        assert s[..q] == t;
      } else {
        assert s[..q] == t[..q];
        assert t[q] in p;
      }
    }
  }

  lemma DedupSnoc<T>(s: seq<T>, x: T)
    ensures Dedup(s + [x]) == Add(Dedup(s), x)
  {
    assert (s + [x])[..|s + [x]| - 1] == s;
  }

  lemma DedupMembers<T>(s: seq<T>)
    ensures forall v :: v in Dedup(s) <==> v in s
  {
    var d := Dedup(s);
    forall v | v in d ensures v in s {
      var i :| 0 <= i < |d| && d[i] == v;
    }
    forall v | v in s ensures v in d {
      var i :| 0 <= i < |s| && s[i] == v;
    }
  }

  lemma ElemsPrefix<T>(s: seq<T>, i: nat)
    requires i < |s|
    ensures Elems(s[..i + 1]) == Elems(s[..i]) + {s[i]}
  {
    assert s[..i + 1] == s[..i] + [s[i]];
  }

  lemma SplitLast<T>(a: seq<T>, x: seq<T>)
    requires x != []
    ensures a + x == (a + x[..|x| - 1]) + [x[|x| - 1]]
  {
  }

  /** De-duplication is a left fold, so two inputs with the same distinct
      prefix stay equal under any common extension. */
  lemma {:induction false} DedupCongruence<T>(a: seq<T>, b: seq<T>, x: seq<T>)
    requires Dedup(a) == Dedup(b)
    ensures Dedup(a + x) == Dedup(b + x)
  {
    if x == [] {
      assert a + x == a && b + x == b;
    } else {
      var x' := x[..|x| - 1];
      var y := x[|x| - 1];
      DedupCongruence(a, b, x');
      SplitLast(a, x);
      SplitLast(b, x);
      calc {
        Dedup(a + x);
        Dedup((a + x') + [y]);
        { DedupSnoc(a + x', y); }
        Add(Dedup(a + x'), y);
        Add(Dedup(b + x'), y);
        { DedupSnoc(b + x', y); }
        Dedup((b + x') + [y]);
        Dedup(b + x);
      }
    }
  }

  /** A distinct sequence has as many elements as its element set. */
  lemma {:induction false} DistinctCard<T>(s: seq<T>)
    requires Distinct(s)
    ensures |Elems(s)| == |s|
  {
    if s != [] {
      var t := s[1..];
      DistinctCard(t);
      assert Elems(s) == Elems(t) + {s[0]};
      assert s[0] !in Elems(t);
    }
  }

  /** Any sequence has at most as many distinct elements as it has entries. */
  lemma {:induction false} ElemsCard<T>(s: seq<T>)
    ensures |Elems(s)| <= |s|
  {
    if s != [] {
      ElemsCard(s[1..]);
      assert Elems(s) == Elems(s[1..]) + {s[0]};
    }
  }

  /** `a` is `b` with some entries removed and the rest kept in order. */
  predicate IsSubsequence<T(==)>(a: seq<T>, b: seq<T>)
    decreases |b|
  {
    || a == []
    || (b != [] && ((a[0] == b[0] && IsSubsequence(a[1..], b[1..])) || IsSubsequence(a, b[1..])))
  }

  lemma {:induction false} DistinctCount<T>(s: seq<T>, x: T)
    requires Distinct(s)
    ensures multiset(s)[x] <= 1
  {
    if s != [] {
      assert Distinct(s[1..]);
      DistinctCount(s[1..], x);
      assert s == [s[0]] + s[1..];
      if s[0] == x {
        assert x !in s[1..];
      }
    }
  }

  /** An element of a prefix and an element of the sequence outside that
      prefix sit at positions in that order. */
  lemma PrefixPositions<T>(r: seq<T>, m: nat, y: T, x: T) returns (a: nat, b: nat)
    requires m <= |r| && y in r[..m] && x in r && x !in r[..m]
    ensures a < b < |r| && r[a] == y && r[b] == x
  {
    a :| 0 <= a < m && r[..m][a] == y;
    b :| 0 <= b < |r| && r[b] == x;
    assert m <= b by {
      assert forall k :: 0 <= k < m ==> r[..m][k] == r[k];
    }
  }

  /** Part of a distinct sequence, taken with multiplicities, is distinct. */
  lemma SubMultisetDistinct<T>(a: seq<T>, b: seq<T>)
    requires multiset(a) <= multiset(b)
    requires Distinct(b)
    ensures Distinct(a)
  {
    forall i, j | 0 <= i < j < |a| ensures a[i] != a[j] {
      if a[i] == a[j] {
        assert a == a[..j] + [a[j]] + a[j + 1..];
        assert a[i] in a[..j];
        assert multiset(a)[a[j]] >= 2;
        DistinctCount(b, a[j]);
      }
    }
  }

  /** A permutation of a distinct sequence is distinct. */
  lemma PermutationDistinct<T>(a: seq<T>, b: seq<T>)
    requires multiset(a) == multiset(b)
    requires Distinct(a)
    ensures Distinct(b)
  {
    forall i, j | 0 <= i < j < |b| ensures b[i] != b[j] {
      if b[i] == b[j] {
        assert b == b[..j] + [b[j]] + b[j + 1..];
        assert b[i] in b[..j];
        assert multiset(b)[b[j]] >= 2;
        DistinctCount(a, b[j]);
      }
    }
  }
}
