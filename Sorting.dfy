/** A stable sort over a total preorder, the behaviour `Array.prototype.sort`
    guarantees since ES2019, and a lexicographic string order standing in
    for the one a `sort()` with no comparator uses (compared here by code
    point rather than by UTF-16 code unit). */
module Sorting {

  ghost predicate TotalPreorder<T(!new)>(le: (T, T) -> bool) {
    && (forall a, b :: le(a, b) || le(b, a))
    && (forall a, b, c :: le(a, b) && le(b, c) ==> le(a, c))
  }

  predicate SortedBy<T>(s: seq<T>, le: (T, T) -> bool) {
    forall i, j :: 0 <= i < j < |s| ==> le(s[i], s[j])
  }

  /** Places `x` before the first element it is not greater than, so `x`
      lands ahead of the elements it ties with. */
  function Insert<T>(x: T, s: seq<T>, le: (T, T) -> bool): (r: seq<T>)
    ensures multiset(r) == multiset(s) + multiset{x}
  {
    if s == [] || le(x, s[0]) then [x] + s
    else
      assert s == [s[0]] + s[1..];
      [s[0]] + Insert(x, s[1..], le)
  }

  /** Insertion sort that inserts the head into the sorted tail: an element
      ends up in front of every later element it ties with (stability). */
  function SortBy<T>(s: seq<T>, le: (T, T) -> bool): (r: seq<T>)
    ensures multiset(r) == multiset(s)
    ensures |r| == |s|
  {
    if s == [] then []
    else
      assert s == [s[0]] + s[1..];
      Insert(s[0], SortBy(s[1..], le), le)
  }

  lemma {:induction false} InsertSorted<T(!new)>(x: T, s: seq<T>, le: (T, T) -> bool)
    requires TotalPreorder(le)
    requires SortedBy(s, le)
    ensures SortedBy(Insert(x, s, le), le)
  {
    if s == [] || le(x, s[0]) {
    } else {
      var t := s[1..];
      InsertSorted(x, t, le);
      var r := Insert(x, t, le);
      assert le(s[0], x);
      forall j | 0 <= j < |r| ensures le(s[0], r[j]) {
        assert r[j] in multiset(r);
        assert r[j] == x || r[j] in multiset(t);
        if r[j] != x {
          var k :| 0 <= k < |t| && t[k] == r[j];
          assert s[k + 1] == r[j];
        }
      }
      assert Insert(x, s, le) == [s[0]] + r;
    }
  }

  lemma {:induction false} SortBySorted<T(!new)>(s: seq<T>, le: (T, T) -> bool)
    requires TotalPreorder(le)
    ensures SortedBy(SortBy(s, le), le)
  {
    if s != [] {
      SortBySorted(s[1..], le);
      InsertSorted(s[0], SortBy(s[1..], le), le);
    }
  }

  /** The elements of `s` that tie with `e`, in their order in `s`. */
  function Ties<T>(s: seq<T>, e: T, le: (T, T) -> bool): seq<T> {
    if s == [] then []
    else (if le(s[0], e) && le(e, s[0]) then [s[0]] else []) + Ties(s[1..], e, le)
  }

  lemma {:induction false} InsertTies<T(!new)>(x: T, s: seq<T>, e: T, le: (T, T) -> bool)
    requires TotalPreorder(le)
    requires SortedBy(s, le)
    ensures Ties(Insert(x, s, le), e, le)
         == (if le(x, e) && le(e, x) then [x] else []) + Ties(s, e, le)
  {
    var tx := if le(x, e) && le(e, x) then [x] else [];
    if s == [] || le(x, s[0]) {
      assert Insert(x, s, le) == [x] + s;
      assert ([x] + s)[1..] == s;
    } else {
      var t := s[1..];
      var t0 := if le(s[0], e) && le(e, s[0]) then [s[0]] else [];
      assert SortedBy(t, le);
      InsertTies(x, t, e, le);
      var r := Insert(x, t, le);
      assert Insert(x, s, le) == [s[0]] + r;
      assert ([s[0]] + r)[1..] == r;
      assert Ties(s, e, le) == t0 + Ties(t, e, le);
      assert Ties(Insert(x, s, le), e, le) == t0 + (tx + Ties(t, e, le));
      // s[0] is strictly below x, so x and s[0] cannot both tie with e
      var s0 := s[0];
      assert le(x, e) && le(e, s0) ==> le(x, s0);
      if tx == [] {
        assert tx + Ties(s, e, le) == Ties(s, e, le);
        assert tx + Ties(t, e, le) == Ties(t, e, le);
      } else {
        assert t0 == [];
        assert Ties(s, e, le) == Ties(t, e, le);
      }
    }
  }

  /** Stability: sorting keeps each class of tied elements in input order. */
  lemma {:induction false} SortByStable<T(!new)>(s: seq<T>, e: T, le: (T, T) -> bool)
    requires TotalPreorder(le)
    ensures Ties(SortBy(s, le), e, le) == Ties(s, e, le)
  {
    if s != [] {
      SortByStable(s[1..], e, le);
      SortBySorted(s[1..], le);
      InsertTies(s[0], SortBy(s[1..], le), e, le);
    }
  }

  /** `u` occurs in `s` at some position ahead of an occurrence of `v`. */
  predicate Before<T(==)>(s: seq<T>, u: T, v: T) {
    exists a, b :: 0 <= a < b < |s| && s[a] == u && s[b] == v
  }

  lemma {:induction false} TiesMember<T>(s: seq<T>, e: T, le: (T, T) -> bool, b: nat)
    requires b < |s| && le(s[b], e) && le(e, s[b])
    ensures s[b] in Ties(s, e, le)
  {
    if b > 0 {
      TiesMember(s[1..], e, le, b - 1);
    }
  }

  lemma {:induction false} TiesSubset<T>(s: seq<T>, e: T, le: (T, T) -> bool, x: T)
    requires x in Ties(s, e, le)
    ensures x in s
  {
    if s != [] && x != s[0] {
      TiesSubset(s[1..], e, le, x);
    }
  }

  /** Two tied elements keep their relative order in the list of ties. */
  lemma {:induction false} TiesKeepBefore<T>(s: seq<T>, e: T, le: (T, T) -> bool, a: nat, b: nat)
    requires a < b < |s|
    requires le(s[a], e) && le(e, s[a]) && le(s[b], e) && le(e, s[b])
    ensures Before(Ties(s, e, le), s[a], s[b])
  {
    var rest := Ties(s[1..], e, le);
    var h := if le(s[0], e) && le(e, s[0]) then [s[0]] else [];
    assert Ties(s, e, le) == h + rest;
    if a == 0 {
      TiesMember(s[1..], e, le, b - 1);
      var k :| 0 <= k < |rest| && rest[k] == s[b];
      assert (h + rest)[0] == s[0] && (h + rest)[1 + k] == s[b];
    } else {
      TiesKeepBefore(s[1..], e, le, a - 1, b - 1);
      var a', b' :| 0 <= a' < b' < |rest| && rest[a'] == s[a] && rest[b'] == s[b];
      assert (h + rest)[|h| + a'] == s[a] && (h + rest)[|h| + b'] == s[b];
    }
  }

  /** An order between two ties is an order in the whole sequence. */
  lemma {:induction false} TiesBeforeIn<T>(s: seq<T>, e: T, le: (T, T) -> bool, u: T, v: T)
    requires Before(Ties(s, e, le), u, v)
    ensures Before(s, u, v)
  {
    var rest := Ties(s[1..], e, le);
    var h := if le(s[0], e) && le(e, s[0]) then [s[0]] else [];
    assert Ties(s, e, le) == h + rest;
    var a, b :| 0 <= a < b < |h + rest| && (h + rest)[a] == u && (h + rest)[b] == v;
    if h != [] && a == 0 {
      assert rest[b - 1] == v;
      TiesSubset(s[1..], e, le, v);
      var k :| 0 <= k < |s[1..]| && s[1..][k] == v;
      assert s[0] == u && s[1 + k] == v;
    } else {
      assert rest[a - |h|] == u && rest[b - |h|] == v;
      TiesBeforeIn(s[1..], e, le, u, v);
      var a', b' :| 0 <= a' < b' < |s[1..]| && s[1..][a'] == u && s[1..][b'] == v;
      assert s[1 + a'] == u && s[1 + b'] == v;
    }
  }
  /** Two tied elements that the sorted sequence lists in one order
      occur in that order in the input. */
  lemma SortedTiesBefore<T(!new)>(s: seq<T>, le: (T, T) -> bool, a: nat, b: nat)
    requires TotalPreorder(le)
    requires a < b < |SortBy(s, le)|
    requires le(SortBy(s, le)[a], SortBy(s, le)[b]) && le(SortBy(s, le)[b], SortBy(s, le)[a])
    ensures Before(s, SortBy(s, le)[a], SortBy(s, le)[b])
  {
    var r := SortBy(s, le);
    var e := r[b];
    SortByStable(s, e, le);
    TiesKeepBefore(r, e, le, a, b);
    TiesBeforeIn(s, e, le, r[a], e);
  }


  /** Lexicographic order on strings, comparing characters by code. */
  predicate StrLe(a: string, b: string) {
    a == [] || (b != [] && (a[0] < b[0] || (a[0] == b[0] && StrLe(a[1..], b[1..]))))
  }

  lemma {:induction false} StrLeTotal(a: string, b: string)
    ensures StrLe(a, b) || StrLe(b, a)
  {
    if a != [] && b != [] && a[0] == b[0] {
      StrLeTotal(a[1..], b[1..]);
    }
  }

  lemma {:induction false} StrLeTransitive(a: string, b: string, c: string)
    requires StrLe(a, b) && StrLe(b, c)
    ensures StrLe(a, c)
  {
    if a != [] && b != [] && c != [] && a[0] == b[0] && b[0] == c[0] {
      StrLeTransitive(a[1..], b[1..], c[1..]);
    }
  }

  lemma {:induction false} StrLeAntisymmetric(a: string, b: string)
    requires StrLe(a, b) && StrLe(b, a)
    ensures a == b
  {
    if a != [] && b != [] {
      StrLeAntisymmetric(a[1..], b[1..]);
      assert a == [a[0]] + a[1..] && b == [b[0]] + b[1..];
    }
  }

  lemma StrLeTotalPreorder()
    ensures TotalPreorder(StrLe)
  {
    forall a, b ensures StrLe(a, b) || StrLe(b, a) {
      StrLeTotal(a, b);
    }
    forall a, b, c | StrLe(a, b) && StrLe(b, c) ensures StrLe(a, c) {
      StrLeTransitive(a, b, c);
    }
  }
}
