// Strict total orders, the sorted listing of a finite set, and the two orders the scripts
// sort by: code-point order of strings and the (entity_id, domain) key order.
module Ordering {

  ghost predicate StrictTotal<T(!new)>(less: (T, T) -> bool) {
    && (forall a :: !less(a, a))
    && (forall a, b, c :: less(a, b) && less(b, c) ==> less(a, c))
    && (forall a, b :: a == b || less(a, b) || less(b, a))
  }

  ghost predicate Ascending<T(!new)>(s: seq<T>, less: (T, T) -> bool) {
    forall i, j {:trigger less(s[i], s[j])} :: 0 <= i < j < |s| ==> less(s[i], s[j])
  }

  ghost predicate IsLeast<T(!new)>(m: T, s: set<T>, less: (T, T) -> bool) {
    m in s && forall x :: x in s ==> x == m || less(m, x)
  }

  lemma {:induction false} LeastExists<T(!new)>(s: set<T>, less: (T, T) -> bool) returns (m: T)
    requires s != {} && StrictTotal(less)
    ensures IsLeast(m, s, less)
    decreases s
  {
    var x :| x in s;
    if s == {x} {
      m := x;
    } else {
      var rest := s - {x};
      var n := LeastExists(rest, less);
      m := if less(x, n) then x else n;
      forall y | y in s ensures y == m || less(m, y) {
        assert y == x || y in rest;
        assert less(x, n) || less(n, x);
      }
    }
  }

  lemma SomeLeast<T(!new)>(s: set<T>, less: (T, T) -> bool)
    requires s != {} && StrictTotal(less)
    ensures exists m :: IsLeast(m, s, less)
  {
    var m := LeastExists(s, less);
  }

  lemma AscendingDistinct<T(!new)>(s: seq<T>, less: (T, T) -> bool)
    requires StrictTotal(less) && Ascending(s, less)
    ensures forall i, j :: 0 <= i < j < |s| ==> s[i] != s[j]
  {
    forall i, j | 0 <= i < j < |s| ensures s[i] != s[j] {
      assert less(s[i], s[j]);
    }
  }

  lemma HeadIsLeast<T(!new)>(s: seq<T>, less: (T, T) -> bool, x: T)
    requires Ascending(s, less) && x in s
    ensures x == s[0] || less(s[0], x)
  {
    var i :| 0 <= i < |s| && s[i] == x;
    if i > 0 { assert less(s[0], s[i]); }
  }

  // An ascending listing is determined by its elements.
  lemma {:induction false} AscendingUnique<T(!new)>(a: seq<T>, b: seq<T>, less: (T, T) -> bool)
    requires StrictTotal(less) && Ascending(a, less) && Ascending(b, less)
    requires forall x :: x in a <==> x in b
    ensures a == b
  {
    assert a != [] ==> a[0] in b;
    assert b != [] ==> b[0] in a;
    if a != [] {
      HeadIsLeast(a, less, b[0]);
      HeadIsLeast(b, less, a[0]);
      assert a[0] == b[0];
      AscendingDistinct(a, less);
      AscendingDistinct(b, less);
      forall x ensures x in a[1..] <==> x in b[1..] {
        assert x in a <==> x == a[0] || x in a[1..];
        assert x in b <==> x == b[0] || x in b[1..];
        assert a[0] !in a[1..] && b[0] !in b[1..];
      }
      AscendingUnique(a[1..], b[1..], less);
    }
  }

  ghost predicate Lists<T(!new)>(r: seq<T>, s: set<T>, less: (T, T) -> bool) {
    Ascending(r, less) && |r| == |s| && forall x :: x in r <==> x in s
  }

  lemma {:induction false} ListingExists<T(!new)>(s: set<T>, less: (T, T) -> bool) returns (r: seq<T>)
    requires StrictTotal(less)
    ensures Lists(r, s, less)
    decreases s
  {
    if s == {} {
      r := [];
    } else {
      var m := LeastExists(s, less);
      var rest := ListingExists(s - {m}, less);
      r := [m] + rest;
      forall i, j | 0 <= i < j < |r| ensures less(r[i], r[j]) {
        assert r[j] == rest[j - 1] && rest[j - 1] in rest;
        if i > 0 { assert less(rest[i - 1], rest[j - 1]); }
      }
    }
  }

  lemma SomeListing<T(!new)>(s: set<T>, less: (T, T) -> bool)
    requires StrictTotal(less)
    ensures exists r :: Lists(r, s, less)
  {
    var r := ListingExists(s, less);
  }

  // sorted(): the elements of a finite set in ascending order, here as the one listing that
  // is ascending...
  ghost function Sorted<T(!new)>(s: set<T>, less: (T, T) -> bool): (r: seq<T>)
    requires StrictTotal(less)
    ensures Lists(r, s, less)
  {
    SomeListing(s, less);
    var r :| Lists(r, s, less);
    r
  }

  // ...and here by selecting the least element again and again.
  function Sort<T(!new)>(s: set<T>, less: (T, T) -> bool): (r: seq<T>)
    requires StrictTotal(less)
    ensures r == Sorted(s, less)
    decreases s
  {
    if s == {} then
      assert Sorted(s, less) == [];
      []
    else
      SomeLeast(s, less);
      var m :| m in s && forall x :: x in s ==> x == m || less(m, x);
      SortedHead(s, less, m);
      [m] + Sort(s - {m}, less)
  }

  lemma SortedHead<T(!new)>(s: set<T>, less: (T, T) -> bool, m: T)
    requires StrictTotal(less) && IsLeast(m, s, less)
    ensures Sorted(s, less) == [m] + Sorted(s - {m}, less)
  {
    var rest := Sorted(s - {m}, less);
    var r := [m] + rest;
    forall i, j | 0 <= i < j < |r| ensures less(r[i], r[j]) {
      assert r[j] == rest[j - 1] && rest[j - 1] in rest;
      if i > 0 { assert less(rest[i - 1], rest[j - 1]); }
    }
    AscendingUnique(Sorted(s, less), r, less);
  }

  // In an ascending listing the elements behind position i are those above element i - 1.
  lemma AscendingSplit<T(!new)>(s: seq<T>, less: (T, T) -> bool, i: nat, k: T)
    requires StrictTotal(less) && Ascending(s, less) && 0 < i <= |s| && k in s
    ensures k in s[i..] <==> less(s[i - 1], k)
    ensures k in s[..i] <==> !less(s[i - 1], k)
  {
    var j :| 0 <= j < |s| && s[j] == k;
    AscendingDistinct(s, less);
    assert j < i - 1 ==> less(s[j], s[i - 1]);
    assert j > i - 1 ==> less(s[i - 1], s[j]);
    if j >= i {
      assert s[i..][j - i] == k;
    } else {
      assert s[..i][j] == k;
    }
  }

  // ----- code-point order of strings -----

  predicate StrLess(a: string, b: string) {
    b != "" && (a == "" || a[0] < b[0] || (a[0] == b[0] && StrLess(a[1..], b[1..])))
  }

  lemma {:induction false} StrLessIrreflexive(a: string)
    ensures !StrLess(a, a)
  {
    if a != "" { StrLessIrreflexive(a[1..]); }
  }

  lemma {:induction false} StrLessTransitive(a: string, b: string, c: string)
    requires StrLess(a, b) && StrLess(b, c)
    ensures StrLess(a, c)
  {
    if a != "" && a[0] == b[0] == c[0] { StrLessTransitive(a[1..], b[1..], c[1..]); }
  }

  lemma {:induction false} StrLessTrichotomy(a: string, b: string)
    ensures a == b || StrLess(a, b) || StrLess(b, a)
  {
    if a != "" && b != "" && a[0] == b[0] {
      StrLessTrichotomy(a[1..], b[1..]);
      assert a == [a[0]] + a[1..] && b == [b[0]] + b[1..];
    }
  }

  lemma StrLessTotal()
    ensures StrictTotal(StrLess)
  {
    forall a ensures !StrLess(a, a) { StrLessIrreflexive(a); }
    forall a, b, c | StrLess(a, b) && StrLess(b, c) ensures StrLess(a, c) { StrLessTransitive(a, b, c); }
    forall a, b ensures a == b || StrLess(a, b) || StrLess(b, a) { StrLessTrichotomy(a, b); }
  }

  // Behind a common front, one text ends or has the smaller character.
  ghost predicate PartAt(a: string, b: string, i: nat) {
    i <= |a| && i < |b| && a[..i] == b[..i] && (i == |a| || a[i] < b[i])
  }

  // Strings compare by their first difference, a proper prefix being less.
  lemma {:induction false} StrLessIff(a: string, b: string)
    ensures StrLess(a, b) <==> exists i: nat :: PartAt(a, b, i)
  {
    if b == "" {
    } else if a == "" || a[0] != b[0] {
      if StrLess(a, b) {
        assert PartAt(a, b, 0);
      }
      assert forall i: nat :: PartAt(a, b, i) && i > 0 ==> a[..i][0] == b[..i][0];
    } else {
      StrLessIff(a[1..], b[1..]);
      if i: nat :| PartAt(a[1..], b[1..], i) {
        FrontsGrow(a, b, i);
        assert PartAt(a, b, i + 1);
      }
      if i: nat :| PartAt(a, b, i) {
        FrontsShrink(a, b, i);
        assert PartAt(a[1..], b[1..], i - 1);
      }
    }
  }

  lemma FrontsGrow<T>(a: seq<T>, b: seq<T>, i: nat)
    requires i < |a| && i < |b| && a[0] == b[0] && a[1..][..i] == b[1..][..i]
    ensures a[..i + 1] == b[..i + 1]
  {
    forall k | 0 <= k <= i ensures a[k] == b[k] {
      assert k > 0 ==> a[k] == a[1..][..i][k - 1] && b[k] == b[1..][..i][k - 1];
    }
  }

  lemma FrontsShrink<T>(a: seq<T>, b: seq<T>, i: nat)
    requires 0 < i <= |a| && i <= |b| && a[..i] == b[..i]
    ensures a[1..][..i - 1] == b[1..][..i - 1]
  {
    assert a[1..][..i - 1] == a[..i][1..] && b[1..][..i - 1] == b[..i][1..];
  }

  // ----- the primary key of registration_projections -----

  // entity_id as the number a UUID compares by, and the domain.
  datatype Key = Key(entity: nat, domain: string)

  // The row comparison (entity_id, domain) > ($2, $3), which ORDER BY shares.
  predicate KeyLess(a: Key, b: Key) {
    a.entity < b.entity || (a.entity == b.entity && StrLess(a.domain, b.domain))
  }

  // Rows compare by entity first.
  lemma EntityFirst(a: Key, b: Key)
    ensures a.entity < b.entity ==> KeyLess(a, b) && !KeyLess(b, a)
    ensures a.entity == b.entity ==> (KeyLess(a, b) <==> StrLess(a.domain, b.domain))
  {
  }

  lemma KeyLessTotal()
    ensures StrictTotal(KeyLess)
  {
    StrLessTotal();
    forall a, b, c | KeyLess(a, b) && KeyLess(b, c) ensures KeyLess(a, c) {
      if a.entity == b.entity == c.entity { StrLessTransitive(a.domain, b.domain, c.domain); }
    }
  }
}
