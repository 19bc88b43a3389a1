/** `sort { |a, b| a.name <=> b.name }` on content types. Ruby's sort is not
    stable, but once names are unique the order it produces is the only
    strictly ascending one (SortedIsUnique), so an insertion sort stands for
    it. */
module Sorting {
  import opened Strings
  import opened Model

  predicate SortedByName(s: seq<ContentType>)
  {
    forall i, j :: 0 <= i < j < |s| ==> NoLater(s[i].name, s[j].name)
  }

  predicate StrictlySortedByName(s: seq<ContentType>)
  {
    forall i, j :: 0 <= i < j < |s| ==> Precedes(s[i].name, s[j].name)
  }

  /** Places `x` before the first entry it does not follow. */
  function Insert(x: ContentType, s: seq<ContentType>): (r: seq<ContentType>)
    ensures multiset(r) == multiset(s) + multiset{x}
  {
    if s == [] then [x]
    else if NoLater(x.name, s[0].name) then [x] + s
    else
      assert s == [s[0]] + s[1..];
      [s[0]] + Insert(x, s[1..])
  }

  /** Insertion sort by name. */
  function SortByName(s: seq<ContentType>): (r: seq<ContentType>)
    ensures multiset(r) == multiset(s)
  {
    if s == [] then []
    else
      assert s == [s[0]] + s[1..];
      Insert(s[0], SortByName(s[1..]))
  }

  /** Equal multisets have the same members. */
  lemma SameMembers(r: seq<ContentType>, s: seq<ContentType>, y: ContentType)
    requires multiset(r) == multiset(s)
    ensures y in r <==> y in s
  {
    assert y in r <==> y in multiset(r);
    assert y in s <==> y in multiset(s);
  }

  lemma {:induction false} InsertSorted(x: ContentType, s: seq<ContentType>)
    requires SortedByName(s)
    ensures SortedByName(Insert(x, s))
  {
    if s == [] {
    } else if NoLater(x.name, s[0].name) {
      forall j | 0 <= j < |s|
        ensures NoLater(x.name, s[j].name)
      {
        if j > 0 {
          NoLaterTransitive(x.name, s[0].name, s[j].name);
        }
      }
    } else {
      var t := Insert(x, s[1..]);
      InsertSorted(x, s[1..]);
      NoLaterTotal(x.name, s[0].name);
      forall j | 0 <= j < |t|
        ensures NoLater(s[0].name, t[j].name)
      {
        assert t[j] in multiset(t);
        if t[j] != x {
          assert t[j] in multiset(s[1..]);
          var k :| 0 <= k < |s[1..]| && s[1..][k] == t[j];
          assert s[k + 1] == t[j];
        }
      }
    }
  }

  lemma {:induction false} InsertUnique(x: ContentType, s: seq<ContentType>)
    requires UniqueTypeNames(s) && x.name !in TypeNames(s)
    ensures UniqueTypeNames(Insert(x, s))
  {
    forall j | 0 <= j < |s|
      ensures x.name != s[j].name
    {
      assert TypeNames(s)[j] == s[j].name;
    }
    if s != [] && !NoLater(x.name, s[0].name) {
      var t := Insert(x, s[1..]);
      assert x.name !in TypeNames(s[1..]) by {
        forall k | 0 <= k < |s[1..]|
          ensures TypeNames(s[1..])[k] != x.name
        {
          assert s[1..][k] == s[k + 1];
        }
      }
      InsertUnique(x, s[1..]);
      forall j | 0 <= j < |t|
        ensures s[0].name != t[j].name
      {
        assert t[j] in multiset(t);
        if t[j] != x {
          assert t[j] in multiset(s[1..]);
          var k :| 0 <= k < |s[1..]| && s[1..][k] == t[j];
          assert s[k + 1] == t[j];
        }
      }
    }
  }

  /** The sort puts names in ascending order and, given unique names,
      keeps them unique. */
  lemma {:induction false} SortByNameSorted(s: seq<ContentType>)
    ensures SortedByName(SortByName(s))
    ensures UniqueTypeNames(s) ==> UniqueTypeNames(SortByName(s))
  {
    if s != [] {
      var t := SortByName(s[1..]);
      SortByNameSorted(s[1..]);
      InsertSorted(s[0], t);
      if UniqueTypeNames(s) {
        forall j | 0 <= j < |t|
          ensures TypeNames(t)[j] != s[0].name
        {
          assert t[j] in multiset(t);
          assert t[j] in multiset(s[1..]);
          var k :| 0 <= k < |s[1..]| && s[1..][k] == t[j];
          assert s[k + 1] == t[j];
        }
        InsertUnique(s[0], t);
      }
    }
  }

  /** Ascending with no repeated name is strictly ascending. */
  lemma SortedUniqueIsStrict(s: seq<ContentType>)
    requires SortedByName(s) && UniqueTypeNames(s)
    ensures StrictlySortedByName(s)
  {
  }

  /** Two strictly ascending lists with the same entries are the same list:
      the result of sorting unique names does not depend on the order the
      entries were found in, nor on the stability of the sort. */
  lemma {:induction false} SortedIsUnique(a: seq<ContentType>, b: seq<ContentType>)
    requires StrictlySortedByName(a) && StrictlySortedByName(b)
    requires forall x :: x in a <==> x in b
    ensures a == b
  {
    assert b == [] || b[0] in b;
    assert a == [] || a[0] in a;
    if a != [] && b != [] {
      var i :| 0 <= i < |a| && a[i] == b[0];
      var j :| 0 <= j < |b| && b[j] == a[0];
      if i != 0 {
        assert j != 0;
        PrecedesTrichotomy(a[0].name, a[i].name);
        assert false;
      }
      assert a[0] == b[0];
      forall x
        ensures x in a[1..] <==> x in b[1..]
      {
        if x in a[1..] {
          var k :| 0 <= k < |a[1..]| && a[1..][k] == x;
          assert x in b;
          assert x != b[0] by { assert Precedes(a[0].name, a[k + 1].name); }
        }
        if x in b[1..] {
          var k :| 0 <= k < |b[1..]| && b[1..][k] == x;
          assert x in a;
          assert x != a[0] by { assert Precedes(b[0].name, b[k + 1].name); }
        }
      }
      SortedIsUnique(a[1..], b[1..]);
      assert a == [a[0]] + a[1..];
      assert b == [b[0]] + b[1..];
    }
  }
}
