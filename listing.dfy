/** The class-level listings of `Cms::ContentType`: `available` and the
    lists built on it (`connectable`, `other_connectables`, `default`). */
module Listing {
  import opened Strings
  import opened Model
  import opened Sorting

  /** The loaded classes that include `HasContentType::InstanceMethods`,
      in discovery order. */
  function Discover(classes: seq<ClassDesc>): (r: seq<ClassDesc>)
    ensures forall k :: k in r <==> k in classes && k.hasContentType
    ensures Subsequence(r, classes)
  {
    Filter(classes, (k: ClassDesc) => k.hasContentType)
  }

  /** The class object `Cms::Portlet`. */
  function PortletClass(classes: seq<ClassDesc>): (k: ClassDesc)
    requires WellFormed(classes)
    ensures k in classes && k.name == PortletName && !k.portletSubclass
  {
    Constantize(classes, PortletName).value
  }

  /** `uniq! { |k| k.name }`: walks the list once and keeps a class only
      when no earlier class had its name. */
  function UniqByName(s: seq<ClassDesc>): (r: seq<ClassDesc>)
    ensures |r| <= |s|
    ensures forall k :: k in r ==> k in s
  {
    if s == [] then []
    else
      var t := UniqByName(s[..|s| - 1]);
      if s[|s| - 1].name in ClassNames(t) then t else t + [s[|s| - 1]]
  }

  /** The names of a list extended at the end. */
  lemma ClassNamesAppend(s: seq<ClassDesc>, k: ClassDesc)
    ensures ClassNames(s + [k]) == ClassNames(s) + [k.name]
  {
  }

  /** `uniq!` on a list extended at the end: the class at the end is kept
      exactly when its name is new. */
  lemma UniqByNameSnoc(init: seq<ClassDesc>, last: ClassDesc)
    ensures UniqByName(init + [last]) ==
            if last.name in ClassNames(UniqByName(init)) then UniqByName(init)
            else UniqByName(init) + [last]
  {
    assert (init + [last])[..|init|] == init;
  }

  /** `uniq!` leaves one class per name. */
  lemma {:induction false} UniqByNameUnique(s: seq<ClassDesc>)
    ensures UniqueClassNames(UniqByName(s))
  {
    if s != [] {
      var init, last := s[..|s| - 1], s[|s| - 1];
      assert s == init + [last];
      UniqByNameUnique(init);
      UniqByNameSnoc(init, last);
      var t := UniqByName(init);
      if last.name !in ClassNames(t) {
        forall i | 0 <= i < |t|
          ensures t[i].name != last.name
        {
          assert ClassNames(t)[i] == t[i].name;
        }
      }
    }
  }

  /** `uniq!` loses no name. */
  lemma {:induction false} UniqByNameNames(s: seq<ClassDesc>, n: string)
    ensures n in ClassNames(UniqByName(s)) <==> n in ClassNames(s)
  {
    if s != [] {
      var init, last := s[..|s| - 1], s[|s| - 1];
      assert s == init + [last];
      UniqByNameNames(init, n);
      UniqByNameSnoc(init, last);
      ClassNamesAppend(init, last);
      ClassNamesAppend(UniqByName(init), last);
    }
  }

  /** The class `uniq!` keeps for a name is the first one, the one
      `constantize` finds. */
  lemma {:induction false} UniqByNameFirst(s: seq<ClassDesc>)
    ensures forall k :: k in UniqByName(s) ==> Constantize(s, k.name) == Some(k)
  {
    if s != [] {
      var init, last := s[..|s| - 1], s[|s| - 1];
      assert s == init + [last];
      UniqByNameFirst(init);
      UniqByNameSnoc(init, last);
      var t := UniqByName(init);
      forall k | k in UniqByName(s)
        ensures Constantize(s, k.name) == Some(k)
      {
        ConstantizeAppend(init, [last], k.name);
        if k in t {
          assert k.name in ClassNames(init) by {
            assert Constantize(init, k.name).Some?;
          }
        } else {
          assert k == last;
          UniqByNameNames(init, last.name);
          assert ClassNames([last])[0] == last.name;
        }
      }
    }
  }

  /** `uniq!` leaves one class per name, loses no name, and the class it
      keeps for a name is the first one (the one `constantize` finds). */
  lemma UniqByNameFacts(s: seq<ClassDesc>)
    ensures UniqueClassNames(UniqByName(s))
    ensures forall n :: n in ClassNames(UniqByName(s)) <==> n in ClassNames(s)
    ensures forall k :: k in UniqByName(s) ==> Constantize(s, k.name) == Some(k)
  {
    UniqByNameUnique(s);
    UniqByNameFirst(s);
    forall n
      ensures n in ClassNames(UniqByName(s)) <==> n in ClassNames(s)
    {
      UniqByNameNames(s, n);
    }
  }

  /** The classes `available` turns into content types, before sorting:
      the discovered classes plus `Cms::Portlet`, first of each name, strict
      subclasses of `Cms::Portlet` dropped. */
  function Survivors(classes: seq<ClassDesc>): (r: seq<ClassDesc>)
    requires WellFormed(classes)
    ensures forall k :: k in r ==> k in classes && !k.portletSubclass
  {
    Filter(UniqByName(Discover(classes) + [PortletClass(classes)]), (k: ClassDesc) => !k.portletSubclass)
  }

  /** `map { |klass| Cms::ContentType.new(name: klass.name) }`. */
  function Instantiate(s: seq<ClassDesc>): (r: seq<ContentType>)
    ensures |r| == |s| && forall i :: 0 <= i < |s| ==> r[i] == Fresh(s[i].name)
  {
    if s == [] then [] else [Fresh(s[0].name)] + Instantiate(s[1..])
  }

  /** `ContentType.available`. */
  function Available(classes: seq<ClassDesc>): (r: seq<ContentType>)
    requires WellFormed(classes)
    ensures |r| == |Survivors(classes)|
  {
    var inst := Instantiate(Survivors(classes));
    var r := SortByName(inst);
    assert |r| == |multiset(r)| == |multiset(inst)| == |inst|;
    r
  }

  lemma SurvivorsUnique(classes: seq<ClassDesc>)
    requires WellFormed(classes)
    ensures UniqueClassNames(Survivors(classes))
  {
    var u := UniqByName(Discover(classes) + [PortletClass(classes)]);
    UniqByNameFacts(Discover(classes) + [PortletClass(classes)]);
    SubsequenceUniqueClassNames(Survivors(classes), u);
  }

  /** `available` is an alphabetical list with one entry per name, made of
      new, unsaved, ungrouped content types. */
  lemma AvailableSorted(classes: seq<ClassDesc>)
    requires WellFormed(classes)
    ensures StrictlySortedByName(Available(classes))
    ensures forall ct :: ct in Available(classes) ==> ct == Fresh(ct.name)
  {
    var inst := Instantiate(Survivors(classes));
    var r := Available(classes);
    SurvivorsUnique(classes);
    assert UniqueTypeNames(inst);
    SortByNameSorted(inst);
    SortedUniqueIsStrict(r);
    forall ct | ct in r
      ensures ct == Fresh(ct.name)
    {
      SameMembers(r, inst, ct);
    }
  }

  /** Sorting keeps the set of names. */
  lemma SortKeepsNames(s: seq<ContentType>, n: string)
    ensures n in TypeNames(SortByName(s)) <==> n in TypeNames(s)
  {
    var a := SortByName(s);
    if n in TypeNames(a) {
      var i :| 0 <= i < |a| && a[i].name == n;
      SameMembers(a, s, a[i]);
      var j :| 0 <= j < |s| && s[j] == a[i];
      assert TypeNames(s)[j] == n;
    }
    if n in TypeNames(s) {
      var j :| 0 <= j < |s| && s[j].name == n;
      SameMembers(a, s, s[j]);
      var i :| 0 <= i < |a| && a[i] == s[j];
      assert TypeNames(a)[i] == n;
    }
  }

  /** A name that survives is the name of a first class of its name that
      is not a strict subclass of `Cms::Portlet`. */
  lemma SurvivorNamesSound(x: seq<ClassDesc>, n: string)
    requires n in ClassNames(Filter(UniqByName(x), (k: ClassDesc) => !k.portletSubclass))
    ensures n in ClassNames(x) && !Constantize(x, n).value.portletSubclass
  {
    var u := UniqByName(x);
    var f := Filter(u, (k: ClassDesc) => !k.portletSubclass);
    var i :| 0 <= i < |f| && f[i].name == n;
    assert f[i] in u;
    UniqByNameFirst(x);
    assert Constantize(x, n) == Some(f[i]);
  }

  /** Such a name survives. */
  lemma SurvivorNamesComplete(x: seq<ClassDesc>, n: string)
    requires n in ClassNames(x) && !Constantize(x, n).value.portletSubclass
    ensures n in ClassNames(Filter(UniqByName(x), (k: ClassDesc) => !k.portletSubclass))
  {
    var u := UniqByName(x);
    var f := Filter(u, (k: ClassDesc) => !k.portletSubclass);
    UniqByNameNames(x, n);
    var j :| 0 <= j < |u| && ClassNames(u)[j] == n;
    assert u[j] in u;
    UniqByNameFirst(x);
    assert u[j] in f;
    var i :| 0 <= i < |f| && f[i] == u[j];
    assert ClassNames(f)[i] == n;
  }

  /** After `uniq!`, dropping strict subclasses of `Cms::Portlet` keeps a
      name exactly when the first class of that name is not one. */
  lemma SurvivorNames(x: seq<ClassDesc>, n: string)
    ensures var f := Filter(UniqByName(x), (k: ClassDesc) => !k.portletSubclass);
            n in ClassNames(f) <==> n in ClassNames(x) && !Constantize(x, n).value.portletSubclass
  {
    if n in ClassNames(Filter(UniqByName(x), (k: ClassDesc) => !k.portletSubclass)) {
      SurvivorNamesSound(x, n);
    }
    if n in ClassNames(x) && !Constantize(x, n).value.portletSubclass {
      SurvivorNamesComplete(x, n);
    }
  }

  /** A name is listed exactly when it is `Cms::Portlet` or the first
      discovered class of that name is not a strict subclass of
      `Cms::Portlet`. */
  lemma AvailableMembers(classes: seq<ClassDesc>, n: string)
    requires WellFormed(classes)
    ensures n in TypeNames(Available(classes)) <==>
            n == PortletName ||
            (n in ClassNames(Discover(classes)) && !Constantize(Discover(classes), n).value.portletSubclass)
  {
    var d := Discover(classes);
    var p := PortletClass(classes);
    var f := Survivors(classes);
    SortKeepsNames(Instantiate(f), n);
    assert TypeNames(Instantiate(f)) == ClassNames(f);
    SurvivorNames(d + [p], n);
    ConstantizeAppend(d, [p], n);
    ClassNamesAppend(d, p);
    if n in ClassNames(d) {
      assert Constantize(d, n).value in classes;
    } else if n == PortletName {
      assert ClassNames([p])[0] == n;
    }
  }

  /** Every listed type resolves to a loaded class; apart from
      `Cms::Portlet`, that class includes `HasContentType` and is not a
      strict subclass of `Cms::Portlet`. */
  lemma AvailableEntries(classes: seq<ClassDesc>, ct: ContentType)
    requires WellFormed(classes) && ct in Available(classes)
    ensures Constantize(classes, ct.name).Some?
    ensures ct.name != PortletName ==>
              exists k :: k in classes && k.name == ct.name && k.hasContentType && !k.portletSubclass
  {
    var a := Available(classes);
    var i :| 0 <= i < |a| && a[i] == ct;
    assert TypeNames(a)[i] == ct.name;
    AvailableMembers(classes, ct.name);
    if ct.name != PortletName {
      var k := Constantize(Discover(classes), ct.name).value;
      assert k in classes && k.hasContentType;
    }
  }

  /** `Cms::Portlet` is always listed, and only once. */
  lemma AvailableHasPortlet(classes: seq<ClassDesc>)
    requires WellFormed(classes)
    ensures Fresh(PortletName) in Available(classes)
    ensures forall i, j :: 0 <= i < j < |Available(classes)| ==>
              Available(classes)[i].name != Available(classes)[j].name
  {
    var a := Available(classes);
    AvailableSorted(classes);
    AvailableMembers(classes, PortletName);
    var i :| 0 <= i < |a| && a[i].name == PortletName;
  }

  /** A new content type is in a list of new content types exactly when
      its name is. */
  lemma FreshMember(a: seq<ContentType>, ct: ContentType)
    requires forall x :: x in a ==> x == Fresh(x.name)
    ensures ct in a <==> ct == Fresh(ct.name) && ct.name in TypeNames(a)
  {
    if ct in a {
      var i :| 0 <= i < |a| && a[i] == ct;
      assert TypeNames(a)[i] == ct.name;
    }
    if ct == Fresh(ct.name) && ct.name in TypeNames(a) {
      var i :| 0 <= i < |a| && TypeNames(a)[i] == ct.name;
      assert a[i] in a;
    }
  }

  /** Two strictly ascending lists of new content types with the same names
      are the same list. */
  lemma FreshListsEqual(a1: seq<ContentType>, a2: seq<ContentType>)
    requires StrictlySortedByName(a1) && StrictlySortedByName(a2)
    requires forall ct :: ct in a1 ==> ct == Fresh(ct.name)
    requires forall ct :: ct in a2 ==> ct == Fresh(ct.name)
    requires forall n :: n in TypeNames(a1) <==> n in TypeNames(a2)
    ensures a1 == a2
  {
    forall ct
      ensures ct in a1 <==> ct in a2
    {
      FreshMember(a1, ct);
      FreshMember(a2, ct);
    }
    SortedIsUnique(a1, a2);
  }

  /** Loaded classes that share a name and include `HasContentType` agree
      on being strict `Cms::Portlet` subclasses. Which copy `uniq!` keeps,
      a reloaded class or its stale predecessor, then does not decide
      whether the name is listed. */
  predicate SameNameAgree(classes: seq<ClassDesc>)
  {
    forall k1, k2 ::
      k1 in classes && k2 in classes && k1.name == k2.name && k1.hasContentType && k2.hasContentType
      ==> k1.portletSubclass == k2.portletSubclass
  }

  /** Lists with the same members have the same names. */
  lemma SameMembersSameNames(c1: seq<ClassDesc>, c2: seq<ClassDesc>, n: string)
    requires forall k :: k in c1 <==> k in c2
    requires n in ClassNames(c1)
    ensures n in ClassNames(c2)
  {
    var i :| 0 <= i < |c1| && ClassNames(c1)[i] == n;
    assert c1[i] in c1;
    assert c1[i] in c2;
    var j :| 0 <= j < |c2| && c2[j] == c1[i];
    assert ClassNames(c2)[j] == n;
  }

  /** The same loaded classes, in any order and with any duplicates, list
      the same names. */
  lemma AvailableNamesAgree(c1: seq<ClassDesc>, c2: seq<ClassDesc>, n: string)
    requires WellFormed(c1) && WellFormed(c2)
    requires SameNameAgree(c1)
    requires forall k :: k in c1 <==> k in c2
    ensures n in TypeNames(Available(c1)) <==> n in TypeNames(Available(c2))
  {
    var d1, d2 := Discover(c1), Discover(c2);
    AvailableMembers(c1, n);
    AvailableMembers(c2, n);
    if n in ClassNames(d1) {
      SameMembersSameNames(d1, d2, n);
    }
    if n in ClassNames(d2) {
      SameMembersSameNames(d2, d1, n);
    }
    if n in ClassNames(d1) && n in ClassNames(d2) {
      var k1, k2 := Constantize(d1, n).value, Constantize(d2, n).value;
      assert k1 in c1 && k2 in c1;
    }
  }

  /** The list does not depend on the order the classes were discovered
      in, nor on which of two same-named copies comes first, as long as
      the copies agree on being strict `Cms::Portlet` subclasses. */
  lemma AvailableOrderIndependent(c1: seq<ClassDesc>, c2: seq<ClassDesc>)
    requires WellFormed(c1) && SameNameAgree(c1)
    requires forall k :: k in c1 <==> k in c2
    ensures WellFormed(c2)
    ensures Available(c1) == Available(c2)
  {
    SameMembersSameNames(c1, c2, PortletName);
    assert WellFormed(c2);
    AvailableSorted(c1);
    AvailableSorted(c2);
    forall n
      ensures n in TypeNames(Available(c1)) <==> n in TypeNames(Available(c2))
    {
      AvailableNamesAgree(c1, c2, n);
    }
    FreshListsEqual(Available(c1), Available(c2));
  }

  /** `content_type.connectable?`: asks the model class. A name that does
      not resolve raises in Ruby; AvailableEntries shows that no listed
      type is such a name. */
  function IsConnectable(classes: seq<ClassDesc>, ct: ContentType): (b: bool)
    ensures b ==> exists k :: k in classes && k.name == ct.name && k.connectable
  {
    match Constantize(classes, ct.name)
    case Some(k) => k.connectable
    case None => false
  }

  function ConnectableIn(classes: seq<ClassDesc>): ContentType -> bool
  {
    (ct: ContentType) => IsConnectable(classes, ct)
  }

  /** `ContentType.connectable`: the available types whose class is
      connectable, in the same order. */
  function Connectable(classes: seq<ClassDesc>): (r: seq<ContentType>)
    requires WellFormed(classes)
    ensures Subsequence(r, Available(classes))
    ensures forall ct :: ct in r <==>
              ct in Available(classes) && Constantize(classes, ct.name).Some? &&
              Constantize(classes, ct.name).value.connectable
  {
    Filter(Available(classes), ConnectableIn(classes))
  }

  function NotNamed(n: string): ContentType -> bool
  {
    (ct: ContentType) => ct.name != n
  }

  /** `ContentType.default`: built directly, without looking at classes. */
  function Default(): (r: ContentType)
    ensures r.name == DefaultContentTypeName && r.group.None? && !r.frozen
  {
    Fresh(DefaultContentTypeName)
  }

  /** `ContentType.other_connectables`: the available types except the
      default one, in the same order. Connectability is not consulted. */
  function OtherConnectables(classes: seq<ClassDesc>): (r: seq<ContentType>)
    requires WellFormed(classes)
    ensures Subsequence(r, Available(classes))
    ensures forall ct :: ct in r <==> ct in Available(classes) && ct.name != DefaultContentTypeName
  {
    Filter(Available(classes), NotNamed(DefaultContentTypeName))
  }

  /** Dropping one name from a list of unique names shortens it by one when
      the name is there and not at all otherwise. */
  lemma {:induction false} DropNamedLength(s: seq<ContentType>, n: string)
    requires UniqueTypeNames(s)
    ensures |Filter(s, NotNamed(n))| == |s| - (if n in TypeNames(s) then 1 else 0)
  {
    if s != [] {
      assert UniqueTypeNames(s[1..]);
      DropNamedLength(s[1..], n);
      assert n in TypeNames(s) <==> n == s[0].name || n in TypeNames(s[1..]) by {
        if n in TypeNames(s) {
          var i :| 0 <= i < |s| && s[i].name == n;
          if i > 0 { assert TypeNames(s[1..])[i - 1] == n; }
        }
        if n in TypeNames(s[1..]) {
          var i :| 0 <= i < |s| - 1 && s[1..][i].name == n;
          assert TypeNames(s)[i + 1] == n;
        }
        assert TypeNames(s)[0] == s[0].name;
      }
      if n == s[0].name {
        forall i | 0 <= i < |s| - 1
          ensures TypeNames(s[1..])[i] != n
        {
          assert s[1..][i] == s[i + 1];
        }
      }
    }
  }

  /** `other_connectables` is `available` without exactly the default type:
      one entry shorter when the default is available, the same list
      otherwise; every connectable type other than the default is in it. */
  lemma OtherConnectablesDropDefault(classes: seq<ClassDesc>)
    requires WellFormed(classes)
    ensures Default() !in OtherConnectables(classes)
    ensures forall ct :: ct in Available(classes) && ct != Default() ==> ct in OtherConnectables(classes)
    ensures |OtherConnectables(classes)| ==
            |Available(classes)| - (if Default() in Available(classes) then 1 else 0)
    ensures forall ct :: ct in Connectable(classes) && ct != Default() ==> ct in OtherConnectables(classes)
  {
    var a := Available(classes);
    AvailableSorted(classes);
    DropNamedLength(a, DefaultContentTypeName);
    if DefaultContentTypeName in TypeNames(a) {
      var i :| 0 <= i < |a| && a[i].name == DefaultContentTypeName;
      assert a[i] == Default();
    }
    if Default() in a {
      var i :| 0 <= i < |a| && a[i] == Default();
      assert TypeNames(a)[i] == DefaultContentTypeName;
    }
  }
}
