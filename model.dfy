/** The entities of the content-type registry, with the live class graph and
    the database tables replaced by explicit sequences. */
module Model {

  datatype Option<+T> = None | Some(value: T)

  /** A value, or the exception the Ruby code raises instead. */
  datatype Result<+T, +E> = Ok(value: T) | Err(error: E)

  /** `Cms::Portlet`, appended to every discovery. */
  const PortletName: string := "Cms::Portlet"

  /** `ContentType::DEFAULT_CONTENT_TYPE_NAME`. */
  const DefaultContentTypeName: string := "Cms::HtmlBlock"

  /** The group a portlet found by key is bound to. */
  const CoreGroupName: string := "Core"

  /** The namespace prefix `find_by_key` strips before retrying. */
  const CmsNamespace: string := "Cms::"

  /** A column name as a model class lists it: a String (which responds to
      `humanize`) or a Symbol (which does not). */
  datatype Value = Str(s: string) | Sym(s: string)

  /** An entry of `columns_for_index`: a bare name, or a hash with a `:label` (caption), the
      `:method` to call (call) and an optional `:order`. */
  datatype Column =
    | Plain(v: Value)
    | Labelled(caption: string, call: Value, order: Option<string>)

  /** What the registry can learn about one loaded Ruby class. The optional
      fields are the class methods a model may define to override a
      default (`respond_to?` is true exactly when they are `Some`). */
  datatype ClassDesc = ClassDesc(
    name: string,
    hasContentType: bool,      // klass < Cms::Concerns::HasContentType::InstanceMethods
    portletAncestor: bool,     // klass.ancestors.include?(Cms::Portlet)
    portletSubclass: bool,     // klass < Cms::Portlet (strict)
    connectable: bool,         // klass.connectable?
    contentModule: Option<string>,
    formElement: string,       // klass.model_name.element
    formOverride: Option<string>,
    displayNameOverride: Option<string>,
    displayNamePluralOverride: Option<string>,
    columnsOverride: Option<seq<Column>>,
    listTypeOverride: Option<string>)

  /** A `Cms::ContentTypeGroup`; `id` is `None` for a group built but not
      yet saved. */
  datatype Group = Group(id: Option<nat>, name: string)

  /** A `Cms::ContentType` value: a stored row, or one made on the fly. */
  datatype ContentType = ContentType(name: string, group: Option<Group>, frozen: bool)

  /** `Cms::ContentType.new(name: n)`: unsaved, no group, not frozen. */
  function Fresh(n: string): (ct: ContentType)
    ensures ct.name == n && ct.group.None? && !ct.frozen
  {
    ContentType(n, None, false)
  }

  /** The ActiveSupport inflections the registry calls; their rules are not
      part of this model, so they are parameters. */
  datatype Inflector = Inflector(
    tableize: string -> string,
    classify: string -> string,
    underscore: string -> string,
    pluralize: string -> string,
    humanize: string -> string,
    defaultNaming: string -> string)   // Connecting.default_naming_for

  function ClassNames(s: seq<ClassDesc>): (r: seq<string>)
    ensures |r| == |s| && forall i :: 0 <= i < |s| ==> r[i] == s[i].name
  {
    if s == [] then [] else [s[0].name] + ClassNames(s[1..])
  }

  function TypeNames(s: seq<ContentType>): (r: seq<string>)
    ensures |r| == |s| && forall i :: 0 <= i < |s| ==> r[i] == s[i].name
  {
    if s == [] then [] else [s[0].name] + TypeNames(s[1..])
  }

  predicate UniqueClassNames(s: seq<ClassDesc>)
  {
    forall i, j :: 0 <= i < j < |s| ==> s[i].name != s[j].name
  }

  predicate UniqueTypeNames(s: seq<ContentType>)
  {
    forall i, j :: 0 <= i < j < |s| ==> s[i].name != s[j].name
  }

  /** `n.constantize`: the class called `n`, or `None` where Ruby raises
      NameError. With several classes of one name the first one wins. */
  function Constantize(classes: seq<ClassDesc>, n: string): (r: Option<ClassDesc>)
    ensures r.Some? <==> n in ClassNames(classes)
    ensures r.Some? ==> r.value in classes && r.value.name == n
  {
    if classes == [] then None
    else if classes[0].name == n then Some(classes[0])
    else
      assert forall i :: 1 <= i < |classes| ==> classes[1..][i - 1] == classes[i];
      Constantize(classes[1..], n)
  }

  /** The class a name resolves to in `s + t` is the one it resolves to in
      `s` when `s` has it, and otherwise the one in `t`. */
  lemma {:induction false} ConstantizeAppend(s: seq<ClassDesc>, t: seq<ClassDesc>, n: string)
    ensures Constantize(s + t, n) ==
            if n in ClassNames(s) then Constantize(s, n) else Constantize(t, n)
  {
    if s == [] {
      assert s + t == t;
    } else {
      assert (s + t)[0] == s[0];
      assert (s + t)[1..] == s[1..] + t;
      assert ClassNames(s) == [s[0].name] + ClassNames(s[1..]);
      ConstantizeAppend(s[1..], t, n);
    }
  }

  /** The class found is the first one of that name. */
  lemma {:induction false} ConstantizeFirst(classes: seq<ClassDesc>, n: string, i: nat)
    requires i < |classes| && classes[i].name == n
    requires forall j :: 0 <= j < i ==> classes[j].name != n
    ensures Constantize(classes, n) == Some(classes[i])
  {
    if i > 0 {
      assert classes[0].name != n;
      ConstantizeFirst(classes[1..], n, i - 1);
    }
  }

  /** In a table without repeated names, a class is what its name
      resolves to. */
  lemma {:induction false} ConstantizeUnique(s: seq<ClassDesc>, k: ClassDesc)
    requires UniqueClassNames(s) && k in s
    ensures Constantize(s, k.name) == Some(k)
  {
    if s[0] != k {
      assert k in s[1..];
      ConstantizeUnique(s[1..], k);
    }
  }

  /** The class graph is consistent: `Cms::Portlet` is loaded, is a portlet
      and is not a strict subclass of itself; strict subclasses of it have
      it among their ancestors. */
  predicate WellFormed(classes: seq<ClassDesc>)
  {
    && PortletName in ClassNames(classes)
    && forall k :: k in classes ==>
         && (k.portletSubclass ==> k.portletAncestor)
         && (k.name == PortletName ==> k.portletAncestor && !k.portletSubclass)
  }

  /** `r` is `s` with some entries left out and the rest in their order. */
  predicate Subsequence<T(==)>(r: seq<T>, s: seq<T>)
  {
    if r == [] then true
    else if s == [] then false
    else if r[0] == s[0] then Subsequence(r[1..], s[1..])
    else Subsequence(r, s[1..])
  }

  /** Ruby's `select`: keeps, in order, exactly the entries satisfying `p`. */
  function Filter<T(==,!new)>(s: seq<T>, p: T -> bool): (r: seq<T>)
    ensures forall x :: x in r <==> x in s && p(x)
    ensures Subsequence(r, s)
    ensures |r| <= |s|
    ensures (forall x :: x in s ==> !p(x)) ==> r == []
  {
    if s == [] then []
    else if p(s[0]) then [s[0]] + Filter(s[1..], p)
    else
      var r := Filter(s[1..], p);
      assert r != [] ==> r[0] != s[0] by {
        if r != [] { assert r[0] in r; }
      }
      r
  }

  /** Keeping a subsequence keeps names apart. */
  lemma {:induction false} SubsequenceUniqueTypeNames(r: seq<ContentType>, s: seq<ContentType>)
    requires Subsequence(r, s) && UniqueTypeNames(s)
    ensures UniqueTypeNames(r)
    ensures forall x :: x in r ==> x in s
  {
    if r != [] && s != [] {
      if r[0] == s[0] {
        SubsequenceUniqueTypeNames(r[1..], s[1..]);
        forall x | x in r
          ensures x in s
        {
          if x != r[0] {
            assert x in r[1..];
            assert x in s[1..];
          }
        }
        forall j | 0 < j < |r|
          ensures r[0].name != r[j].name
        {
          assert r[j] in r[1..];
          var k :| 0 <= k < |s[1..]| && s[1..][k] == r[j];
          assert s[k + 1] == r[j];
        }
      } else {
        SubsequenceUniqueTypeNames(r, s[1..]);
      }
    }
  }

  /** The same for classes. */
  lemma {:induction false} SubsequenceUniqueClassNames(r: seq<ClassDesc>, s: seq<ClassDesc>)
    requires Subsequence(r, s) && UniqueClassNames(s)
    ensures UniqueClassNames(r)
    ensures forall x :: x in r ==> x in s
  {
    if r != [] && s != [] {
      if r[0] == s[0] {
        SubsequenceUniqueClassNames(r[1..], s[1..]);
        forall x | x in r
          ensures x in s
        {
          if x != r[0] {
            assert x in r[1..];
            assert x in s[1..];
          }
        }
        forall j | 0 < j < |r|
          ensures r[0].name != r[j].name
        {
          assert r[j] in r[1..];
          var k :| 0 <= k < |s[1..]| && s[1..][k] == r[j];
          assert s[k + 1] == r[j];
        }
      } else {
        SubsequenceUniqueClassNames(r, s[1..]);
      }
    }
  }

  /** Filtering a list extended at the end extends the filtered list. */
  lemma {:induction false} FilterAppend<T(!new)>(s: seq<T>, x: T, p: T -> bool)
    ensures Filter(s + [x], p) == Filter(s, p) + (if p(x) then [x] else [])
  {
    if s != [] {
      assert (s + [x])[1..] == s[1..] + [x];
      FilterAppend(s[1..], x, p);
    }
  }

  function GroupNames(groups: seq<Group>): (r: seq<string>)
    ensures |r| == |groups| && forall i :: 0 <= i < |groups| ==> r[i] == groups[i].name
  {
    if groups == [] then [] else [groups[0].name] + GroupNames(groups[1..])
  }

  /** `ContentTypeGroup.where(name: n).first`: the first stored group
      called `n`, if any. `find_by_name(n)` is taken to bind the same
      group (see README, "Left out"). */
  function FindGroup(groups: seq<Group>, n: string): (r: Option<Group>)
    ensures r.Some? <==> n in GroupNames(groups)
    ensures r.Some? ==> r.value in groups && r.value.name == n
  {
    if groups == [] then None
    else if groups[0].name == n then Some(groups[0])
    else FindGroup(groups[1..], n)
  }

  /** The group found is the first one of that name. */
  lemma {:induction false} FindGroupFirst(groups: seq<Group>, n: string, i: nat)
    requires i < |groups| && groups[i].name == n
    requires forall j :: 0 <= j < i ==> groups[j].name != n
    ensures FindGroup(groups, n) == Some(groups[i])
  {
    if i > 0 {
      assert groups[0].name != n;
      FindGroupFirst(groups[1..], n, i - 1);
    }
  }
}
