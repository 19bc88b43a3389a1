/** `ContentType.find_by_key`: turns a key such as "html_blocks" or
    "portlet" into a content type, first from the stored rows, then from the
    loaded portlet classes, retrying without the `Cms::` namespace. */
module Lookup {
  import opened Strings
  import opened Model

  /** What `find_by_key` reads: the loaded classes, the stored content-type
      rows in primary-key order and the stored content-type groups. */
  datatype Registry = Registry(classes: seq<ClassDesc>, rows: seq<ContentType>, groups: seq<Group>)

  /** The exceptions raised inside `find_by_key`: "Not a Portlet",
      NameError from `constantize`, and the final "Couldn't find
      ContentType of class ..." error. */
  datatype Fault = NotAPortlet | UninitializedConstant(name: string) | NotFound(className: string)

  /** `key.tableize.classify`. */
  function Candidate(inf: Inflector, key: string): string
  {
    inf.classify(inf.tableize(key))
  }

  /** A retry works on a shorter class name: when the class name tried for
      a key is in the `Cms::` namespace, the class name tried for that name
      with every `Cms::` removed is shorter. This is what makes the retry
      chain finite. */
  ghost predicate RetryShortens(inf: Inflector)
  {
    forall s :: StartsWith(Candidate(inf, s), CmsNamespace) ==>
      |Candidate(inf, RemoveAll(Candidate(inf, s), CmsNamespace))| < |Candidate(inf, s)|
  }

  /** `where(["name like ?", "%#{cn}"]).first`: the first stored row whose
      name ends with `cn`. */
  function FirstMatch(rows: seq<ContentType>, cn: string): (r: Option<ContentType>)
    ensures r.Some? <==> exists i :: 0 <= i < |rows| && EndsWith(rows[i].name, cn)
    ensures r.Some? ==> r.value in rows && EndsWith(r.value.name, cn)
  {
    if rows == [] then None
    else if EndsWith(rows[0].name, cn) then Some(rows[0])
    else
      var r := FirstMatch(rows[1..], cn);
      assert forall i :: 1 <= i < |rows| ==> rows[1..][i - 1] == rows[i];
      r
  }

  /** The row found is the first one that matches. */
  lemma {:induction false} FirstMatchFirst(rows: seq<ContentType>, cn: string, i: nat)
    requires i < |rows| && EndsWith(rows[i].name, cn)
    requires forall j :: 0 <= j < i ==> !EndsWith(rows[j].name, cn)
    ensures FirstMatch(rows, cn) == Some(rows[i])
  {
    if i > 0 {
      assert !EndsWith(rows[0].name, cn);
      FirstMatchFirst(rows[1..], cn, i - 1);
    }
  }

  /** The match is on the end of the name only, not on a whole name after
      a namespace: a row for `Cms::HtmlBlock` answers the class name
      `Block`. */
  lemma FirstMatchSuffix()
    ensures FirstMatch([Fresh("Cms::HtmlBlock")], "Block") == Some(Fresh("Cms::HtmlBlock"))
  {
    var n := "Cms::HtmlBlock";
    assert n[|n| - 5..] == "Block";
  }

  /** The content type `find_by_key` builds for a portlet class `cn`:
      named `cn`, bound to the "Core" group (nil when there is none), and
      frozen. */
  function BuiltPortlet(groups: seq<Group>, cn: string): (ct: ContentType)
    ensures ct.name == cn && ct.frozen
    ensures ct.group.Some? <==> CoreGroupName in GroupNames(groups)
    ensures ct.group.Some? ==> ct.group.value.name == CoreGroupName
  {
    ContentType(cn, FindGroup(groups, CoreGroupName), true)
  }

  /** The body of `find_by_key` before its `rescue`, for the class name
      `cn`. */
  function Attempt(reg: Registry, cn: string): (r: Result<ContentType, Fault>)
    ensures r.Ok? ==> r.value in reg.rows || r.value == BuiltPortlet(reg.groups, cn)
    ensures r.Err? <==> FirstMatch(reg.rows, cn).None? &&
                        (Constantize(reg.classes, cn).None? || !Constantize(reg.classes, cn).value.portletAncestor)
  {
    match FirstMatch(reg.rows, cn)
    case Some(row) => Ok(row)
    case None =>
      match Constantize(reg.classes, cn)
      case None => Err(UninitializedConstant(cn))
      case Some(k) =>
        if k.portletAncestor then Ok(BuiltPortlet(reg.groups, cn))
        else Err(NotAPortlet)
  }

  /** A content type `find_by_key` may return: a stored row, or a frozen,
      "Core"-grouped content type for a loaded portlet class. */
  predicate Found(reg: Registry, ct: ContentType)
  {
    || ct in reg.rows
    || (ct == BuiltPortlet(reg.groups, ct.name) &&
        Constantize(reg.classes, ct.name).Some? &&
        Constantize(reg.classes, ct.name).value.portletAncestor)
  }

  /** `ContentType.find_by_key(key)`. Any failure of an attempt is rescued;
      while the class name is in the `Cms::` namespace the lookup starts
      again with the namespace removed, otherwise it raises NotFound. */
  function FindByKey(inf: Inflector, reg: Registry, key: string): (r: Result<ContentType, Fault>)
    requires RetryShortens(inf)
    ensures r.Ok? ==> Found(reg, r.value)
    ensures r.Err? ==> r.error.NotFound? && !StartsWith(r.error.className, CmsNamespace)
    decreases |Candidate(inf, key)|
  {
    var cn := Candidate(inf, key);
    match Attempt(reg, cn)
    case Ok(ct) => Ok(ct)
    case Err(_) =>
      if StartsWith(cn, CmsNamespace) then
        assert |Candidate(inf, RemoveAll(cn, CmsNamespace))| < |cn|;
        FindByKey(inf, reg, RemoveAll(cn, CmsNamespace))
      else
        Err(NotFound(cn))
  }

  /** A stored row whose name ends with the class name wins, whatever
      classes are loaded: the first such row is returned. */
  lemma FindByKeyPrefersRows(inf: Inflector, reg: Registry, key: string, i: nat)
    requires RetryShortens(inf)
    requires i < |reg.rows| && EndsWith(reg.rows[i].name, Candidate(inf, key))
    requires forall j :: 0 <= j < i ==> !EndsWith(reg.rows[j].name, Candidate(inf, key))
    ensures FindByKey(inf, reg, key) == Ok(reg.rows[i])
    ensures forall classes :: FindByKey(inf, reg.(classes := classes), key) == Ok(reg.rows[i])
  {
    FirstMatchFirst(reg.rows, Candidate(inf, key), i);
  }

  /** With no matching row, a loaded class that has `Cms::Portlet` among
      its ancestors gives a frozen content type in the "Core" group. */
  lemma FindByKeyBuildsPortlet(inf: Inflector, reg: Registry, key: string)
    requires RetryShortens(inf)
    requires FirstMatch(reg.rows, Candidate(inf, key)).None?
    requires Constantize(reg.classes, Candidate(inf, key)).Some?
    requires Constantize(reg.classes, Candidate(inf, key)).value.portletAncestor
    ensures FindByKey(inf, reg, key).Ok?
    ensures FindByKey(inf, reg, key).value.name == Candidate(inf, key)
    ensures FindByKey(inf, reg, key).value.frozen
    ensures FindByKey(inf, reg, key).value.group == FindGroup(reg.groups, CoreGroupName)
  {
  }

  /** When the attempt fails for a class name in the `Cms::` namespace, the
      result is the one for the name with every `Cms::` removed; otherwise
      it is the NotFound error for that class name. */
  lemma FindByKeyFallback(inf: Inflector, reg: Registry, key: string)
    requires RetryShortens(inf)
    requires Attempt(reg, Candidate(inf, key)).Err?
    ensures StartsWith(Candidate(inf, key), CmsNamespace) ==>
              FindByKey(inf, reg, key) == FindByKey(inf, reg, RemoveAll(Candidate(inf, key), CmsNamespace))
    ensures !StartsWith(Candidate(inf, key), CmsNamespace) ==>
              FindByKey(inf, reg, key) == Err(NotFound(Candidate(inf, key)))
  {
  }

  /** The lookup never succeeds with nothing to find: with no stored rows
      and no loaded portlet class, every key ends in NotFound. */
  lemma {:induction false} FindByKeyNothingToFind(inf: Inflector, reg: Registry, key: string)
    requires RetryShortens(inf)
    requires reg.rows == []
    requires forall k :: k in reg.classes ==> !k.portletAncestor
    ensures FindByKey(inf, reg, key).Err?
    decreases |Candidate(inf, key)|
  {
    var cn := Candidate(inf, key);
    if StartsWith(cn, CmsNamespace) {
      assert |Candidate(inf, RemoveAll(cn, CmsNamespace))| < |cn|;
      FindByKeyNothingToFind(inf, reg, RemoveAll(cn, CmsNamespace));
    }
  }
}
