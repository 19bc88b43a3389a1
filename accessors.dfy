/** The per-instance accessors of a content type. Each one resolves the
    content type's name to its model class (`model_class`, i.e.
    `name.constantize`) and uses the class's override when it defines one,
    a default otherwise. `None` stands for the NameError raised when the
    name does not resolve. */
module Accessors {
  import opened Strings
  import opened Model
  import opened Listing

  /** `form`: the class's own form partial, or the pluralised underscored
      name followed by "/form"; for a model of the main application the
      partial lives under "cms/". */
  function Form(inf: Inflector, classes: seq<ClassDesc>, ct: ContentType, mainAppModel: bool): (r: Option<string>)
    ensures r.Some? <==> Constantize(classes, ct.name).Some?
    ensures r.Some? && Constantize(classes, ct.name).value.formOverride.Some? ==>
              r.value == (if mainAppModel then "cms/" else "") + Constantize(classes, ct.name).value.formOverride.value
    ensures r.Some? && Constantize(classes, ct.name).value.formOverride.None? ==>
              r.value == (if mainAppModel then "cms/" else "") + inf.pluralize(inf.underscore(ct.name)) + "/form"
    ensures r.Some? && mainAppModel ==> StartsWith(r.value, "cms/")
  {
    match Constantize(classes, ct.name)
    case None => None
    case Some(k) =>
      var f := match k.formOverride
               case Some(o) => o
               case None => inf.pluralize(inf.underscore(ct.name)) + "/form";
      Some(if mainAppModel then "cms/" + f else f)
  }

  /** The main-application form is the engine form with "cms/" in front. */
  lemma FormMainAppPrefix(inf: Inflector, classes: seq<ClassDesc>, ct: ContentType)
    ensures Form(inf, classes, ct, true).Some? == Form(inf, classes, ct, false).Some?
    ensures Form(inf, classes, ct, true).Some? ==>
              Form(inf, classes, ct, true).value == "cms/" + Form(inf, classes, ct, false).value
  {
  }

  /** Without an override, an engine model's form partial is a "/form"
      partial under its pluralised, underscored name. */
  lemma FormDefault(inf: Inflector, classes: seq<ClassDesc>, ct: ContentType)
    requires Constantize(classes, ct.name).Some? && Constantize(classes, ct.name).value.formOverride.None?
    ensures Form(inf, classes, ct, false).value == inf.pluralize(inf.underscore(ct.name)) + "/form"
    ensures EndsWith(Form(inf, classes, ct, false).value, "/form")
    ensures StartsWith(Form(inf, classes, ct, false).value, inf.pluralize(inf.underscore(ct.name)))
  {
    var p := inf.pluralize(inf.underscore(ct.name));
    assert (p + "/form")[|p|..] == "/form";
    assert (p + "/form")[..|p|] == p;
  }

  /** `display_name`: the class's own display name, or the default naming
      of the class. */
  function DisplayName(inf: Inflector, classes: seq<ClassDesc>, ct: ContentType): (r: Option<string>)
    ensures r.Some? <==> Constantize(classes, ct.name).Some?
    ensures r.Some? && Constantize(classes, ct.name).value.displayNameOverride.Some? ==>
              r.value == Constantize(classes, ct.name).value.displayNameOverride.value
    ensures r.Some? && Constantize(classes, ct.name).value.displayNameOverride.None? ==>
              r.value == inf.defaultNaming(ct.name)
  {
    match Constantize(classes, ct.name)
    case None => None
    case Some(k) =>
      match k.displayNameOverride
      case Some(d) => Some(d)
      case None => Some(inf.defaultNaming(k.name))
  }

  /** `display_name_plural`: the class's own plural, or the plural of the
      display name. */
  function DisplayNamePlural(inf: Inflector, classes: seq<ClassDesc>, ct: ContentType): (r: Option<string>)
    ensures r.Some? <==> Constantize(classes, ct.name).Some?
    ensures r.Some? && Constantize(classes, ct.name).value.displayNamePluralOverride.Some? ==>
              r.value == Constantize(classes, ct.name).value.displayNamePluralOverride.value
    ensures r.Some? && Constantize(classes, ct.name).value.displayNamePluralOverride.None? ==>
              r.value == inf.pluralize(DisplayName(inf, classes, ct).value)
  {
    match Constantize(classes, ct.name)
    case None => None
    case Some(k) =>
      match k.displayNamePluralOverride
      case Some(p) => Some(p)
      case None => Some(inf.pluralize(DisplayName(inf, classes, ct).value))
  }

  /** Without a plural override the plural follows the singular, whether
      the singular is the class's own or the default naming. */
  lemma DisplayNamePluralFollowsSingular(inf: Inflector, classes: seq<ClassDesc>, ct: ContentType)
    requires Constantize(classes, ct.name).Some?
    requires Constantize(classes, ct.name).value.displayNamePluralOverride.None?
    ensures DisplayNamePlural(inf, classes, ct) == Some(inf.pluralize(DisplayName(inf, classes, ct).value))
    ensures Constantize(classes, ct.name).value.displayNameOverride.Some? ==>
              DisplayNamePlural(inf, classes, ct) ==
              Some(inf.pluralize(Constantize(classes, ct.name).value.displayNameOverride.value))
  {
  }

  /** `key` and `model_class_form_name`: the element name of the class's
      model name. */
  function Key(classes: seq<ClassDesc>, ct: ContentType): (r: Option<string>)
    ensures r.Some? <==> Constantize(classes, ct.name).Some?
    ensures r.Some? ==> r.value == Constantize(classes, ct.name).value.formElement
  {
    match Constantize(classes, ct.name)
    case None => None
    case Some(k) => Some(k.formElement)
  }

  /** The prefix of a route helper of the main application. */
  const MainAppRoutePrefix: string := "main_app.cms_"

  /** `route_name`: the form name for a class whose name starts with "Cms",
      otherwise the main application's "cms_" route of that form name. */
  function RouteName(classes: seq<ClassDesc>, ct: ContentType): (r: Option<string>)
    ensures r.Some? <==> Key(classes, ct).Some?
    ensures r.Some? ==> (r.value == Key(classes, ct).value <==> StartsWith(ct.name, "Cms"))
    ensures r.Some? && !StartsWith(ct.name, "Cms") ==> r.value == MainAppRoutePrefix + Key(classes, ct).value
  {
    match Constantize(classes, ct.name)
    case None => None
    case Some(k) =>
      if StartsWith(k.name, "Cms") then Some(k.formElement)
      else
        assert |MainAppRoutePrefix + k.formElement| > |k.formElement|;
        Some(MainAppRoutePrefix + k.formElement)
  }

  /** The test is on the three letters "Cms", not on the `Cms::`
      namespace: a class `CmsWidget` is routed like an engine class. */
  lemma RouteNameCmsLetters(classes: seq<ClassDesc>, k: ClassDesc)
    requires k in classes && UniqueClassNames(classes) && k.name == "CmsWidget"
    ensures RouteName(classes, Fresh(k.name)) == Some(k.formElement)
  {
    ConstantizeUnique(classes, k);
    assert StartsWith(k.name, "Cms");
  }

  /** `column.humanize` applied to what responds to it (a String), other
      entries (Symbols, hashes) as they are. */
  function HumanizeColumn(inf: Inflector, c: Column): (r: Column)
    ensures !BareString(r)
    ensures BareString(c) ==> r.Labelled? && r.call == c.v && r.order.None?
    ensures !BareString(c) ==> r == c
  {
    match c
    case Plain(Str(s)) => Labelled(inf.humanize(s), Str(s), None)
    case _ => c
  }

  /** A bare String column, the only kind that responds to `humanize`. */
  predicate BareString(c: Column)
  {
    c.Plain? && c.v.Str?
  }

  /** The `map` over the class's columns. */
  function HumanizeAll(inf: Inflector, cols: seq<Column>): (r: seq<Column>)
    ensures |r| == |cols|
    ensures forall i :: 0 <= i < |cols| ==>
              (BareString(cols[i]) ==> r[i] == Labelled(inf.humanize(cols[i].v.s), cols[i].v, None)) &&
              (!BareString(cols[i]) ==> r[i] == cols[i])
  {
    if cols == [] then []
    else [HumanizeColumn(inf, cols[0])] + HumanizeAll(inf, cols[1..])
  }

  /** After the map no bare String is left, and mapping again changes
      nothing. */
  lemma {:induction false} HumanizeAllIdempotent(inf: Inflector, cols: seq<Column>)
    ensures forall i :: 0 <= i < |cols| ==> !BareString(HumanizeAll(inf, cols)[i])
    ensures HumanizeAll(inf, HumanizeAll(inf, cols)) == HumanizeAll(inf, cols)
  {
    if cols != [] {
      HumanizeAllIdempotent(inf, cols[1..]);
      var r := HumanizeAll(inf, cols);
      assert r[1..] == HumanizeAll(inf, cols[1..]);
      assert HumanizeAll(inf, r) == [HumanizeColumn(inf, r[0])] + HumanizeAll(inf, r[1..]);
    }
  }

  /** The two columns listed for a class that names none: the name, ordered
      by name, then the update date, ordered by `updated_at`. */
  function DefaultColumns(): (r: seq<Column>)
    ensures |r| == 2
    ensures r[0] == Labelled("Name", Sym("name"), Some("name"))
    ensures r[1] == Labelled("Updated On", Sym("updated_on_string"), Some("updated_at"))
  {
    [Labelled("Name", Sym("name"), Some("name")),
     Labelled("Updated On", Sym("updated_on_string"), Some("updated_at"))]
  }

  /** `columns_for_index`. */
  function ColumnsForIndex(inf: Inflector, classes: seq<ClassDesc>, ct: ContentType): (r: Option<seq<Column>>)
    ensures r.Some? <==> Constantize(classes, ct.name).Some?
    ensures r.Some? && Constantize(classes, ct.name).value.columnsOverride.None? ==> r.value == DefaultColumns()
    ensures r.Some? && Constantize(classes, ct.name).value.columnsOverride.Some? ==>
              r.value == HumanizeAll(inf, Constantize(classes, ct.name).value.columnsOverride.value)
    ensures r.Some? && Constantize(classes, ct.name).value.columnsOverride.Some? ==>
              |r.value| == |Constantize(classes, ct.name).value.columnsOverride.value|
    ensures r.Some? ==> forall i :: 0 <= i < |r.value| ==> !BareString(r.value[i])
  {
    match Constantize(classes, ct.name)
    case None => None
    case Some(k) =>
      match k.columnsOverride
      case None => Some(DefaultColumns())
      case Some(cols) =>
        HumanizeAllIdempotent(inf, cols);
        Some(HumanizeAll(inf, cols))
  }

  /** `content_block_type`: the pluralised, underscored class name without
      its namespace. It needs no class lookup. */
  function ContentBlockType(inf: Inflector, ct: ContentType): (r: string)
    ensures Unqualified(ct.name) ==> r == inf.underscore(inf.pluralize(ct.name))
  {
    inf.underscore(inf.pluralize(Demodulize(ct.name)))
  }

  /** Only the last segment of a qualified name counts: `Cms::HtmlBlock`,
      `Other::HtmlBlock` and `HtmlBlock` share their content block type. */
  lemma ContentBlockTypeIgnoresNamespace(inf: Inflector, p: string, x: string, group: Option<Group>, frozen: bool)
    requires Unqualified(x)
    ensures ContentBlockType(inf, ContentType(p + "::" + x, group, frozen)) == ContentBlockType(inf, Fresh(x))
  {
    DemodulizeQualified(p, x);
    assert !Unqualified(p + "::" + x) by {
      assert (p + "::" + x)[|p|] == ':';
    }
  }

  /** `content_block_type_for_list`: the class's own list type (portlets
      list all portlets together), or the content block type. */
  function ContentBlockTypeForList(inf: Inflector, classes: seq<ClassDesc>, ct: ContentType): (r: Option<string>)
    ensures r.Some? <==> Constantize(classes, ct.name).Some?
    ensures r.Some? && Constantize(classes, ct.name).value.listTypeOverride.Some? ==>
              r.value == Constantize(classes, ct.name).value.listTypeOverride.value
    ensures r.Some? && Constantize(classes, ct.name).value.listTypeOverride.None? ==>
              r.value == ContentBlockType(inf, ct)
  {
    match Constantize(classes, ct.name)
    case None => None
    case Some(k) =>
      match k.listTypeOverride
      case Some(t) => Some(t)
      case None => Some(ContentBlockType(inf, ct))
  }

  /** None of the accessors raises for an available content type. */
  lemma AccessorsDefinedOnAvailable(inf: Inflector, classes: seq<ClassDesc>, ct: ContentType, mainAppModel: bool)
    requires WellFormed(classes) && ct in Available(classes)
    ensures Form(inf, classes, ct, mainAppModel).Some?
    ensures DisplayName(inf, classes, ct).Some? && DisplayNamePlural(inf, classes, ct).Some?
    ensures Key(classes, ct).Some? && RouteName(classes, ct).Some?
    ensures ColumnsForIndex(inf, classes, ct).Some? && ContentBlockTypeForList(inf, classes, ct).Some?
  {
    AvailableEntries(classes, ct);
  }
}
