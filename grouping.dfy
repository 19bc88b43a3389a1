/** The group a content type belongs to: the `group_name` attribute, the
    `before_validation` hook `set_content_type_group` that binds the group,
    and the validation that a group is bound. */
module Grouping {
  import opened Model

  /** `ContentTypeGroup.where(name: n).first || build_content_type_group(name: n)`:
      the first stored group called `n`, or a new, unsaved one. */
  function FindOrBuild(groups: seq<Group>, n: string): (g: Group)
    ensures g.name == n
    ensures n in GroupNames(groups) ==> g in groups && Some(g) == FindGroup(groups, n)
    ensures n !in GroupNames(groups) ==> g == Group(None, n)
  {
    match FindGroup(groups, n)
    case Some(existing) => existing
    case None => Group(None, n)
  }

  /** Once a group with the name exists, groups stored after it do not
      change which group the name binds to. */
  lemma {:induction false} FindOrBuildStable(groups: seq<Group>, later: seq<Group>, n: string)
    requires n in GroupNames(groups)
    ensures FindOrBuild(groups + later, n) == FindOrBuild(groups, n)
  {
    assert groups != [];
    assert (groups + later)[0] == groups[0];
    if groups[0].name != n {
      assert (groups + later)[1..] == groups[1..] + later;
      FindOrBuildStable(groups[1..], later, n);
    }
  }

  /** A content type as the hook and the validation see it. */
  class ContentTypeRecord {
    var name: string
    /** `attr_accessor :group_name`; nil is `None`. */
    var groupName: Option<string>
    /** `belongs_to :content_type_group`; nil is `None`. */
    var contentTypeGroup: Option<Group>

    constructor (name: string, groupName: Option<string>)
      ensures this.name == name && this.groupName == groupName && contentTypeGroup.None?
    {
      this.name := name;
      this.groupName := groupName;
      contentTypeGroup := None;
    }

    /** `set_content_type_group`: when a group name is given, binds the
        group of that name, found or built; otherwise leaves the group as
        it is. */
    method SetContentTypeGroup(groups: seq<Group>)
      modifies this
      ensures name == old(name) && groupName == old(groupName)
      ensures groupName.None? ==> contentTypeGroup == old(contentTypeGroup)
      ensures groupName.Some? ==> contentTypeGroup == Some(FindOrBuild(groups, groupName.value))
      ensures groupName.Some? ==> contentTypeGroup.value.name == groupName.value
    {
      if groupName.Some? {
        var group := FindGroup(groups, groupName.value);
        contentTypeGroup := Some(if group.Some? then group.value else Group(None, groupName.value));
      }
    }

    /** `valid?` as far as the group goes: the `before_validation` hook runs,
        then `validates_presence_of :content_type_group` passes exactly when
        a group is bound. */
    method Validate(groups: seq<Group>) returns (valid: bool)
      modifies this
      ensures name == old(name) && groupName == old(groupName)
      ensures old(groupName).Some? ==> contentTypeGroup == Some(FindOrBuild(groups, old(groupName).value))
      ensures old(groupName).None? ==> contentTypeGroup == old(contentTypeGroup)
      ensures valid <==> contentTypeGroup.Some?
      ensures old(groupName).Some? ==> valid && contentTypeGroup.value.name == old(groupName).value
      ensures old(groupName).None? ==> (valid <==> old(contentTypeGroup).Some?)
    {
      SetContentTypeGroup(groups);
      valid := contentTypeGroup.Some?;
    }
  }
}
