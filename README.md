# Content-type registry of BrowserCMS, in Dafny

This project models `Cms::ContentType` (`app/models/cms/content_type.rb`).
That class is the registry that maps the application's content-block model
classes to content types. The model covers:

- **Listing.** `available` lists the loaded classes that include
  `HasContentType`, plus `Cms::Portlet`, without duplicate names and without
  strict `Cms::Portlet` subclasses, sorted by name. `connectable`,
  `other_connectables`, `default` and `available_by_module` are built on it.
- **Lookup.** `find_by_key` looks for a stored row whose name ends with
  `key.tableize.classify`. Failing that, it builds a frozen "Core" content
  type for a portlet class. On any failure it retries without `Cms::`.
- **Accessors.** `form`, `display_name`, `display_name_plural`, `key`,
  `route_name`, `columns_for_index`, `content_block_type` and
  `content_block_type_for_list` each use the model class's override when it
  defines one, and a default otherwise.
- **Group binding.** The `group_name` attribute, the `set_content_type_group`
  hook and the validation that a group is bound.

Reflection and the database are explicit inputs:

- The loaded classes are a sequence of `ClassDesc` records, in the order
  `ObjectSpace` yields them.
- The stored rows and groups are sequences in primary-key order.
- The ActiveSupport inflections are fields of an `Inflector` value.

Files:

| file | module | contents |
|---|---|---|
| `strings.dfy` | `Strings` | Ruby's string order (`<=>`), `starts_with?`, the `LIKE '%X'` suffix test, `gsub`, `demodulize` |
| `model.dfy` | `Model` | the entities, `constantize`, `select`, group lookup |
| `sorting.dfy` | `Sorting` | the sort by name and why its result is unique |
| `listing.dfy` | `Listing` | `available`, `connectable`, `other_connectables`, `default` |
| `by_module.dfy` | `ByModule` | `available_by_module`, as a loop proved against the grouping it builds |
| `lookup.dfy` | `Lookup` | `find_by_key` |
| `accessors.dfy` | `Accessors` | the per-instance accessors |
| `grouping.dfy` | `Grouping` | the group-binding hook and its validation, as a class with mutable fields |

Four behaviours of the code are easy to misread:

- **`form` prefix.** `form` puts "cms/" in front of the partial only when
  `main_app_model?` is true (`content_type.rb:112-114`). Engine types keep
  the partial as it is.
- **Retries.** `find_by_key` calls itself again from its `rescue`
  (`content_type.rb:89-92`). So it retries for as long as the new class
  name starts with `Cms::`. A single `gsub` pass can form a new `Cms::`
  (RemoveAllSinglePass), so more than one retry can happen.
- **Keys without a namespace.** For a key such as "html_blocks" or
  "portlet", `find_by_key` tries only the class name "HtmlBlock" or
  "Portlet" (`content_type.rb:75`). It tries a `Cms::` class name only when
  the key carries the namespace itself, as "cms/html_blocks" does. A stored
  row for `Cms::HtmlBlock` is still found through the suffix match
  (FirstMatchSuffix). A portlet built from the key is named after the class
  name tried, not after a namespaced class (FindByKeyBuildsPortlet).
- **`other_connectables`.** It is `available` without the default type
  (`content_type.rb:61-63`). It does not ask `connectable?`, so it can hold
  types that `connectable` leaves out.

## Model

| member | source | states |
|---|---|---|
| Strings.NoLater | app/models/cms/content_type.rb:51 | definition: `a <=> b` is -1 or 0, comparing code points from the left, with a proper prefix first; its order laws are the four lemmas below |
| Strings.NoLaterReflexive | app/models/cms/content_type.rb:51 | every name sorts no later than itself |
| Strings.NoLaterAntisymmetric | app/models/cms/content_type.rb:51 | two names that each sort no later than the other are equal |
| Strings.NoLaterTransitive | app/models/cms/content_type.rb:51 | the order of names used by the sort is transitive |
| Strings.NoLaterTotal | app/models/cms/content_type.rb:51 | any two names are comparable |
| Strings.PrecedesTrichotomy | app/models/cms/content_type.rb:51 | of two different names exactly one sorts first |
| Strings.StartsWith | app/models/cms/content_type.rb:90 | definition: `starts_with?`, the first characters are exactly the prefix |
| Strings.EndsWith | app/models/cms/content_type.rb:76 | definition: `LIKE '%X'` without wildcards, the last characters are exactly `X` |
| Strings.RemoveAll | app/models/cms/content_type.rb:91 | `gsub(/Cms::/, "")` never lengthens a name and removes at least the leading `Cms::` when there is one, so the retried name is strictly shorter |
| Strings.RemoveAllSinglePass | app/models/cms/content_type.rb:90-91 | one `gsub` pass can leave a name that again starts with `Cms::` ("CCms::ms::" becomes "Cms::"), so the retry can repeat |
| Strings.Demodulize | app/models/cms/content_type.rb:174 | never longer than the name, and a name with no ':' at all is returned whole |
| Strings.DemodulizeQualified | app/models/cms/content_type.rb:174 | a name `p::X` whose last segment `X` has no colon demodulizes to exactly `X`, whatever the namespace `p` |
| Model.Fresh | app/models/cms/content_type.rb:49 | `ContentType.new(name: n)` has that name, no group and is not frozen |
| Model.Constantize | app/models/cms/content_type.rb:126-128 | a name resolves exactly when a loaded class has it, to a loaded class of that name |
| Model.ConstantizeFirst | app/models/cms/content_type.rb:126-128 | with several loaded classes of one name, the model resolves the name to the first in discovery order (an assumption, see Left out) |
| Model.ConstantizeAppend | app/models/cms/content_type.rb:45 | in a list extended by more classes, a name resolves as in the front part when that part has it, otherwise as in the rest |
| Model.ConstantizeUnique | app/models/cms/content_type.rb:126-128 | with unique names every loaded class is what its own name resolves to |
| Model.Filter | app/models/cms/content_type.rb:42-44 | `select` keeps exactly the entries satisfying the block, as an order-preserving subsequence, empty when nothing satisfies it |
| Model.SubsequenceUniqueClassNames | app/models/cms/content_type.rb:42-44 | a subsequence of classes with unique names has unique names and only entries of the original |
| Model.SubsequenceUniqueTypeNames | app/models/cms/content_type.rb:17 | the same for content types |
| Model.FilterAppend | app/models/cms/content_type.rb:25-28 | selecting from a list extended by one entry extends the selection by that entry exactly when it satisfies the block |
| Model.FindGroup | app/models/cms/content_type.rb:190 | a stored group is found exactly when one has the name, and the found group is stored and has that name |
| Model.FindGroupFirst | app/models/cms/content_type.rb:190 | `.first` returns the first stored group of that name |
| Sorting.Insert | app/models/cms/content_type.rb:51 | inserting adds exactly one occurrence of the entry (multiset) |
| Sorting.SortByName | app/models/cms/content_type.rb:51 | the sort is a permutation of its input (multiset) |
| Sorting.InsertSorted | app/models/cms/content_type.rb:51 | inserting into a list sorted by name keeps it sorted |
| Sorting.InsertUnique | app/models/cms/content_type.rb:51 | inserting a new name into a list of unique names keeps names unique |
| Sorting.SortByNameSorted | app/models/cms/content_type.rb:51 | the sorted list is ascending by name and keeps names unique |
| Sorting.SortedUniqueIsStrict | app/models/cms/content_type.rb:51 | ascending without repeated names means strictly ascending |
| Sorting.SortedIsUnique | app/models/cms/content_type.rb:51 | two strictly ascending lists with the same entries are equal, so an unstable sort of unique names has one outcome |
| Listing.Discover | app/models/cms/content_type.rb:42-44 | exactly the loaded classes including `HasContentType`, in discovery order |
| Listing.PortletClass | app/models/cms/content_type.rb:45 | the appended class is loaded, is named `Cms::Portlet` and is not a strict subclass of itself |
| Listing.UniqByName | app/models/cms/content_type.rb:46 | never longer than its input, and holds only classes of its input |
| Listing.UniqByNameSnoc | app/models/cms/content_type.rb:46 | proof helper: unfolds `uniq!` for a class appended at the end, kept exactly when its name is new |
| Listing.UniqByNameUnique | app/models/cms/content_type.rb:46 | after `uniq!` no two classes share a name |
| Listing.UniqByNameNames | app/models/cms/content_type.rb:46 | `uniq!` loses no name |
| Listing.UniqByNameFirst | app/models/cms/content_type.rb:46 | `uniq!` keeps the first class of each name in discovery order, which is also the class the model's Constantize picks |
| Listing.UniqByNameFacts | app/models/cms/content_type.rb:46 | the three facts above together |
| Listing.Survivors | app/models/cms/content_type.rb:42-50 | every class that survives `uniq!` and the subclass test is loaded and is not a strict `Cms::Portlet` subclass |
| Listing.Instantiate | app/models/cms/content_type.rb:47-50 | one new, ungrouped, unfrozen content type per class, with its name, in order |
| Listing.Available | app/models/cms/content_type.rb:41-52 | one content type per surviving class; the order, uniqueness and membership are the lemmas that follow |
| Listing.SurvivorsUnique | app/models/cms/content_type.rb:45-50 | the classes turned into content types have unique names |
| Listing.AvailableSorted | app/models/cms/content_type.rb:41-52 | `available` is strictly ascending by name (so no name repeats), and every entry is a new, ungrouped content type |
| Listing.SortKeepsNames | app/models/cms/content_type.rb:51 | sorting keeps the set of names |
| Listing.SurvivorNamesSound | app/models/cms/content_type.rb:46-50 | a name that survives `uniq!` and the subclass test belongs to a first class that is not a strict subclass of `Cms::Portlet` |
| Listing.SurvivorNamesComplete | app/models/cms/content_type.rb:46-50 | every such name survives |
| Listing.SurvivorNames | app/models/cms/content_type.rb:46-50 | both directions together |
| Listing.AvailableMembers | app/models/cms/content_type.rb:41-52 | a name is available exactly when it is `Cms::Portlet` or the first discovered class of that name is not a strict subclass of `Cms::Portlet` |
| Listing.AvailableEntries | app/models/cms/content_type.rb:42-50 | every available type resolves to a loaded class; except `Cms::Portlet`, a class of that name includes `HasContentType` and is not a strict `Cms::Portlet` subclass |
| Listing.AvailableHasPortlet | app/models/cms/content_type.rb:45-50 | `Cms::Portlet` is always available, and no name appears twice |
| Listing.FreshMember | app/models/cms/content_type.rb:47-50 | in a list of new content types, membership is decided by the name |
| Listing.FreshListsEqual | app/models/cms/content_type.rb:51 | two strictly ascending lists of new content types with the same names are equal |
| Listing.SameMembersSameNames | app/models/cms/content_type.rb:42-46 | two lists of the same loaded classes, in any order and with any repeats, have the same names |
| Listing.AvailableNamesAgree | app/models/cms/content_type.rb:42-50 | the same loaded classes in any order, duplicate names included, give the same available names, provided same-named `HasContentType` classes agree on being strict `Cms::Portlet` subclasses |
| Listing.AvailableOrderIndependent | app/models/cms/content_type.rb:41-52 | under that same agreement, `available` does not depend on the order the classes are discovered in nor on which of two same-named copies comes first; the other order is well formed too |
| Listing.IsConnectable | app/models/cms/content_type.rb:150-152 | true only when a loaded class of the content type's name is connectable |
| Listing.Connectable | app/models/cms/content_type.rb:16-18 | an order-preserving subsequence of `available` holding exactly the available types whose class is connectable |
| Listing.Default | app/models/cms/content_type.rb:66-68 | a new, ungrouped content type named `Cms::HtmlBlock` |
| Listing.OtherConnectables | app/models/cms/content_type.rb:61-63 | an order-preserving subsequence of `available` holding exactly the available types not named `Cms::HtmlBlock` |
| Listing.DropNamedLength | app/models/cms/content_type.rb:62 | dropping one name from a list of unique names shortens it by one if the name is there, by nothing otherwise |
| Listing.OtherConnectablesDropDefault | app/models/cms/content_type.rb:61-68 | `other_connectables` is `available` without exactly `default`: it lacks `default`, keeps every other available type (connectable ones included), and is one shorter exactly when `default` is available |
| ByModule.ModuleName | app/models/cms/content_type.rb:97-102 | the `content_module` of the class the content type's name resolves to, and nil when the name does not resolve; so a module name always comes from a loaded class of that name |
| ByModule.Place | app/models/cms/content_type.rb:27-28 | the keys stay as they are when the module has a bucket, otherwise the module is added as the last key; one more content type is grouped |
| ByModule.GroupBy | app/models/cms/content_type.rb:25-29 | never more buckets than content types grouped |
| ByModule.KeyIndex | app/models/cms/content_type.rb:27-28 | `modules[m]` finds the one bucket keyed `m` |
| ByModule.SizeUpdate | app/models/cms/content_type.rb:28 | replacing one bucket changes the total size by the difference in that bucket's size |
| ByModule.SizeAppend | app/models/cms/content_type.rb:27 | a new bucket adds its size to the total |
| ByModule.PlaceDistinct | app/models/cms/content_type.rb:27-28 | one step of the loop never creates a second bucket for a module |
| ByModule.PlaceCovers | app/models/cms/content_type.rb:27-28 | after one step every content type seen has a bucket for its module |
| ByModule.InModuleAppend | app/models/cms/content_type.rb:28 | one more content type joins the entries of its own module and no other |
| ByModule.PlaceExactExisting | app/models/cms/content_type.rb:28 | appending to an existing bucket keeps every bucket exactly the entries of its module, in order |
| ByModule.PlaceExactNew | app/models/cms/content_type.rb:27-28 | creating a bucket and appending to it does the same |
| ByModule.PlacePartitions | app/models/cms/content_type.rb:25-29 | one step keeps the hash a partition of the content types seen |
| ByModule.GroupByPartitions | app/models/cms/content_type.rb:23-31 | grouping by module gives distinct keys, non-empty buckets holding exactly their module's entries in order, and a bucket for every entry |
| ByModule.GroupBySize | app/models/cms/content_type.rb:23-31 | bucket sizes add up to the number of entries grouped |
| ByModule.GroupByStep | app/models/cms/content_type.rb:25 | proof helper: unfolds the grouping for one more content type, the loop's step |
| ByModule.NewBucket | app/models/cms/content_type.rb:27-28 | proof helper: a bucket created empty is the last one, and the entry is appended to it |
| ByModule.AvailableGrouping | app/models/cms/content_type.rb:23-31 | the hash returned partitions `available` by `module_name`, with nothing lost or duplicated |
| ByModule.AddToModule | app/models/cms/content_type.rb:27-28 | the loop body for one content type: creating the bucket unless it exists and appending to it gives exactly Place |
| ByModule.AvailableByModule | app/models/cms/content_type.rb:23-31 | the loop returns exactly the grouping of `available` by module that AvailableGrouping describes |
| Lookup.Candidate | app/models/cms/content_type.rb:75 | definition: the class name tried for a key, `key.tableize.classify`; both inflections are parameters |
| Lookup.FirstMatch | app/models/cms/content_type.rb:76 | a row is found exactly when some stored row's name ends with the class name, and the found row is such a row |
| Lookup.FirstMatchFirst | app/models/cms/content_type.rb:76 | `.first` returns the first such row |
| Lookup.FirstMatchSuffix | app/models/cms/content_type.rb:76 | the match is on the end of the name: a row for `Cms::HtmlBlock` answers the class name `Block` |
| Lookup.BuiltPortlet | app/models/cms/content_type.rb:79-82 | the built content type has the class name, is frozen, and has the "Core" group when one is stored |
| Lookup.Attempt | app/models/cms/content_type.rb:75-88 | an attempt returns a stored row or the built portlet type, and fails exactly when no row matches and the class is missing or not a portlet |
| Lookup.FindByKey | app/models/cms/content_type.rb:74-94 | a result is a stored row or a frozen "Core" type of a loaded portlet class; the only error is NotFound, for a name outside `Cms::`, so "Not a Portlet" and NameError never reach the caller |
| Lookup.FindByKeyPrefersRows | app/models/cms/content_type.rb:75-77 | when a stored row matches, the first one is returned, whatever classes are loaded |
| Lookup.FindByKeyBuildsPortlet | app/models/cms/content_type.rb:77-82 | with no matching row and a loaded portlet class, the result is a frozen content type with that name and the stored "Core" group |
| Lookup.FindByKeyFallback | app/models/cms/content_type.rb:89-93 | after a failed attempt, a `Cms::` name is looked up again with every `Cms::` removed; any other name gives NotFound for it |
| Lookup.FindByKeyNothingToFind | app/models/cms/content_type.rb:74-94 | with no stored rows and no portlet class every key ends in an error |
| Accessors.Form | app/models/cms/content_type.rb:110-116 | defined exactly when the class resolves; the class's own form when it has one, otherwise the pluralised, underscored name followed by "/form"; either way with "cms/" in front exactly for a main-application model |
| Accessors.FormMainAppPrefix | app/models/cms/content_type.rb:112-114 | the main-application partial is the other partial with "cms/" in front |
| Accessors.FormDefault | app/models/cms/content_type.rb:111 | without an override, an engine partial equals the pluralised, underscored name followed by "/form", so it starts with that name and ends with "/form" |
| Accessors.DisplayName | app/models/cms/content_type.rb:118-120 | defined exactly when the class resolves; the class's own display name when it has one, otherwise the default naming of the class |
| Accessors.DisplayNamePlural | app/models/cms/content_type.rb:122-124 | defined exactly when the class resolves; the class's own plural when it has one, otherwise the pluralised display name |
| Accessors.DisplayNamePluralFollowsSingular | app/models/cms/content_type.rb:122-124 | without a plural override the plural is the pluralised display name, including a display name the class overrides |
| Accessors.Key | app/models/cms/content_type.rb:105-107 | defined exactly when the class resolves, and then the element name of the class's model name |
| Accessors.RouteName | app/models/cms/content_type.rb:131-137 | the route is the key exactly when the class name starts with "Cms"; otherwise it is "main_app.cms_" followed by the key |
| Accessors.RouteNameCmsLetters | app/models/cms/content_type.rb:132 | the test is on the letters "Cms", so a class `CmsWidget` is routed like an engine class |
| Accessors.HumanizeColumn | app/models/cms/content_type.rb:164 | a bare String becomes a labelled column calling itself, with no order; any other column is returned unchanged; the result is never a bare String |
| Accessors.HumanizeAll | app/models/cms/content_type.rb:163-165 | same length and order; each bare String column becomes a labelled column with its humanized label and itself as the method, and every other column passes through unchanged |
| Accessors.HumanizeAllIdempotent | app/models/cms/content_type.rb:163-165 | no bare String is left after the map, and mapping again changes nothing |
| Accessors.DefaultColumns | app/models/cms/content_type.rb:167-168 | exactly two columns: `:name` ordered by "name", then `:updated_on_string` ordered by "updated_at" |
| Accessors.ColumnsForIndex | app/models/cms/content_type.rb:161-170 | defined exactly when the class resolves; the two default columns without an override, otherwise the class's columns mapped in order by HumanizeAll; never a bare String |
| Accessors.ContentBlockType | app/models/cms/content_type.rb:173-175 | for a name with no ':' at all, the underscored plural of the whole name |
| Accessors.ContentBlockTypeIgnoresNamespace | app/models/cms/content_type.rb:173-175 | a name `p::X` has the content block type of the bare `X` (`Cms::HtmlBlock` and `HtmlBlock` share one), whatever the namespace |
| Accessors.ContentBlockTypeForList | app/models/cms/content_type.rb:180-186 | defined exactly when the class resolves; the class's own list type when it has one, otherwise the content block type |
| Accessors.AccessorsDefinedOnAvailable | app/models/cms/content_type.rb:41-52 | for every available content type, none of the accessors raises NameError |
| Grouping.FindOrBuild | app/models/cms/content_type.rb:190-191 | the group has the name; it is the first stored group of that name when one exists, and only otherwise a new, unsaved group |
| Grouping.FindOrBuildStable | app/models/cms/content_type.rb:190-191 | once a group of that name is stored, groups stored later do not change the binding |
| Grouping.ContentTypeRecord.constructor | app/models/cms/content_type.rb:4-5 | a record with a name, a group name and no group bound |
| Grouping.ContentTypeRecord.SetContentTypeGroup | app/models/cms/content_type.rb:188-193 | with a group name, binds the group found or built for it, whose name is the group name; without one, leaves the group unchanged |
| Grouping.ContentTypeRecord.Validate | app/models/cms/content_type.rb:4-7 | the hook runs first: name and group name are kept, and the group bound is the one found or built for the group name, or the old one without a group name; validation passes exactly when a group is bound, so always when a group name was given |

## Left out

- **Reflection.** `ObjectSpace.each_object` and `constantize` become a finite sequence of class descriptors. The subclass tests are flags on each descriptor, and `WellFormed` states what the class graph guarantees about them.
- Lookup.BuiltPortlet: `find_by_name('Core')` (app/models/cms/content_type.rb:80) is a dynamic finder with no ORDER BY, so when several groups are called "Core" the database may return any of them. The model takes it to be the first stored one (`FindGroup`, as `where(...).first` gives); which of several "Core" groups Ruby binds is not captured.
- Model.Constantize: when several loaded classes share a name, the model resolves the name to the first one in discovery order. Ruby's `constantize` returns the class the constant is bound to now, and `each_object` yields classes in no promised order. A reloaded class and its stale predecessor, the duplicates `uniq!` removes, may come in either order. The model does not capture which of two same-named classes Ruby picks; with unique names (`UniqueClassNames`) the two agree (ConstantizeUnique).
- **Opting out of `available`.** A content type opts out with `acts_as_content content_module: false`. `available` (`content_type.rb:41-52`) never reads `content_module`; the opt-out is decided by code outside this file. The model takes an opted-out class as one with `hasContentType` false, and does not model how `acts_as_content` arranges that.
- **Anonymous classes.** Every class descriptor has a name. In Ruby an anonymous class that includes `HasContentType` has a nil name, and `nil <=> String` is nil, so the sort in `available` raises ArgumentError. That error path is not modelled.
- **Unresolved names.** A name that does not resolve raises NameError in Ruby. Outside `find_by_key`, the accessors give `None` for it, and `connectable?` (`Listing.IsConnectable`) and `module_name` (`ByModule.ModuleName`) give false and nil. Listing.AvailableEntries proves that no available content type is such a name.
- **Queries.** `named` and `list` (`content_type.rb:12-14`, `54-56`) are database queries and are not modelled. `where(...).first` becomes the first match in a sequence kept in primary-key order.
- **SQL `LIKE`.** `LIKE '%X'` becomes a suffix test. Wildcards inside `X` and case-insensitive collations are not modelled.
- **Inflections.** `tableize`, `classify`, `underscore`, `pluralize`, `humanize`, `model_name.element` and `Connecting.default_naming_for` are uninterpreted functions. Their rules are library code. `demodulize` is written out (`Strings.Demodulize`), after ActiveSupport's `rindex("::")` definition.
- Lookup.FindByKey: requires `RetryShortens`: whenever the class name tried for a key starts with `Cms::`, the class name tried after removing every `Cms::` is shorter. This is what makes the retry chain finite. It holds for the usual class names, where the retry drops five characters and `classify(tableize(_))` gives back a name of about the same length. Ruby does not promise it for every string, so for an inflector under which a retry does not shorten the name, the result of `find_by_key` is not modelled; the Ruby method may then recurse without end. The four lemmas about `find_by_key` carry the same requirement.
- **Exceptions.** `rescue Exception` also catches errors raised by the database or the inflections. Only the three failures of the code itself (NameError, "Not a Portlet", NotFound) are modelled.
- **`main_app_model?`.** It comes from `EngineHelper`, which is not part of this model, so it is a boolean parameter of `Accessors.Form`.
- **`freeze`.** It is a flag on the returned value. Writes that Ruby would refuse on a frozen object are not modelled.
- **Persistence.** `build_content_type_group` builds an unsaved group (`id` is `None`); saving it together with the content type is not modelled.
- **`target_class` and `path_subject`.** They (`content_type.rb:141-147`) return `model_class`, which is `Model.Constantize`. They are not modelled separately.
- **`available`'s local array.** It is changed in place by `<<` and `uniq!`. It is modelled on values, since the array is local and never shared.
- **Ruby `Hash`.** The hash is a sequence of buckets in insertion order, which Ruby preserves.
- **Sort stability.** Ruby's sort is not stable and may order entries with equal names differently. Names in `available` are unique, so the sorted result is the same (Sorting.SortedIsUnique).
