/** `ContentType.available_by_module`: the available content types grouped
    by the module their class names. A Ruby Hash keeps its keys in
    insertion order, so it is modelled as a sequence of buckets. */
module ByModule {
  import opened Model
  import opened Listing

  /** One entry of the hash: a module name (nil when the class names no
      module) and the content types grouped under it. */
  datatype Bucket = Bucket(moduleName: Option<string>, members: seq<ContentType>)

  /** `content_type.module_name`: the model class's `content_module`. A
      name that does not resolve raises in Ruby; no available type is such
      a name (AvailableEntries). */
  function ModuleName(classes: seq<ClassDesc>, ct: ContentType): (m: Option<string>)
    ensures Constantize(classes, ct.name).Some? ==> m == Constantize(classes, ct.name).value.contentModule
    ensures Constantize(classes, ct.name).None? ==> m.None?
    ensures m.Some? ==> exists k :: k in classes && k.name == ct.name && k.contentModule == m
  {
    match Constantize(classes, ct.name)
    case Some(k) => k.contentModule
    case None => None
  }

  function Keys(buckets: seq<Bucket>): (r: seq<Option<string>>)
    ensures |r| == |buckets| && forall i :: 0 <= i < |buckets| ==> r[i] == buckets[i].moduleName
  {
    if buckets == [] then [] else Keys(buckets[..|buckets| - 1]) + [buckets[|buckets| - 1].moduleName]
  }

  /** The total number of grouped content types. */
  function Size(buckets: seq<Bucket>): nat
  {
    if buckets == [] then 0 else Size(buckets[..|buckets| - 1]) + |buckets[|buckets| - 1].members|
  }

  /** The position of the bucket keyed `m`. */
  function KeyIndex(buckets: seq<Bucket>, m: Option<string>): (i: nat)
    requires m in Keys(buckets)
    ensures i < |buckets| && buckets[i].moduleName == m
    ensures forall j :: 0 <= j < i ==> buckets[j].moduleName != m
  {
    if buckets[0].moduleName == m then 0
    else
      assert m in Keys(buckets[1..]) by {
        var k :| 0 <= k < |buckets| && Keys(buckets)[k] == m;
        assert Keys(buckets[1..])[k - 1] == m;
      }
      1 + KeyIndex(buckets[1..], m)
  }

  /** The two statements of the loop body: create the bucket unless it
      exists, then append the content type to it. */
  function Place(buckets: seq<Bucket>, m: Option<string>, ct: ContentType): (r: seq<Bucket>)
    ensures Keys(r) == if m in Keys(buckets) then Keys(buckets) else Keys(buckets) + [m]
    ensures Size(r) == Size(buckets) + 1
  {
    if m in Keys(buckets) then
      var i := KeyIndex(buckets, m);
      var b := Bucket(m, buckets[i].members + [ct]);
      SizeUpdate(buckets, i, b);
      KeysUpdate(buckets, i, b);
      buckets[i := b]
    else
      var b := Bucket(m, [ct]);
      SizeAppend(buckets, b);
      KeysAppend(buckets, b);
      buckets + [b]
  }

  /** The hash the loop has built after the content types `s`. */
  function GroupBy(classes: seq<ClassDesc>, s: seq<ContentType>): (r: seq<Bucket>)
    ensures |r| <= |s|
  {
    if s == [] then []
    else Place(GroupBy(classes, s[..|s| - 1]), ModuleName(classes, s[|s| - 1]), s[|s| - 1])
  }

  /** The content types of `s` whose module is `m`, in order. */
  function InModule(classes: seq<ClassDesc>, m: Option<string>): ContentType -> bool
  {
    (ct: ContentType) => ModuleName(classes, ct) == m
  }

  /** No module appears twice. */
  predicate DistinctKeys(buckets: seq<Bucket>)
  {
    forall i, j :: 0 <= i < j < |buckets| ==> buckets[i].moduleName != buckets[j].moduleName
  }

  /** Every bucket is non-empty and holds exactly the content types of `s`
      in its module, in their order. */
  predicate ExactBuckets(classes: seq<ClassDesc>, s: seq<ContentType>, buckets: seq<Bucket>)
  {
    forall i :: 0 <= i < |buckets| ==>
      buckets[i].members != [] &&
      buckets[i].members == Filter(s, InModule(classes, buckets[i].moduleName))
  }

  /** Every content type of `s` has a bucket for its module. */
  predicate Covers(classes: seq<ClassDesc>, s: seq<ContentType>, buckets: seq<Bucket>)
  {
    forall ct :: ct in s ==> ModuleName(classes, ct) in Keys(buckets)
  }

  /** What it means to group `s` by module: one bucket per module, in order
      of first appearance, each bucket non-empty and holding exactly the
      content types of its module in their order. */
  predicate Partitions(classes: seq<ClassDesc>, s: seq<ContentType>, buckets: seq<Bucket>)
  {
    DistinctKeys(buckets) && ExactBuckets(classes, s, buckets) && Covers(classes, s, buckets)
  }

  lemma SizeUpdate(buckets: seq<Bucket>, i: nat, b: Bucket)
    requires i < |buckets|
    ensures Size(buckets[i := b]) == Size(buckets) - |buckets[i].members| + |b.members|
    decreases |buckets|
  {
    if i < |buckets| - 1 {
      var init := buckets[..|buckets| - 1];
      assert buckets[i := b][..|buckets| - 1] == init[i := b];
      SizeUpdate(init, i, b);
    } else {
      assert buckets[i := b][..|buckets| - 1] == buckets[..|buckets| - 1];
    }
  }

  lemma SizeAppend(buckets: seq<Bucket>, b: Bucket)
    ensures Size(buckets + [b]) == Size(buckets) + |b.members|
  {
    assert (buckets + [b])[..|buckets|] == buckets;
  }

  lemma KeysUpdate(buckets: seq<Bucket>, i: nat, b: Bucket)
    requires i < |buckets| && b.moduleName == buckets[i].moduleName
    ensures Keys(buckets[i := b]) == Keys(buckets)
  {
  }

  lemma KeysAppend(buckets: seq<Bucket>, b: Bucket)
    ensures Keys(buckets + [b]) == Keys(buckets) + [b.moduleName]
  {
  }

  lemma PlaceDistinct(buckets: seq<Bucket>, m: Option<string>, ct: ContentType)
    requires DistinctKeys(buckets)
    ensures DistinctKeys(Place(buckets, m, ct))
  {
    if m !in Keys(buckets) {
      forall i | 0 <= i < |buckets|
        ensures buckets[i].moduleName != m
      {
        assert Keys(buckets)[i] == buckets[i].moduleName;
      }
    }
  }

  lemma PlaceCovers(classes: seq<ClassDesc>, s: seq<ContentType>, buckets: seq<Bucket>, ct: ContentType)
    requires Covers(classes, s, buckets)
    ensures Covers(classes, s + [ct], Place(buckets, ModuleName(classes, ct), ct))
  {
    var m := ModuleName(classes, ct);
    var r := Place(buckets, m, ct);
    assert Keys(r) == if m in Keys(buckets) then Keys(buckets) else Keys(buckets) + [m];
    forall x | x in s + [ct]
      ensures ModuleName(classes, x) in Keys(r)
    {
      if x == ct {
        assert m in Keys(r);
      } else {
        assert x in s;
        assert ModuleName(classes, x) in Keys(buckets);
      }
    }
  }

  /** Appending `ct` to the input adds `ct` to the filter of its own
      module and to no other. */
  lemma InModuleAppend(classes: seq<ClassDesc>, s: seq<ContentType>, ct: ContentType, key: Option<string>)
    ensures Filter(s + [ct], InModule(classes, key)) ==
            Filter(s, InModule(classes, key)) + (if ModuleName(classes, ct) == key then [ct] else [])
  {
    FilterAppend(s, ct, InModule(classes, key));
  }

  lemma PlaceExactExisting(classes: seq<ClassDesc>, s: seq<ContentType>, buckets: seq<Bucket>, ct: ContentType)
    requires DistinctKeys(buckets) && ExactBuckets(classes, s, buckets)
    requires ModuleName(classes, ct) in Keys(buckets)
    ensures ExactBuckets(classes, s + [ct], Place(buckets, ModuleName(classes, ct), ct))
  {
    var m := ModuleName(classes, ct);
    var k := KeyIndex(buckets, m);
    var r := Place(buckets, m, ct);
    assert r == buckets[k := Bucket(m, buckets[k].members + [ct])];
    forall i | 0 <= i < |r|
      ensures r[i].members != [] && r[i].members == Filter(s + [ct], InModule(classes, r[i].moduleName))
    {
      InModuleAppend(classes, s, ct, buckets[i].moduleName);
      if i != k {
        assert buckets[i].moduleName != m;
      }
    }
  }

  lemma PlaceExactNew(classes: seq<ClassDesc>, s: seq<ContentType>, buckets: seq<Bucket>, ct: ContentType)
    requires ExactBuckets(classes, s, buckets) && Covers(classes, s, buckets)
    requires ModuleName(classes, ct) !in Keys(buckets)
    ensures ExactBuckets(classes, s + [ct], Place(buckets, ModuleName(classes, ct), ct))
  {
    var m := ModuleName(classes, ct);
    var r := Place(buckets, m, ct);
    assert r == buckets + [Bucket(m, [ct])];
    forall i | 0 <= i < |buckets|
      ensures buckets[i].moduleName != m
    {
      assert Keys(buckets)[i] == buckets[i].moduleName;
    }
    assert Filter(s, InModule(classes, m)) == [] by {
      forall x | x in s
        ensures !InModule(classes, m)(x)
      {
      }
    }
    forall i | 0 <= i < |r|
      ensures r[i].members != [] && r[i].members == Filter(s + [ct], InModule(classes, r[i].moduleName))
    {
      InModuleAppend(classes, s, ct, r[i].moduleName);
    }
  }

  /** One step of the loop keeps the grouping a partition of what has been
      seen. */
  lemma PlacePartitions(classes: seq<ClassDesc>, s: seq<ContentType>, buckets: seq<Bucket>, ct: ContentType)
    requires Partitions(classes, s, buckets)
    ensures Partitions(classes, s + [ct], Place(buckets, ModuleName(classes, ct), ct))
  {
    PlaceDistinct(buckets, ModuleName(classes, ct), ct);
    PlaceCovers(classes, s, buckets, ct);
    if ModuleName(classes, ct) in Keys(buckets) {
      PlaceExactExisting(classes, s, buckets, ct);
    } else {
      PlaceExactNew(classes, s, buckets, ct);
    }
  }

  /** A non-empty list is its front followed by its last entry. */
  lemma SplitLast(s: seq<ContentType>)
    requires s != []
    ensures s == s[..|s| - 1] + [s[|s| - 1]]
  {
  }

  /** One more content type keeps the grouping a partition. */
  lemma GroupBySnocPartitions(classes: seq<ClassDesc>, init: seq<ContentType>, last: ContentType)
    requires Partitions(classes, init, GroupBy(classes, init))
    ensures Partitions(classes, init + [last], GroupBy(classes, init + [last]))
  {
    assert (init + [last])[..|init|] == init;
    PlacePartitions(classes, init, GroupBy(classes, init), last);
  }

  /** Grouping a list of content types by module partitions it. */
  lemma {:induction false} GroupByPartitions(classes: seq<ClassDesc>, s: seq<ContentType>)
    ensures Partitions(classes, s, GroupBy(classes, s))
  {
    if s != [] {
      var init, last := s[..|s| - 1], s[|s| - 1];
      SplitLast(s);
      GroupByPartitions(classes, init);
      GroupBySnocPartitions(classes, init, last);
    }
  }

  /** No content type is lost or duplicated: the buckets hold exactly as
      many content types as were grouped. */
  lemma {:induction false} GroupBySize(classes: seq<ClassDesc>, s: seq<ContentType>)
    ensures Size(GroupBy(classes, s)) == |s|
  {
    if s != [] {
      var b := GroupBy(classes, s[..|s| - 1]);
      var m := ModuleName(classes, s[|s| - 1]);
      GroupBySize(classes, s[..|s| - 1]);
      if m in Keys(b) {
        var k := KeyIndex(b, m);
        SizeUpdate(b, k, Bucket(m, b[k].members + [s[|s| - 1]]));
      } else {
        SizeAppend(b, Bucket(m, [s[|s| - 1]]));
      }
    }
  }

  /** The hash after one more content type. */
  lemma GroupByStep(classes: seq<ClassDesc>, a: seq<ContentType>, i: nat)
    requires i < |a|
    ensures GroupBy(classes, a[..i + 1]) == Place(GroupBy(classes, a[..i]), ModuleName(classes, a[i]), a[i])
  {
    assert a[..i + 1][..i] == a[..i];
  }

  /** A bucket created empty is the last one, and it is where the content
      type then goes. */
  lemma NewBucket(buckets: seq<Bucket>, m: Option<string>, ct: ContentType)
    requires m !in Keys(buckets)
    ensures m in Keys(buckets + [Bucket(m, [])])
    ensures KeyIndex(buckets + [Bucket(m, [])], m) == |buckets|
    ensures (buckets + [Bucket(m, [])])[|buckets| := Bucket(m, [] + [ct])] == Place(buckets, m, ct)
  {
    var b := buckets + [Bucket(m, [])];
    KeysAppend(buckets, Bucket(m, []));
    assert Keys(b)[|buckets|] == m;
    var k := KeyIndex(b, m);
    assert k == |buckets|;
    var ms: seq<ContentType> := [];
    assert ms + [ct] == [ct];
    assert b[k := Bucket(m, ms + [ct])] == buckets + [Bucket(m, [ct])];
  }

  /** The hash `available_by_module` returns groups every available content
      type under its module, one non-empty bucket per module, with nothing
      lost or repeated. */
  lemma AvailableGrouping(classes: seq<ClassDesc>)
    requires WellFormed(classes)
    ensures Partitions(classes, Available(classes), GroupBy(classes, Available(classes)))
    ensures Size(GroupBy(classes, Available(classes))) == |Available(classes)|
  {
    GroupByPartitions(classes, Available(classes));
    GroupBySize(classes, Available(classes));
  }

  /** The body of the loop for one content type `ct` of module `m`:
      `modules[m] = [] unless modules[m]`, then `modules[m] << ct`. */
  method AddToModule(modules: seq<Bucket>, m: Option<string>, ct: ContentType) returns (r: seq<Bucket>)
    ensures r == Place(modules, m, ct)
  {
    r := modules;
    if m !in Keys(r) {
      NewBucket(r, m, ct);
      r := r + [Bucket(m, [])];
    }
    var k := KeyIndex(r, m);
    r := r[k := Bucket(m, r[k].members + [ct])];
  }

  /** `ContentType.available_by_module`: builds the hash one content type
      at a time and returns exactly the grouping GroupBy describes, whose
      properties AvailableGrouping states. */
  method AvailableByModule(classes: seq<ClassDesc>) returns (modules: seq<Bucket>)
    requires WellFormed(classes)
    ensures modules == GroupBy(classes, Available(classes))
  {
    var available := Available(classes);
    modules := [];
    for i := 0 to |available|
      invariant modules == GroupBy(classes, available[..i])
    {
      var ct := available[i];
      GroupByStep(classes, available, i);
      modules := AddToModule(modules, ModuleName(classes, ct), ct);
    }
    assert available[..|available|] == available;
  }
}
