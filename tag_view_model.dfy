/**
 * `TagViewModel.GetViewModels`: a taxonomy's tags, flattened into a list of view models by a
 * depth-first walk from the root (parent ID 0), siblings ordered by `Order`, each tag at its
 * depth as `Level`.
 *
 * The walk is specified by `Walk`, which yields for each emitted tag its chain of ancestors
 * from a root tag down to the tag itself: the tag is the chain's last element and its level is
 * the chain's length minus one.
 */
module TagTree {
  import opened Wrappers
  import opened Seqs

  /** The tag fields the walk reads; `identifier` is the tag's GUID. */
  datatype Tag = Tag(id: int, parentId: int, order: int, title: string, identifier: string)

  /** `TagViewModel(Name, Level, Value, IsChecked = false)`. */
  datatype TagViewModel = TagViewModel(name: string, level: int, value: string, isChecked: bool)

  /** `ROOT_TAG_ID`: the parent ID of the first-level tags, and the level they are shown at. */
  const RootTagId := 0

  /** `GetViewModel`: the tag's title and identifier at the given level, unchecked. */
  function GetViewModel(tag: Tag, level: int): (r: TagViewModel)
    ensures r.name == tag.title && r.value == tag.identifier && r.level == level && !r.isChecked
  {
    TagViewModel(tag.title, level, tag.identifier, false)
  }

  // ---------------------------------------------------------------------------------------
  // Well-formed input

  /** No two tags share an ID. */
  predicate UniqueIds(tags: seq<Tag>)
  {
    forall i, j :: 0 <= i < j < |tags| ==> tags[i].id != tags[j].id
  }

  /** No tag has the root's ID. */
  predicate NonRootIds(tags: seq<Tag>)
  {
    forall i :: 0 <= i < |tags| ==> tags[i].id != RootTagId
  }

  /** The walk terminates for such tags: every tag is reached at most once. */
  predicate WellFormed(tags: seq<Tag>)
  {
    UniqueIds(tags) && NonRootIds(tags)
  }

  // ---------------------------------------------------------------------------------------
  // Grouping by parent and ordering siblings

  function IsChildOf(parentId: int): Tag -> bool
  {
    (t: Tag) => t.parentId == parentId
  }

  /**
   * `tags.GroupBy(tag => tag.ParentID).ToDictionary(...)`: for each parent ID that occurs, the
   * tags with that parent in input order.
   */
  function GroupByParent(tags: seq<Tag>): (byParent: map<int, seq<Tag>>)
    ensures forall parentId :: parentId in byParent <==> Filter(IsChildOf(parentId), tags) != []
    ensures forall parentId :: parentId in byParent ==> byParent[parentId] == Filter(IsChildOf(parentId), tags)
  {
    if tags == [] then map[]
    else
      var prefix := tags[..|tags| - 1];
      var t := tags[|tags| - 1];
      var before := GroupByParent(prefix);
      assert tags == prefix + [t];
      forall parentId ensures Filter(IsChildOf(parentId), tags) ==
        Filter(IsChildOf(parentId), prefix) + (if t.parentId == parentId then [t] else []) {
        FilterSnoc(IsChildOf(parentId), prefix, t);
      }
      before[t.parentId := (if t.parentId in before then before[t.parentId] else []) + [t]]
  }

  /** `TryGetValue` on the grouping, with an empty list for a missing key. */
  function ChildrenLookup(byParent: map<int, seq<Tag>>, parentId: int): seq<Tag>
  {
    if parentId in byParent then byParent[parentId] else []
  }

  /** Siblings sorted by `Order`: each is at most the next. */
  predicate SortedByOrder(s: seq<Tag>)
  {
    forall i, j :: 0 <= i < j < |s| ==> s[i].order <= s[j].order
  }

  /** Insert `x` before the first element whose order is not smaller: after all smaller ones, before its equals. */
  function InsertByOrder(x: Tag, s: seq<Tag>): (r: seq<Tag>)
    ensures multiset(r) == multiset(s) + multiset{x}
  {
    if s == [] || x.order <= s[0].order then [x] + s
    else
      assert s == [s[0]] + s[1..];
      [s[0]] + InsertByOrder(x, s[1..])
  }

  lemma {:induction false} InsertKeepsSorted(x: Tag, s: seq<Tag>)
    requires SortedByOrder(s)
    ensures SortedByOrder(InsertByOrder(x, s))
  {
    if s != [] && x.order > s[0].order {
      InsertKeepsSorted(x, s[1..]);
      var rest := InsertByOrder(x, s[1..]);
      forall k | 0 <= k < |rest|
        ensures s[0].order <= rest[k].order
      {
        assert rest[k] in multiset(rest);
        assert rest[k] == x || rest[k] in s[1..];
      }
    }
  }

  /**
   * `OrderBy(tag => tag.Order)`, a stable sort, as an insertion sort that inserts each element
   * in front of the equal ones sorted after it.
   */
  function SortByOrder(s: seq<Tag>): (r: seq<Tag>)
    ensures multiset(r) == multiset(s)
    ensures SortedByOrder(r)
  {
    if s == [] then []
    else
      assert s == [s[0]] + s[1..];
      InsertKeepsSorted(s[0], SortByOrder(s[1..]));
      InsertByOrder(s[0], SortByOrder(s[1..]))
  }

  function HasOrder(order: int): Tag -> bool
  {
    (t: Tag) => t.order == order
  }

  /** Inserting `x` puts it in front of the elements of the same order. */
  lemma {:induction false} InsertIsStable(x: Tag, s: seq<Tag>, order: int)
    ensures Filter(HasOrder(order), InsertByOrder(x, s)) ==
            (if x.order == order then [x] else []) + Filter(HasOrder(order), s)
  {
    if s != [] && x.order > s[0].order {
      InsertIsStable(x, s[1..], order);
      assert ([s[0]] + InsertByOrder(x, s[1..]))[1..] == InsertByOrder(x, s[1..]);
    } else {
      assert ([x] + s)[1..] == s;
    }
  }

  /** The sort is stable: the elements of each order keep their relative input order. */
  lemma {:induction false} SortIsStable(s: seq<Tag>, order: int)
    ensures Filter(HasOrder(order), SortByOrder(s)) == Filter(HasOrder(order), s)
  {
    if s != [] {
      SortIsStable(s[1..], order);
      InsertIsStable(s[0], SortByOrder(s[1..]), order);
    }
  }

  /** Sorting keeps the elements. */
  lemma SortMembership(s: seq<Tag>, x: Tag)
    ensures x in SortByOrder(s) <==> x in s
  {
    assert x in SortByOrder(s) <==> x in multiset(SortByOrder(s));
    assert x in s <==> x in multiset(s);
  }

  /** The children of a tag in the order the walk visits them. */
  function Children(tags: seq<Tag>, parentId: int): seq<Tag>
  {
    SortByOrder(Filter(IsChildOf(parentId), tags))
  }

  lemma ChildrenMembership(tags: seq<Tag>, parentId: int, t: Tag)
    ensures t in Children(tags, parentId) <==> t in tags && t.parentId == parentId
  {
    var unsorted := Filter(IsChildOf(parentId), tags);
    FilterMembership(IsChildOf(parentId), tags, t);
    assert t in Children(tags, parentId) <==> t in multiset(Children(tags, parentId));
    assert t in unsorted <==> t in multiset(unsorted);
  }

  // ---------------------------------------------------------------------------------------
  // Chains of ancestors

  /** A path from a root tag down through the tags, each the parent of the next. */
  predicate IsChain(tags: seq<Tag>, path: seq<Tag>)
  {
    && (forall i :: 0 <= i < |path| ==> path[i] in tags)
    && (|path| > 0 ==> path[0].parentId == RootTagId)
    && (forall i :: 0 < i < |path| ==> path[i].parentId == path[i - 1].id)
  }

  /** The parent ID of the tags whose chain extends `path`. */
  function ParentIdOf(path: seq<Tag>): int
  {
    if path == [] then RootTagId else path[|path| - 1].id
  }

  /** Two different tags of the input have different IDs. */
  lemma DistinctTagsDistinctIds(tags: seq<Tag>, a: Tag, b: Tag)
    requires UniqueIds(tags) && a in tags && b in tags && a != b
    ensures a.id != b.id
  {
    var i :| 0 <= i < |tags| && tags[i] == a;
    var j :| 0 <= j < |tags| && tags[j] == b;
    assert i < j || j < i;
  }

  /** The tags of a chain have distinct IDs: a walk down parent links never comes back. */
  lemma {:induction false} ChainIdsDistinct(tags: seq<Tag>, path: seq<Tag>, i: nat, j: nat)
    requires WellFormed(tags) && IsChain(tags, path)
    requires i < j < |path|
    ensures path[i].id != path[j].id
    decreases i
  {
    var k :| 0 <= k < |tags| && tags[k] == path[j - 1];
    if i > 0 {
      ChainIdsDistinct(tags, path, i - 1, j - 1);
    }
    assert path[i].parentId != path[j].parentId;
    DistinctTagsDistinctIds(tags, path[i], path[j]);
  }

  /** A chain extended by a child of its last tag is a chain that did not contain that child. */
  lemma ChainExtends(tags: seq<Tag>, path: seq<Tag>, t: Tag)
    requires WellFormed(tags) && IsChain(tags, path)
    requires t in tags && t.parentId == ParentIdOf(path)
    ensures IsChain(tags, path + [t])
    ensures t !in path
  {
    var longer := path + [t];
    assert IsChain(tags, longer);
    if t in path {
      var i :| 0 <= i < |path| && path[i] == t;
      ChainIdsDistinct(tags, longer, i, |path|);
    }
  }

  /** The tags not on a chain: what the walk below its end can still visit. */
  function Unvisited(tags: seq<Tag>, path: seq<Tag>): set<Tag>
  {
    set t | t in tags && t !in path
  }

  /** The siblings handed to one call of the walk: tags whose parent is the chain's last tag. */
  predicate AreChildrenOf(tags: seq<Tag>, path: seq<Tag>, siblings: seq<Tag>)
  {
    forall s :: s in siblings ==> s in tags && s.parentId == ParentIdOf(path)
  }

  lemma ChildrenAreChildren(tags: seq<Tag>, path: seq<Tag>, t: Tag)
    ensures AreChildrenOf(tags, path + [t], Children(tags, t.id))
  {
    forall s | s in Children(tags, t.id)
      ensures s in tags && s.parentId == ParentIdOf(path + [t])
    {
      ChildrenMembership(tags, t.id, s);
    }
  }

  /**
   * Descending to a child of the chain's last tag: the longer chain, the unsorted children
   * below it, and fewer tags left to visit.
   */
  lemma ChildStep(tags: seq<Tag>, path: seq<Tag>, t: Tag)
    requires WellFormed(tags) && IsChain(tags, path)
    requires t in tags && t.parentId == ParentIdOf(path)
    ensures IsChain(tags, path + [t])
    ensures AreChildrenOf(tags, path + [t], Filter(IsChildOf(t.id), tags))
    ensures Unvisited(tags, path + [t]) < Unvisited(tags, path)
  {
    ChainExtends(tags, path, t);
    forall s | s in Filter(IsChildOf(t.id), tags)
      ensures s in tags && s.parentId == ParentIdOf(path + [t])
    {
      FilterMembership(IsChildOf(t.id), tags, s);
    }
    assert t in Unvisited(tags, path);
  }

  // ---------------------------------------------------------------------------------------
  // The walk

  /** Every chain has more than `n` tags. */
  predicate LongerThan(chains: seq<seq<Tag>>, n: nat)
  {
    forall i :: 0 <= i < |chains| ==> |chains[i]| > n
  }

  lemma LongerThanAppend(a: seq<seq<Tag>>, b: seq<seq<Tag>>, n: nat)
    requires LongerThan(a, n) && LongerThan(b, n)
    ensures LongerThan(a + b, n)
  {
    forall i | 0 <= i < |a + b|
      ensures |(a + b)[i]| > n
    {
      if i >= |a| {
        assert (a + b)[i] == b[i - |a|];
      }
    }
  }

  /**
   * `GetTagsWithTagViewModels(siblings, |path|)` below the chain `path`: for each sibling in
   * turn, its chain, then the walk over its children.
   */
  function Walk(tags: seq<Tag>, path: seq<Tag>, siblings: seq<Tag>): (chains: seq<seq<Tag>>)
    requires WellFormed(tags) && IsChain(tags, path) && AreChildrenOf(tags, path, siblings)
    ensures LongerThan(chains, |path|)
    decreases Unvisited(tags, path), |siblings|
  {
    if siblings == [] then []
    else
      var t := siblings[0];
      ChainExtends(tags, path, t);
      ChildrenAreChildren(tags, path, t);
      assert Unvisited(tags, path + [t]) < Unvisited(tags, path) by {
        assert t in Unvisited(tags, path);
      }
      var below := Walk(tags, path + [t], Children(tags, t.id));
      var later := Walk(tags, path, siblings[1..]);
      LongerThanAppend([path + [t]], below, |path|);
      LongerThanAppend([path + [t]] + below, later, |path|);
      [path + [t]] + below + later
  }

  /** The walk over the given tags below `path`, sorted by `Order` first. */
  function WalkOver(tags: seq<Tag>, path: seq<Tag>, levelTags: seq<Tag>): (chains: seq<seq<Tag>>)
    requires WellFormed(tags) && IsChain(tags, path) && AreChildrenOf(tags, path, levelTags)
    ensures LongerThan(chains, |path|)
  {
    forall x | x in SortByOrder(levelTags)
      ensures x in tags && x.parentId == ParentIdOf(path)
    {
      SortMembership(levelTags, x);
    }
    Walk(tags, path, SortByOrder(levelTags))
  }

  /** The view models of the chains the walk yields. */
  function ViewModelsOf(chains: seq<seq<Tag>>): (r: seq<TagViewModel>)
    requires LongerThan(chains, 0)
    ensures |r| == |chains|
    ensures forall i :: 0 <= i < |r| ==> r[i] == GetViewModel(chains[i][|chains[i]| - 1], |chains[i]| - 1)
  {
    if chains == [] then []
    else [GetViewModel(chains[0][|chains[0]| - 1], |chains[0]| - 1)] + ViewModelsOf(chains[1..])
  }

  lemma ViewModelsAppend(a: seq<seq<Tag>>, b: seq<seq<Tag>>)
    requires LongerThan(a, 0) && LongerThan(b, 0)
    ensures LongerThan(a + b, 0)
    ensures ViewModelsOf(a + b) == ViewModelsOf(a) + ViewModelsOf(b)
  {
    LongerThanAppend(a, b, 0);
    var whole := ViewModelsOf(a + b);
    var parts := ViewModelsOf(a) + ViewModelsOf(b);
    forall i | 0 <= i < |whole|
      ensures whole[i] == parts[i]
    {
      if i < |a| {
        assert (a + b)[i] == a[i];
      } else {
        assert (a + b)[i] == b[i - |a|];
      }
    }
  }

  /** The walk over the siblings from the `i`-th on: that sibling's chain, its subtree, the later siblings. */
  lemma WalkUnfold(tags: seq<Tag>, path: seq<Tag>, siblings: seq<Tag>, i: nat)
    requires WellFormed(tags) && IsChain(tags, path) && AreChildrenOf(tags, path, siblings)
    requires i < |siblings|
    ensures IsChain(tags, path + [siblings[i]])
    ensures AreChildrenOf(tags, path + [siblings[i]], Children(tags, siblings[i].id))
    ensures Walk(tags, path, siblings[i..]) ==
            [path + [siblings[i]]] + Walk(tags, path + [siblings[i]], Children(tags, siblings[i].id))
            + Walk(tags, path, siblings[i + 1..])
  {
    ChainExtends(tags, path, siblings[i]);
    ChildrenAreChildren(tags, path, siblings[i]);
    assert siblings[i..][0] == siblings[i] && siblings[i..][1..] == siblings[i + 1..];
  }

  /** One sibling's step of the walk: its own view model, its subtree's, then the later siblings'. */
  lemma WalkStep(tags: seq<Tag>, path: seq<Tag>, siblings: seq<Tag>, i: nat)
    requires WellFormed(tags) && IsChain(tags, path) && AreChildrenOf(tags, path, siblings)
    requires i < |siblings|
    ensures IsChain(tags, path + [siblings[i]])
    ensures AreChildrenOf(tags, path + [siblings[i]], Children(tags, siblings[i].id))
    ensures ViewModelsOf(Walk(tags, path, siblings[i..])) ==
            [GetViewModel(siblings[i], |path|)]
            + ViewModelsOf(Walk(tags, path + [siblings[i]], Children(tags, siblings[i].id)))
            + ViewModelsOf(Walk(tags, path, siblings[i + 1..]))
  {
    WalkUnfold(tags, path, siblings, i);
    var first := [path + [siblings[i]]];
    var below := Walk(tags, path + [siblings[i]], Children(tags, siblings[i].id));
    var later := Walk(tags, path, siblings[i + 1..]);
    ViewModelsAppend(first, below);
    ViewModelsAppend(first + below, later);
    assert ViewModelsOf(first) == [GetViewModel(siblings[i], |path|)];
  }

  /**
   * The local function `GetTagsWithTagViewModels(currentLevelTags, level)` below the chain
   * `path` of the tags whose children are `currentLevelTags`: appends to `result` the view
   * models of the walk over those tags in `Order`.
   */
  method GetTagsWithTagViewModels(tags: seq<Tag>, tagsByParentId: map<int, seq<Tag>>, ghost path: seq<Tag>,
                                  currentLevelTags: seq<Tag>, level: int, result: seq<TagViewModel>)
    returns (result': seq<TagViewModel>)
    requires WellFormed(tags) && IsChain(tags, path) && AreChildrenOf(tags, path, currentLevelTags)
    requires tagsByParentId == GroupByParent(tags) && level == |path|
    ensures result' == result + ViewModelsOf(WalkOver(tags, path, currentLevelTags))
    decreases Unvisited(tags, path)
  {
    var sorted := SortByOrder(currentLevelTags);
    forall x | x in sorted
      ensures x in tags && x.parentId == ParentIdOf(path)
    {
      SortMembership(currentLevelTags, x);
    }
    assert WalkOver(tags, path, currentLevelTags) == Walk(tags, path, sorted);
    result' := result;
    var i := 0;
    while i < |sorted|
      invariant 0 <= i <= |sorted|
      invariant result' + ViewModelsOf(Walk(tags, path, sorted[i..])) == result + ViewModelsOf(Walk(tags, path, sorted))
    {
      var tag := sorted[i];
      var children := ChildrenLookup(tagsByParentId, tag.id);
      ghost var before := result';
      WalkStep(tags, path, sorted, i);
      ghost var below := ViewModelsOf(Walk(tags, path + [tag], Children(tags, tag.id)));
      ghost var later := ViewModelsOf(Walk(tags, path, sorted[i + 1..]));
      assert children == Filter(IsChildOf(tag.id), tags);
      assert tag in tags && tag.parentId == ParentIdOf(path);
      ChildStep(tags, path, tag);
      result' := result' + [GetViewModel(tag, level)];
      result' := GetTagsWithTagViewModels(tags, tagsByParentId, path + [tag], children, level + 1, result');
      assert result' == before + [GetViewModel(tag, level)] + below;
      AppendAssociative(before + [GetViewModel(tag, level)], below, later);
      AppendAssociative(before, [GetViewModel(tag, level)] + below, later);
      AppendAssociative(before, [GetViewModel(tag, level)], below);
      i := i + 1;
    }
    assert sorted[i..] == [];
  }

  /** The chains of the whole flattening: the walk from the root over its children. */
  function Flattened(tags: seq<Tag>): (chains: seq<seq<Tag>>)
    requires WellFormed(tags)
    ensures LongerThan(chains, 0)
  {
    ChildrenAreRootChildren(tags);
    Walk(tags, [], Children(tags, RootTagId))
  }

  /**
   * `GetViewModels`: the view models of the walk from the root over its children, or nothing
   * when no tag has the root as parent.
   */
  method GetViewModels(tags: seq<Tag>) returns (result: seq<TagViewModel>)
    requires WellFormed(tags)
    ensures result == ViewModelsOf(Flattened(tags))
  {
    result := [];
    var tagsByParentId := GroupByParent(tags);
    ChildrenAreRootChildren(tags);
    if RootTagId in tagsByParentId {
      var firstLevelTags := tagsByParentId[RootTagId];
      result := GetTagsWithTagViewModels(tags, tagsByParentId, [], firstLevelTags, RootTagId, result);
    }
  }

  lemma ChildrenAreRootChildren(tags: seq<Tag>)
    ensures AreChildrenOf(tags, [], Filter(IsChildOf(RootTagId), tags))
    ensures AreChildrenOf(tags, [], Children(tags, RootTagId))
  {
    forall s | s in Filter(IsChildOf(RootTagId), tags)
      ensures s in tags && s.parentId == RootTagId
    {
      FilterMembership(IsChildOf(RootTagId), tags, s);
    }
    forall s | s in Children(tags, RootTagId)
      ensures s in tags && s.parentId == RootTagId
    {
      ChildrenMembership(tags, RootTagId, s);
    }
  }
}
