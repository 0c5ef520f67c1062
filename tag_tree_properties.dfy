/**
 * What the flattening of `TagViewModel.GetViewModels` promises, proved about the walk that
 * specifies it: exactly the tags reachable from the root are emitted, each once, each at its
 * depth, in pre-order, with siblings in ascending `Order` and ties in input order.
 */
module TagTreeProperties {
  import opened Seqs
  import opened TagTree

  /** The last tag of a chain: the tag a view model is made from. */
  function Last(chain: seq<Tag>): Tag
    requires chain != []
  {
    chain[|chain| - 1]
  }

  /** No element occurs twice. */
  predicate Distinct(s: seq<Tag>)
  {
    forall x, y :: 0 <= x < y < |s| ==> s[x] != s[y]
  }

  /** A chain the walk below `path` over `siblings` may yield: it extends `path` through one of them. */
  predicate ChainBelow(tags: seq<Tag>, path: seq<Tag>, siblings: seq<Tag>, chain: seq<Tag>)
  {
    IsChain(tags, chain) && |chain| > |path| && chain[..|path|] == path && chain[|path|] in siblings
  }

  /** The walk over the siblings: the first one's chain, its subtree, then the later siblings. */
  lemma WalkFirst(tags: seq<Tag>, path: seq<Tag>, siblings: seq<Tag>)
    requires WellFormed(tags) && IsChain(tags, path) && AreChildrenOf(tags, path, siblings)
    requires siblings != []
    ensures IsChain(tags, path + [siblings[0]])
    ensures AreChildrenOf(tags, path + [siblings[0]], Children(tags, siblings[0].id))
    ensures AreChildrenOf(tags, path, siblings[1..])
    ensures Unvisited(tags, path + [siblings[0]]) < Unvisited(tags, path)
    ensures Walk(tags, path, siblings) ==
            [path + [siblings[0]]] + Walk(tags, path + [siblings[0]], Children(tags, siblings[0].id))
            + Walk(tags, path, siblings[1..])
  {
    ChildStep(tags, path, siblings[0]);
    ChildrenAreChildren(tags, path, siblings[0]);
  }

  /** The three parts of `[first] + below + later`, by index. */
  lemma ConcatIndex(w: seq<seq<Tag>>, first: seq<Tag>, below: seq<seq<Tag>>, later: seq<seq<Tag>>, i: nat)
    requires w == [first] + below + later && i < |w|
    ensures |w| == 1 + |below| + |later|
    ensures i == 0 ==> w[i] == first
    ensures 0 < i <= |below| ==> w[i] == below[i - 1]
    ensures |below| < i ==> w[i] == later[i - 1 - |below|]
  {
  }

  /** Membership in `[first] + below + later`. */
  lemma InConcat(x: seq<Tag>, first: seq<Tag>, below: seq<seq<Tag>>, later: seq<seq<Tag>>)
    ensures x in [first] + below + later <==> x == first || x in below || x in later
  {
  }

  // ---------------------------------------------------------------------------------------
  // Soundness and completeness

  /** Every chain the walk yields is a chain of the input through one of the siblings. */
  lemma {:induction false} WalkSound(tags: seq<Tag>, path: seq<Tag>, siblings: seq<Tag>)
    requires WellFormed(tags) && IsChain(tags, path) && AreChildrenOf(tags, path, siblings)
    ensures forall i :: 0 <= i < |Walk(tags, path, siblings)| ==>
              ChainBelow(tags, path, siblings, Walk(tags, path, siblings)[i])
    decreases Unvisited(tags, path), |siblings|
  {
    if siblings != [] {
      var t := siblings[0];
      WalkFirst(tags, path, siblings);
      var below := Walk(tags, path + [t], Children(tags, t.id));
      var later := Walk(tags, path, siblings[1..]);
      WalkSound(tags, path + [t], Children(tags, t.id));
      WalkSound(tags, path, siblings[1..]);
      var w := Walk(tags, path, siblings);
      forall i | 0 <= i < |w|
        ensures ChainBelow(tags, path, siblings, w[i])
      {
        ConcatIndex(w, path + [t], below, later, i);
        if i == 0 {
          assert (path + [t])[..|path|] == path;
        } else if i <= |below| {
          var c := below[i - 1];
          assert c[..|path|] == c[..|path| + 1][..|path|];
        } else {
          var c := later[i - 1 - |below|];
          assert c[|path|] in siblings[1..];
        }
      }
    }
  }

  /** A chain through `t` that goes on below it goes through one of `t`'s children. */
  lemma ChainBelowChild(tags: seq<Tag>, path: seq<Tag>, t: Tag, chain: seq<Tag>)
    requires IsChain(tags, chain) && |chain| > |path| + 1 && chain[..|path|] == path && chain[|path|] == t
    ensures ChainBelow(tags, path + [t], Children(tags, t.id), chain)
  {
    var child := chain[|path| + 1];
    assert chain[..|path| + 1] == chain[..|path|] + [chain[|path|]];
    ChildrenMembership(tags, t.id, child);
  }

  /** Every chain of the input through one of the siblings is yielded by the walk. */
  lemma {:induction false} WalkComplete(tags: seq<Tag>, path: seq<Tag>, siblings: seq<Tag>, chain: seq<Tag>)
    requires WellFormed(tags) && IsChain(tags, path) && AreChildrenOf(tags, path, siblings)
    requires ChainBelow(tags, path, siblings, chain)
    ensures chain in Walk(tags, path, siblings)
    decreases Unvisited(tags, path), |siblings|
  {
    var t := siblings[0];
    WalkFirst(tags, path, siblings);
    var below := Walk(tags, path + [t], Children(tags, t.id));
    var later := Walk(tags, path, siblings[1..]);
    assert chain == path + [t] || chain in below || chain in later by {
      if chain[|path|] == t {
        if |chain| == |path| + 1 {
          assert chain == chain[..|path|] + [chain[|path|]];
        } else {
          ChainBelowChild(tags, path, t, chain);
          WalkComplete(tags, path + [t], Children(tags, t.id), chain);
        }
      } else {
        assert chain[|path|] in siblings[1..];
        WalkComplete(tags, path, siblings[1..], chain);
      }
    }
    InConcat(chain, path + [t], below, later);
  }

  // ---------------------------------------------------------------------------------------
  // No tag twice

  lemma DistinctCons(x: Tag, s: seq<Tag>)
    ensures Distinct([x] + s) <==> x !in s && Distinct(s)
  {
    var r := [x] + s;
    if x !in s && Distinct(s) {
      forall i, j | 0 <= i < j < |r|
        ensures r[i] != r[j]
      {
        if i > 0 {
          assert r[i] == s[i - 1] && r[j] == s[j - 1];
        } else {
          assert r[j] == s[j - 1];
        }
      }
    }
    if Distinct(r) {
      forall i, j | 0 <= i < j < |s|
        ensures s[i] != s[j]
      {
        assert s[i] == r[i + 1] && s[j] == r[j + 1];
      }
      forall k | 0 <= k < |s|
        ensures s[k] != x
      {
        assert s[k] == r[k + 1] && x == r[0];
        assert r[0] != r[k + 1];
      }
    }
  }

  lemma {:induction false} FilterDistinct(keep: Tag -> bool, s: seq<Tag>)
    requires Distinct(s)
    ensures Distinct(Filter(keep, s))
  {
    if s != [] {
      assert s == [s[0]] + s[1..];
      DistinctCons(s[0], s[1..]);
      FilterDistinct(keep, s[1..]);
      FilterMembership(keep, s[1..], s[0]);
      if keep(s[0]) {
        DistinctCons(s[0], Filter(keep, s[1..]));
      }
    }
  }

  lemma {:induction false} InsertDistinct(x: Tag, s: seq<Tag>)
    requires x !in s && Distinct(s)
    ensures Distinct(InsertByOrder(x, s))
  {
    if s == [] || x.order <= s[0].order {
      DistinctCons(x, s);
    } else {
      assert s == [s[0]] + s[1..];
      DistinctCons(s[0], s[1..]);
      InsertDistinct(x, s[1..]);
      var rest := InsertByOrder(x, s[1..]);
      assert s[0] !in multiset(rest);
      DistinctCons(s[0], rest);
    }
  }

  lemma {:induction false} SortDistinct(s: seq<Tag>)
    requires Distinct(s)
    ensures Distinct(SortByOrder(s))
  {
    if s != [] {
      assert s == [s[0]] + s[1..];
      DistinctCons(s[0], s[1..]);
      SortDistinct(s[1..]);
      SortMembership(s[1..], s[0]);
      InsertDistinct(s[0], SortByOrder(s[1..]));
    }
  }

  /** With unique IDs no tag is listed twice among a tag's children. */
  lemma ChildrenDistinct(tags: seq<Tag>, parentId: int)
    requires UniqueIds(tags)
    ensures Distinct(Children(tags, parentId))
  {
    FilterDistinct(IsChildOf(parentId), tags);
    SortDistinct(Filter(IsChildOf(parentId), tags));
  }

  /** The chains yielded below the first sibling and by the later siblings. */
  lemma WalkParts(tags: seq<Tag>, path: seq<Tag>, siblings: seq<Tag>)
    requires WellFormed(tags) && IsChain(tags, path) && AreChildrenOf(tags, path, siblings)
    requires siblings != []
    ensures IsChain(tags, path + [siblings[0]])
    ensures AreChildrenOf(tags, path + [siblings[0]], Children(tags, siblings[0].id))
    ensures AreChildrenOf(tags, path, siblings[1..])
    ensures forall k :: 0 <= k < |Walk(tags, path + [siblings[0]], Children(tags, siblings[0].id))| ==>
              var c := Walk(tags, path + [siblings[0]], Children(tags, siblings[0].id))[k];
              |c| > |path| + 1 && c[..|path| + 1] == path + [siblings[0]] && c[|path|] == siblings[0]
    ensures forall k :: 0 <= k < |Walk(tags, path, siblings[1..])| ==>
              ChainBelow(tags, path, siblings[1..], Walk(tags, path, siblings[1..])[k])
  {
    var t := siblings[0];
    WalkFirst(tags, path, siblings);
    WalkSound(tags, path + [t], Children(tags, t.id));
    WalkSound(tags, path, siblings[1..]);
    var below := Walk(tags, path + [t], Children(tags, t.id));
    forall k | 0 <= k < |below|
      ensures |below[k]| > |path| + 1 && below[k][..|path| + 1] == path + [t] && below[k][|path|] == t
    {
      assert below[k][|path|] == below[k][..|path| + 1][|path|];
    }
  }

  /** No chain occurs twice. */
  predicate DistinctChains(chains: seq<seq<Tag>>)
  {
    forall x, y :: 0 <= x < y < |chains| ==> chains[x] != chains[y]
  }

  /**
   * `[first] + below + later` has no repeated chain when `below` and `later` have none, every
   * chain below is longer than `first` and agrees with it at `n`, and no later one does.
   */
  lemma ConcatDistinct(w: seq<seq<Tag>>, first: seq<Tag>, below: seq<seq<Tag>>, later: seq<seq<Tag>>, n: nat)
    requires w == [first] + below + later && |first| == n + 1
    requires forall k :: 0 <= k < |below| ==> |below[k]| > n + 1 && below[k][n] == first[n]
    requires forall k :: 0 <= k < |later| ==> |later[k]| > n && later[k][n] != first[n]
    requires DistinctChains(below) && DistinctChains(later)
    ensures DistinctChains(w)
  {
    forall x, y | 0 <= x < y < |w|
      ensures w[x] != w[y]
    {
      ConcatIndex(w, first, below, later, x);
      ConcatIndex(w, first, below, later, y);
      if x == 0 && y <= |below| {
        assert |w[y]| > |w[x]|;
      } else if x <= |below| && y > |below| {
        assert w[x][n] != w[y][n];
      }
    }
  }

  /** Over distinct siblings the walk never yields a chain twice. */
  lemma {:induction false} WalkDistinct(tags: seq<Tag>, path: seq<Tag>, siblings: seq<Tag>)
    requires WellFormed(tags) && IsChain(tags, path) && AreChildrenOf(tags, path, siblings)
    requires Distinct(siblings)
    ensures DistinctChains(Walk(tags, path, siblings))
    decreases Unvisited(tags, path), |siblings|
  {
    if siblings != [] {
      var t := siblings[0];
      WalkFirst(tags, path, siblings);
      WalkParts(tags, path, siblings);
      DistinctTail(siblings);
      ChildrenDistinct(tags, t.id);
      WalkDistinct(tags, path + [t], Children(tags, t.id));
      WalkDistinct(tags, path, siblings[1..]);
      var below := Walk(tags, path + [t], Children(tags, t.id));
      var later := Walk(tags, path, siblings[1..]);
      LeaveAt(tags, path, siblings[1..], t, later);
      ConcatDistinct(Walk(tags, path, siblings), path + [t], below, later, |path|);
    }
  }

  // ---------------------------------------------------------------------------------------
  // A tag's chain is unique

  /** Two tags of the input with the same ID are the same tag. */
  lemma SameIdSameTag(tags: seq<Tag>, a: Tag, b: Tag)
    requires UniqueIds(tags) && a in tags && b in tags && a.id == b.id
    ensures a == b
  {
    var i :| 0 <= i < |tags| && tags[i] == a;
    var j :| 0 <= j < |tags| && tags[j] == b;
    assert !(i < j) && !(j < i);
  }

  /** A chain is a single tag exactly when its last tag's parent is the root. */
  lemma SingleIffRootChild(tags: seq<Tag>, chain: seq<Tag>)
    requires NonRootIds(tags) && IsChain(tags, chain) && chain != []
    ensures |chain| == 1 <==> Last(chain).parentId == RootTagId
  {
    if |chain| > 1 {
      var parent := chain[|chain| - 2];
      assert parent in tags;
      var k :| 0 <= k < |tags| && tags[k] == parent;
    }
  }

  /** A chain of a well-formed input is determined by its last tag. */
  lemma {:induction false} ChainUnique(tags: seq<Tag>, a: seq<Tag>, b: seq<Tag>)
    requires WellFormed(tags) && IsChain(tags, a) && IsChain(tags, b) && a != [] && b != []
    ensures a == b <==> Last(a) == Last(b)
    decreases |a|
  {
    if Last(a) == Last(b) {
      SingleIffRootChild(tags, a);
      SingleIffRootChild(tags, b);
      if |a| > 1 {
        var pa := a[..|a| - 1];
        var pb := b[..|b| - 1];
        assert IsChain(tags, pa) && IsChain(tags, pb);
        assert Last(pa).id == Last(b).parentId == Last(pb).id;
        SameIdSameTag(tags, Last(pa), Last(pb));
        ChainUnique(tags, pa, pb);
        assert a == pa + [Last(a)] && b == pb + [Last(b)];
      } else {
        assert a == [Last(a)] && b == [Last(b)];
      }
    }
  }

  /** A tag reachable from the root by parent links: the last tag of some chain. */
  ghost predicate Reachable(tags: seq<Tag>, t: Tag)
  {
    exists chain :: IsChain(tags, chain) && chain != [] && Last(chain) == t
  }

  /** The tag of each emitted view model, in output order. */
  function EmittedTags(chains: seq<seq<Tag>>): (r: seq<Tag>)
    requires LongerThan(chains, 0)
    ensures |r| == |chains|
    ensures forall i :: 0 <= i < |r| ==> r[i] == Last(chains[i])
  {
    if chains == [] then [] else [Last(chains[0])] + EmittedTags(chains[1..])
  }

  /** The chains of the flattening are the chains of the input that start at a root child. */
  lemma FlattenedIsAllChains(tags: seq<Tag>, chain: seq<Tag>)
    requires WellFormed(tags)
    ensures chain in Flattened(tags) <==> IsChain(tags, chain) && chain != []
  {
    ChildrenAreRootChildren(tags);
    var w := Flattened(tags);
    WalkSound(tags, [], Children(tags, RootTagId));
    if IsChain(tags, chain) && chain != [] {
      ChildrenMembership(tags, RootTagId, chain[0]);
      assert chain[..0] == [];
      WalkComplete(tags, [], Children(tags, RootTagId), chain);
    }
  }

  /** With unique non-zero IDs the output holds exactly the tags reachable from the root. */
  lemma EmitsExactlyReachable(tags: seq<Tag>, t: Tag)
    requires WellFormed(tags)
    ensures t in EmittedTags(Flattened(tags)) <==> Reachable(tags, t)
  {
    var w := Flattened(tags);
    var emitted := EmittedTags(w);
    if t in emitted {
      var i :| 0 <= i < |emitted| && emitted[i] == t;
      FlattenedIsAllChains(tags, w[i]);
    }
    if Reachable(tags, t) {
      var chain :| IsChain(tags, chain) && chain != [] && Last(chain) == t;
      FlattenedIsAllChains(tags, chain);
      var i :| 0 <= i < |w| && w[i] == chain;
      assert emitted[i] == t;
    }
  }

  /** With unique non-zero IDs no tag is emitted twice. */
  lemma EmitsEachOnce(tags: seq<Tag>)
    requires WellFormed(tags)
    ensures Distinct(EmittedTags(Flattened(tags)))
  {
    ChildrenAreRootChildren(tags);
    var w := Flattened(tags);
    var emitted := EmittedTags(w);
    WalkSound(tags, [], Children(tags, RootTagId));
    ChildrenDistinct(tags, RootTagId);
    WalkDistinct(tags, [], Children(tags, RootTagId));
    forall x, y | 0 <= x < y < |emitted|
      ensures emitted[x] != emitted[y]
    {
      ChainUnique(tags, w[x], w[y]);
    }
  }

  function Elements(s: seq<Tag>): set<Tag>
  {
    set x | x in s
  }

  lemma {:induction false} ElementsSize(s: seq<Tag>)
    ensures |Elements(s)| <= |s|
    ensures Distinct(s) ==> |Elements(s)| == |s|
  {
    if s != [] {
      ElementsSize(s[1..]);
      assert Elements(s) == {s[0]} + Elements(s[1..]);
      DistinctCons(s[0], s[1..]);
      assert s == [s[0]] + s[1..];
    }
  }

  lemma SubsetSize(a: set<Tag>, b: set<Tag>)
    requires a <= b
    ensures |a| <= |b|
  {
    assert b == a + (b - a);
  }

  /** The output is never longer than the input. */
  lemma OutputNoLongerThanInput(tags: seq<Tag>)
    requires WellFormed(tags)
    ensures |Flattened(tags)| <= |tags|
  {
    var emitted := EmittedTags(Flattened(tags));
    EmitsEachOnce(tags);
    forall t | t in Elements(emitted)
      ensures t in Elements(tags)
    {
      EmitsExactlyReachable(tags, t);
      var chain :| IsChain(tags, chain) && chain != [] && Last(chain) == t;
    }
    ElementsSize(emitted);
    ElementsSize(tags);
    SubsetSize(Elements(emitted), Elements(tags));
  }

  /** If no tag has the root as parent, nothing is emitted; and only then. */
  lemma EmptyIffNoRootChild(tags: seq<Tag>)
    requires WellFormed(tags)
    ensures Flattened(tags) == [] <==> forall k :: 0 <= k < |tags| ==> tags[k].parentId != RootTagId
  {
    if forall k :: 0 <= k < |tags| ==> tags[k].parentId != RootTagId {
      FilterNone(IsChildOf(RootTagId), tags);
      assert Children(tags, RootTagId) == [];
    } else {
      var k :| 0 <= k < |tags| && tags[k].parentId == RootTagId;
      assert IsChain(tags, [tags[k]]);
      FlattenedIsAllChains(tags, [tags[k]]);
    }
  }

  // ---------------------------------------------------------------------------------------
  // Pre-order

  /** `a` is an initial segment of `b`. */
  predicate IsPrefix(a: seq<Tag>, b: seq<Tag>)
  {
    |a| <= |b| && b[..|a|] == a
  }

  /** No chain comes after a chain that extends it: a tag is emitted before all its descendants. */
  predicate AncestorsFirst(chains: seq<seq<Tag>>)
  {
    forall i, j :: 0 <= j <= i < |chains| ==> !(|chains[i]| < |chains[j]| && IsPrefix(chains[i], chains[j]))
  }

  /** The chains extending a chain follow it without a gap: each subtree is a contiguous run. */
  predicate SubtreesContiguous(chains: seq<seq<Tag>>)
  {
    forall i, j, k :: 0 <= i < j < k < |chains| ==> IsPrefix(chains[i], chains[k]) ==> IsPrefix(chains[i], chains[j])
  }

  /**
   * `[first] + below + later` is in pre-order when `below` and `later` are, every chain below
   * extends `first`, and every later chain leaves it at `n`.
   */
  lemma ConcatPreOrder(w: seq<seq<Tag>>, first: seq<Tag>, below: seq<seq<Tag>>, later: seq<seq<Tag>>, n: nat)
    requires w == [first] + below + later && |first| == n + 1
    requires forall k :: 0 <= k < |below| ==> |below[k]| > n + 1 && below[k][..n + 1] == first
    requires forall k :: 0 <= k < |later| ==> |later[k]| > n && later[k][n] != first[n]
    requires AncestorsFirst(below) && AncestorsFirst(later)
    requires SubtreesContiguous(below) && SubtreesContiguous(later)
    ensures AncestorsFirst(w) && SubtreesContiguous(w)
  {
    forall i, j | 0 <= j <= i < |w|
      ensures !(|w[i]| < |w[j]| && IsPrefix(w[i], w[j]))
    {
      ConcatIndex(w, first, below, later, i);
      ConcatIndex(w, first, below, later, j);
      if 0 < j <= |below| && i > |below| {
        assert w[j][n] == first[n] && w[i][n] != first[n];
      }
    }
    forall i, j, k | 0 <= i < j < k < |w|
      ensures IsPrefix(w[i], w[k]) ==> IsPrefix(w[i], w[j])
    {
      ConcatIndex(w, first, below, later, i);
      ConcatIndex(w, first, below, later, j);
      ConcatIndex(w, first, below, later, k);
      if i <= |below| && k > |below| {
        assert w[i][n] == first[n] && w[k][n] != first[n];
      } else if i == 0 {
        assert w[j][..n + 1] == first;
      }
    }
  }

  /** The first sibling's chains follow it; no later sibling's chain passes through it. */
  lemma LaterLeavesFirst(tags: seq<Tag>, path: seq<Tag>, siblings: seq<Tag>)
    requires WellFormed(tags) && IsChain(tags, path) && AreChildrenOf(tags, path, siblings)
    requires siblings != [] && Distinct(siblings)
    ensures IsChain(tags, path + [siblings[0]])
    ensures AreChildrenOf(tags, path + [siblings[0]], Children(tags, siblings[0].id))
    ensures AreChildrenOf(tags, path, siblings[1..])
    ensures forall k :: 0 <= k < |Walk(tags, path + [siblings[0]], Children(tags, siblings[0].id))| ==>
              var c := Walk(tags, path + [siblings[0]], Children(tags, siblings[0].id))[k];
              |c| > |path| + 1 && c[..|path| + 1] == path + [siblings[0]]
    ensures forall k :: 0 <= k < |Walk(tags, path, siblings[1..])| ==>
              var c := Walk(tags, path, siblings[1..])[k];
              |c| > |path| && c[|path|] != siblings[0]
  {
    WalkParts(tags, path, siblings);
    DistinctTail(siblings);
    LeaveAt(tags, path, siblings[1..], siblings[0], Walk(tags, path, siblings[1..]));
  }

  /** Chains that leave `path` through `rest` do not pass through a tag outside `rest`. */
  lemma LeaveAt(tags: seq<Tag>, path: seq<Tag>, rest: seq<Tag>, t: Tag, chains: seq<seq<Tag>>)
    requires forall k :: 0 <= k < |chains| ==> ChainBelow(tags, path, rest, chains[k])
    requires t !in rest
    ensures forall k :: 0 <= k < |chains| ==> |chains[k]| > |path| && chains[k][|path|] != t
  {
  }

  /** The later siblings are distinct too, and the first is not among them. */
  lemma DistinctTail(siblings: seq<Tag>)
    requires siblings != [] && Distinct(siblings)
    ensures Distinct(siblings[1..]) && siblings[0] !in siblings[1..]
  {
    assert siblings == [siblings[0]] + siblings[1..];
    DistinctCons(siblings[0], siblings[1..]);
  }

  /** Over distinct siblings the walk is in pre-order. */
  lemma {:induction false} WalkPreOrder(tags: seq<Tag>, path: seq<Tag>, siblings: seq<Tag>)
    requires WellFormed(tags) && IsChain(tags, path) && AreChildrenOf(tags, path, siblings)
    requires Distinct(siblings)
    ensures AncestorsFirst(Walk(tags, path, siblings)) && SubtreesContiguous(Walk(tags, path, siblings))
    decreases Unvisited(tags, path), |siblings|
  {
    if siblings != [] {
      var t := siblings[0];
      WalkFirst(tags, path, siblings);
      DistinctTail(siblings);
      ChildrenDistinct(tags, t.id);
      WalkPreOrder(tags, path + [t], Children(tags, t.id));
      WalkPreOrder(tags, path, siblings[1..]);
      LaterLeavesFirst(tags, path, siblings);
      ConcatPreOrder(Walk(tags, path, siblings), path + [t], Walk(tags, path + [t], Children(tags, t.id)),
                     Walk(tags, path, siblings[1..]), |path|);
    }
  }

  /** The flattening is in pre-order: each tag before its descendants, each subtree a contiguous run. */
  lemma FlattenedPreOrder(tags: seq<Tag>)
    requires WellFormed(tags)
    ensures AncestorsFirst(Flattened(tags)) && SubtreesContiguous(Flattened(tags))
  {
    ChildrenAreRootChildren(tags);
    ChildrenDistinct(tags, RootTagId);
    WalkPreOrder(tags, [], Children(tags, RootTagId));
  }

  /** The chain of an emitted tag's parent is emitted before it. */
  lemma ParentChainFirst(tags: seq<Tag>, i: nat) returns (j: nat)
    requires WellFormed(tags) && i < |Flattened(tags)| && |Flattened(tags)[i]| > 1
    ensures j < i && Flattened(tags)[j] == Flattened(tags)[i][..|Flattened(tags)[i]| - 1]
  {
    var w := Flattened(tags);
    var parent := w[i][..|w[i]| - 1];
    FlattenedIsAllChains(tags, w[i]);
    assert IsChain(tags, parent);
    FlattenedIsAllChains(tags, parent);
    j :| 0 <= j < |w| && w[j] == parent;
    FlattenedPreOrder(tags);
    assert |w[j]| < |w[i]| && IsPrefix(w[j], w[i]);
  }

  /**
   * A root child is shown at level 0 and only a root child is; any other tag is shown one level
   * below its parent, which is emitted before it.
   */
  lemma Levels(tags: seq<Tag>, i: nat)
    requires WellFormed(tags) && i < |Flattened(tags)|
    ensures var viewModels := ViewModelsOf(Flattened(tags));
            var emitted := EmittedTags(Flattened(tags));
            && viewModels[i].level >= 0
            && (viewModels[i].level == 0 <==> emitted[i].parentId == RootTagId)
            && (viewModels[i].level > 0 ==>
                  exists j :: 0 <= j < i && emitted[j].id == emitted[i].parentId
                              && viewModels[j].level + 1 == viewModels[i].level)
  {
    var w := Flattened(tags);
    var emitted := EmittedTags(w);
    FlattenedIsAllChains(tags, w[i]);
    SingleIffRootChild(tags, w[i]);
    if |w[i]| > 1 {
      var j := ParentChainFirst(tags, i);
      assert emitted[j].id == emitted[i].parentId;
    }
  }

  // ---------------------------------------------------------------------------------------
  // Sibling order

  /** `a` occurs before `b` in `s`. */
  predicate Before(s: seq<Tag>, a: Tag, b: Tag)
  {
    exists x, y :: 0 <= x < y < |s| && s[x] == a && s[y] == b
  }

  lemma BeforeCons(x: Tag, s: seq<Tag>, a: Tag, b: Tag)
    ensures Before(s, a, b) ==> Before([x] + s, a, b)
    ensures x == a && b in s ==> Before([x] + s, a, b)
  {
    var r := [x] + s;
    if Before(s, a, b) {
      var i, j :| 0 <= i < j < |s| && s[i] == a && s[j] == b;
      assert r[i + 1] == a && r[j + 1] == b;
    }
    if x == a && b in s {
      var j :| 0 <= j < |s| && s[j] == b;
      assert r[0] == a && r[j + 1] == b;
    }
  }

  /** Filtering keeps the relative order of the elements it keeps. */
  lemma {:induction false} FilterBefore(keep: Tag -> bool, s: seq<Tag>, a: Tag, b: Tag)
    requires Before(s, a, b) && keep(a) && keep(b)
    ensures Before(Filter(keep, s), a, b)
  {
    var x, y :| 0 <= x < y < |s| && s[x] == a && s[y] == b;
    var rest := Filter(keep, s[1..]);
    assert Filter(keep, s) == (if keep(s[0]) then [s[0]] else []) + rest;
    if x > 0 {
      assert s[1..][x - 1] == a && s[1..][y - 1] == b;
      FilterBefore(keep, s[1..], a, b);
      if keep(s[0]) {
        BeforeCons(s[0], rest, a, b);
      } else {
        assert Filter(keep, s) == rest;
      }
    } else {
      assert s[1..][y - 1] == b;
      FilterMembership(keep, s[1..], b);
      BeforeCons(s[0], rest, a, b);
    }
  }

  /** Two elements in order in a filtered sequence are in that order in its source. */
  lemma {:induction false} FilterBeforeSource(keep: Tag -> bool, s: seq<Tag>, a: Tag, b: Tag)
    requires Before(Filter(keep, s), a, b)
    ensures Before(s, a, b)
  {
    var rest := Filter(keep, s[1..]);
    assert s == [s[0]] + s[1..];
    if keep(s[0]) {
      var r := [s[0]] + rest;
      assert Filter(keep, s) == r;
      var x, y :| 0 <= x < y < |r| && r[x] == a && r[y] == b;
      if x > 0 {
        assert rest[x - 1] == a && rest[y - 1] == b;
        FilterBeforeSource(keep, s[1..], a, b);
        BeforeCons(s[0], s[1..], a, b);
      } else {
        assert rest[y - 1] == b;
        FilterMembership(keep, s[1..], b);
        BeforeCons(s[0], s[1..], a, b);
      }
    } else {
      assert Filter(keep, s) == rest;
      FilterBeforeSource(keep, s[1..], a, b);
      BeforeCons(s[0], s[1..], a, b);
    }
  }

  /**
   * `OrderBy(tag => tag.Order)` on a tag's children: of two children in the walk's order, the
   * first has the smaller or equal `Order`, and on equal `Order` it came first in the input.
   */
  lemma ChildrenOrder(tags: seq<Tag>, parentId: int, a: Tag, b: Tag)
    requires Before(Children(tags, parentId), a, b)
    ensures a.order <= b.order
    ensures a.order == b.order ==> Before(tags, a, b)
  {
    var children := Children(tags, parentId);
    var unsorted := Filter(IsChildOf(parentId), tags);
    var x, y :| 0 <= x < y < |children| && children[x] == a && children[y] == b;
    if a.order == b.order {
      FilterBefore(HasOrder(a.order), children, a, b);
      SortIsStable(unsorted, a.order);
      FilterBeforeSource(HasOrder(a.order), unsorted, a, b);
      FilterBeforeSource(IsChildOf(parentId), tags, a, b);
    }
  }

  /** Two chains through the same parent: same length, equal but for the last tag. */
  predicate AreSiblings(a: seq<Tag>, b: seq<Tag>)
  {
    |a| == |b| > 0 && a[..|a| - 1] == b[..|b| - 1]
  }

  /** Of two sibling chains, the earlier one's tag comes first among its parent's sorted children. */
  predicate SiblingsInOrder(tags: seq<Tag>, chains: seq<seq<Tag>>)
  {
    forall i, j :: 0 <= i < j < |chains| && AreSiblings(chains[i], chains[j]) ==>
      Before(Children(tags, Last(chains[i]).parentId), Last(chains[i]), Last(chains[j]))
  }

  /**
   * `[first] + below + later` keeps siblings in order when `below` and `later` do, every chain
   * below extends `first`, every later one leaves it at `n`, and `first` comes before its later
   * siblings.
   */
  lemma ConcatSiblingOrder(tags: seq<Tag>, w: seq<seq<Tag>>, first: seq<Tag>, below: seq<seq<Tag>>,
                           later: seq<seq<Tag>>, n: nat)
    requires w == [first] + below + later && |first| == n + 1
    requires forall k :: 0 <= k < |below| ==> |below[k]| > n + 1 && below[k][n] == first[n]
    requires forall k :: 0 <= k < |later| ==> |later[k]| > n && later[k][n] != first[n]
    requires PrecedesSiblings(Children(tags, Last(first).parentId), first, later)
    requires SiblingsInOrder(tags, below) && SiblingsInOrder(tags, later)
    ensures SiblingsInOrder(tags, w)
  {
    forall i, j | 0 <= i < j < |w| && AreSiblings(w[i], w[j])
      ensures Before(Children(tags, Last(w[i]).parentId), Last(w[i]), Last(w[j]))
    {
      ConcatIndex(w, first, below, later, i);
      ConcatIndex(w, first, below, later, j);
      SiblingsAgree(w[i], w[j], n);
    }
  }

  /** Sibling chains agree below their last position. */
  lemma SiblingsAgree(a: seq<Tag>, b: seq<Tag>, n: nat)
    ensures AreSiblings(a, b) && n < |a| - 1 ==> a[n] == b[n]
  {
    if AreSiblings(a, b) && n < |a| - 1 {
      assert a[n] == a[..|a| - 1][n] && b[n] == b[..|b| - 1][n];
    }
  }

  /** `first` comes before each of the `later` chains that is its sibling, in `children`. */
  predicate PrecedesSiblings(children: seq<Tag>, first: seq<Tag>, later: seq<seq<Tag>>)
    requires first != []
  {
    forall k :: 0 <= k < |later| && AreSiblings(first, later[k]) ==> Before(children, Last(first), Last(later[k]))
  }

  /** Chains through the later children come after the chain through the `d`-th one. */
  lemma FirstBeforeLater(tags: seq<Tag>, path: seq<Tag>, children: seq<Tag>, d: nat, later: seq<seq<Tag>>)
    requires d < |children|
    requires forall k :: 0 <= k < |later| ==> ChainBelow(tags, path, children[d + 1..], later[k])
    ensures PrecedesSiblings(children, path + [children[d]], later)
  {
    forall k | 0 <= k < |later| && AreSiblings(path + [children[d]], later[k])
      ensures Before(children, children[d], Last(later[k]))
    {
      assert Last(later[k]) == later[k][|path|];
      var m :| 0 <= m < |children[d + 1..]| && children[d + 1..][m] == Last(later[k]);
      assert children[d + 1 + m] == Last(later[k]);
    }
  }

  /** One step of `WalkSiblingOrder`: from the subtree's and the later siblings' order to the whole walk's. */
  lemma SiblingOrderStep(tags: seq<Tag>, path: seq<Tag>, children: seq<Tag>, d: nat)
    requires WellFormed(tags) && IsChain(tags, path)
    requires children == Children(tags, ParentIdOf(path)) && d < |children|
    requires AreChildrenOf(tags, path, children[d..])
    requires IsChain(tags, path + [children[d]])
    requires AreChildrenOf(tags, path + [children[d]], Children(tags, children[d].id))
    requires AreChildrenOf(tags, path, children[d + 1..])
    requires SiblingsInOrder(tags, Walk(tags, path + [children[d]], Children(tags, children[d].id)))
    requires SiblingsInOrder(tags, Walk(tags, path, children[d + 1..]))
    ensures SiblingsInOrder(tags, Walk(tags, path, children[d..]))
  {
    var siblings := children[d..];
    var t := siblings[0];
    assert siblings[1..] == children[d + 1..];
    WalkFirst(tags, path, siblings);
    ChildrenDistinct(tags, ParentIdOf(path));
    assert Distinct(siblings);
    LaterLeavesFirst(tags, path, siblings);
    WalkSound(tags, path, siblings[1..]);
    FirstBeforeLater(tags, path, children, d, Walk(tags, path, siblings[1..]));
    ConcatSiblingOrder(tags, Walk(tags, path, siblings), path + [t], Walk(tags, path + [t], Children(tags, t.id)),
                       Walk(tags, path, siblings[1..]), |path|);
  }

  /** The walk over the children of a chain's last tag, from the `d`-th on, keeps siblings in order. */
  lemma {:induction false} WalkSiblingOrder(tags: seq<Tag>, path: seq<Tag>, d: nat)
    requires WellFormed(tags) && IsChain(tags, path)
    requires d <= |Children(tags, ParentIdOf(path))|
    requires AreChildrenOf(tags, path, Children(tags, ParentIdOf(path))[d..])
    ensures SiblingsInOrder(tags, Walk(tags, path, Children(tags, ParentIdOf(path))[d..]))
    decreases Unvisited(tags, path), |Children(tags, ParentIdOf(path))| - d
  {
    var children := Children(tags, ParentIdOf(path));
    if d < |children| {
      var t := children[d];
      WalkFirst(tags, path, children[d..]);
      assert children[d..][1..] == children[d + 1..];
      assert Children(tags, ParentIdOf(path + [t])) == Children(tags, t.id)[0..];
      WalkSiblingOrder(tags, path + [t], 0);
      WalkSiblingOrder(tags, path, d + 1);
      SiblingOrderStep(tags, path, children, d);
    }
  }

  /** Two chains whose last tags have the same parent are siblings. */
  lemma SameParentSiblings(tags: seq<Tag>, a: seq<Tag>, b: seq<Tag>)
    requires WellFormed(tags) && IsChain(tags, a) && IsChain(tags, b) && a != [] && b != []
    requires Last(a).parentId == Last(b).parentId
    ensures AreSiblings(a, b)
  {
    SingleIffRootChild(tags, a);
    SingleIffRootChild(tags, b);
    if |a| > 1 {
      var pa := a[..|a| - 1];
      var pb := b[..|b| - 1];
      assert IsChain(tags, pa) && IsChain(tags, pb);
      assert Last(pa).id == Last(pb).id;
      SameIdSameTag(tags, Last(pa), Last(pb));
      ChainUnique(tags, pa, pb);
    }
  }

  /**
   * Tags with the same parent are emitted in ascending `Order`, and tags of equal `Order` in
   * their input order.
   */
  lemma SiblingsAscending(tags: seq<Tag>, i: nat, j: nat)
    requires WellFormed(tags) && i < j < |Flattened(tags)|
    requires EmittedTags(Flattened(tags))[i].parentId == EmittedTags(Flattened(tags))[j].parentId
    ensures var emitted := EmittedTags(Flattened(tags));
            && emitted[i].order <= emitted[j].order
            && (emitted[i].order == emitted[j].order ==> Before(tags, emitted[i], emitted[j]))
  {
    var w := Flattened(tags);
    FlattenedIsAllChains(tags, w[i]);
    FlattenedIsAllChains(tags, w[j]);
    SameParentSiblings(tags, w[i], w[j]);
    ChildrenAreRootChildren(tags);
    assert Children(tags, ParentIdOf([])) == Children(tags, RootTagId)[0..];
    WalkSiblingOrder(tags, [], 0);
    ChildrenOrder(tags, Last(w[i]).parentId, Last(w[i]), Last(w[j]));
  }
}
