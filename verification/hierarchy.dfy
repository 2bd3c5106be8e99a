/**
  The outline's tree levels. The index file stores no depth, only each
  entry's parent; ProcessHierarchy walks the entries in list order and moves
  a running indent level by one step per entry: up when the entry's parent
  is the entry just before it, unchanged when it shares that entry's parent,
  and down otherwise.
 */
module Hierarchy {
  import opened Binary
  import opened Record

  /** The tree levels of a list of entries, in order. */
  function Levels(rs: seq<IndexRecord>): (ls: seq<int>)
    ensures |ls| == |rs|
    ensures forall i :: 0 <= i < |rs| ==> ls[i] == rs[i].treeLevel
  {
    seq(|rs|, i requires 0 <= i < |rs| => rs[i].treeLevel)
  }

  /** The segment number of the entry before entry i; 0 before the first. */
  function PreviousIndex(rs: seq<IndexRecord>, i: nat): int
    requires i <= |rs|
  {
    if i == 0 then 0 else rs[i - 1].index
  }

  /** The parent of the entry before entry i; 0 before the first. */
  function PreviousParent(rs: seq<IndexRecord>, i: nat): int
    requires i <= |rs|
  {
    if i == 0 then 0 else rs[i - 1].head.parent
  }

  /** The level before entry i; the walk starts at level 0. */
  function PreviousLevel(levels: seq<int>, i: nat): int
    requires i <= |levels|
  {
    if i == 0 then 0 else levels[i - 1]
  }

  /** Entry i is a child of the entry just before it (parent 0 never counts as one). */
  predicate OpensLevel(rs: seq<IndexRecord>, i: nat)
    requires i < |rs|
  {
    rs[i].head.parent == PreviousIndex(rs, i) && rs[i].head.parent > 0
  }

  /** Entry i is not such a child but has the same parent as the entry before it. */
  predicate KeepsLevel(rs: seq<IndexRecord>, i: nat)
    requires i < |rs|
  {
    !OpensLevel(rs, i) && rs[i].head.parent == PreviousParent(rs, i)
  }

  /**
    The step rules at entry i: the level rises by one exactly when the entry
    opens a level, stays exactly when it keeps the level, and falls by one
    exactly when it does neither.
   */
  predicate RuleAt(rs: seq<IndexRecord>, levels: seq<int>, i: nat)
    requires i < |levels| <= |rs|
  {
    var before := PreviousLevel(levels, i);
    && (levels[i] == before + 1 <==> OpensLevel(rs, i))
    && (levels[i] == before <==> KeepsLevel(rs, i))
    && (levels[i] == before - 1 <==> !OpensLevel(rs, i) && !KeepsLevel(rs, i))
  }

  /** `levels` assigns every entry of rs a level by the step rules. */
  predicate FollowsRules(rs: seq<IndexRecord>, levels: seq<int>)
  {
    |levels| == |rs| && forall i :: 0 <= i < |rs| ==> RuleAt(rs, levels, i)
  }

  /**
    ProcessHierarchy: walk the entries in order, keeping the previous entry's
    index and parent, and stamp each entry with the running indent level.
    Only the tree levels change; they follow the step rules.
   */
  method ProcessHierarchy(rs: seq<IndexRecord>) returns (out: seq<IndexRecord>)
    ensures |out| == |rs|
    ensures forall i :: 0 <= i < |rs| ==> out[i] == rs[i].(treeLevel := out[i].treeLevel)
    ensures FollowsRules(rs, Levels(out))
  {
    var previousIndex := 0;
    var previousParentIndex := 0;
    var indentLevel := 0;
    out := [];
    for i := 0 to |rs|
      invariant |out| == i
      invariant forall j :: 0 <= j < i ==> out[j] == rs[j].(treeLevel := out[j].treeLevel)
      invariant previousIndex == PreviousIndex(rs, i)
      invariant previousParentIndex == PreviousParent(rs, i)
      invariant indentLevel == PreviousLevel(Levels(out), i)
      invariant forall j :: 0 <= j < i ==> RuleAt(rs, Levels(out), j)
    {
      var record := rs[i];
      if record.head.parent == previousIndex && record.head.parent > 0 {
        indentLevel := indentLevel + 1;
      } else if record.head.parent != previousParentIndex {
        indentLevel := indentLevel - 1;
      }
      RulesExtend(rs, Levels(out), indentLevel);
      LevelsAppend(out, record.(treeLevel := indentLevel));
      out := out + [record.(treeLevel := indentLevel)];
      previousIndex := record.index;
      previousParentIndex := record.head.parent;
    }
  }

  lemma LevelsAppend(rs: seq<IndexRecord>, r: IndexRecord)
    ensures Levels(rs + [r]) == Levels(rs) + [r.treeLevel]
  {
    assert forall i :: 0 <= i < |rs| ==> (rs + [r])[i] == rs[i];
  }

  /** Appending a level leaves the rules at the earlier entries as they were. */
  lemma RulesExtend(rs: seq<IndexRecord>, levels: seq<int>, level: int)
    requires |levels| < |rs|
    ensures forall j :: 0 <= j < |levels| ==> RuleAt(rs, levels + [level], j) == RuleAt(rs, levels, j)
  {
    forall j | 0 <= j < |levels|
      ensures RuleAt(rs, levels + [level], j) == RuleAt(rs, levels, j)
    {
      assert (levels + [level])[j] == levels[j];
      if j > 0 {
        assert (levels + [level])[j - 1] == levels[j - 1];
      }
    }
  }

  /** Each entry's level differs from the one before it (0 before the first) by at most one. */
  lemma LevelsMoveByOne(rs: seq<IndexRecord>, levels: seq<int>, i: nat)
    requires FollowsRules(rs, levels) && i < |rs|
    ensures -1 <= levels[i] - PreviousLevel(levels, i) <= 1
  {
    assert RuleAt(rs, levels, i);
  }

  /** The step rules leave no choice: there is one level assignment per list. */
  lemma {:induction false} RulesDetermineLevels(rs: seq<IndexRecord>, levels1: seq<int>, levels2: seq<int>)
    requires FollowsRules(rs, levels1) && FollowsRules(rs, levels2)
    ensures levels1 == levels2
  {
    forall i | 0 <= i < |rs|
      ensures levels1[i] == levels2[i]
    {
      SameLevelsUpTo(rs, levels1, levels2, i);
    }
  }

  lemma {:induction false} SameLevelsUpTo(rs: seq<IndexRecord>, levels1: seq<int>, levels2: seq<int>, i: nat)
    requires FollowsRules(rs, levels1) && FollowsRules(rs, levels2) && i < |rs|
    ensures levels1[i] == levels2[i]
    decreases i
  {
    if i > 0 {
      SameLevelsUpTo(rs, levels1, levels2, i - 1);
    }
    assert RuleAt(rs, levels1, i) && RuleAt(rs, levels2, i);
  }

  // ---------------------------------------------------------------------
  // Tree depth

  /** The prefix of s up to and including the last occurrence of p; empty when p is not in s. */
  function UpTo(s: seq<int>, p: int): (r: seq<int>)
    ensures |r| <= |s| && r == s[..|r|]
    ensures r != [] ==> r[|r| - 1] == p
    ensures forall k :: |r| <= k < |s| ==> s[k] != p
    decreases |s|
  {
    if s == [] then []
    else if s[|s| - 1] == p then s
    else UpTo(s[..|s| - 1], p)
  }

  /**
    The open path at entry i: the segment numbers from its root down to the
    entry itself. The parent is looked up on the path of the entry before
    it; parent 0, or a parent not on that path, makes the entry a root.
   */
  function Ancestry(rs: seq<IndexRecord>, i: nat): (path: seq<int>)
    requires i < |rs|
    ensures path != [] && path[|path| - 1] == rs[i].index
    decreases i
  {
    var above := if i == 0 then [] else Ancestry(rs, i - 1);
    var parent := rs[i].head.parent;
    (if parent == 0 then [] else UpTo(above, parent)) + [rs[i].index]
  }

  /** The true depth of entry i in the tree: the number of its ancestors. */
  function Depth(rs: seq<IndexRecord>, i: nat): nat
    requires i < |rs|
  {
    |Ancestry(rs, i)| - 1
  }

  /**
    rs lists a forest depth-first: segment numbers are positive, the first
    entry is a root, and every later entry is a root (parent 0) or a child
    of an entry on the open path of the entry before it.
   */
  ghost predicate Preorder(rs: seq<IndexRecord>)
  {
    && (forall i :: 0 <= i < |rs| ==> rs[i].index > 0)
    && (|rs| > 0 ==> rs[0].head.parent == 0)
    && (forall i :: 0 < i < |rs| ==> ParentOnPath(rs, i))
  }

  /** Entry i is a root, or a child of an entry on the open path of the entry before it. */
  ghost predicate ParentOnPath(rs: seq<IndexRecord>, i: nat)
    requires 0 < i < |rs|
  {
    rs[i].head.parent == 0 || rs[i].head.parent in Ancestry(rs, i - 1)
  }

  /**
    On a depth-first listing the step rules never put an entry above its
    true depth, so no level is negative. The level can lag behind the depth
    (see RootAfterGrandchild) because it falls by only one per entry.
   */
  lemma LevelsNeverBelowDepth(rs: seq<IndexRecord>, levels: seq<int>)
    requires Preorder(rs) && FollowsRules(rs, levels)
    ensures forall i :: 0 <= i < |rs| ==> 0 <= Depth(rs, i) <= levels[i]
  {
    forall i | 0 <= i < |rs|
      ensures Depth(rs, i) <= levels[i]
    {
      LevelAtLeastDepth(rs, levels, i);
    }
  }

  lemma {:induction false} LevelAtLeastDepth(rs: seq<IndexRecord>, levels: seq<int>, i: nat)
    requires Preorder(rs) && FollowsRules(rs, levels) && i < |rs|
    ensures Depth(rs, i) <= levels[i]
    decreases i
  {
    if i == 0 {
      assert RuleAt(rs, levels, 0);
      assert Ancestry(rs, 0) == [rs[0].index];
    } else {
      LevelAtLeastDepth(rs, levels, i - 1);
      DepthStep(rs, i);
      LevelStep(rs, levels, i);
    }
  }

  /** The step rules at entry i, read as moves of the level. */
  lemma LevelStep(rs: seq<IndexRecord>, levels: seq<int>, i: nat)
    requires FollowsRules(rs, levels) && 0 < i < |rs| && rs[i - 1].index > 0
    ensures rs[i].head.parent == rs[i - 1].index ==> levels[i] == levels[i - 1] + 1
    ensures rs[i].head.parent != rs[i - 1].index && rs[i].head.parent == rs[i - 1].head.parent ==>
      levels[i] == levels[i - 1]
    ensures rs[i].head.parent != rs[i - 1].index && rs[i].head.parent != rs[i - 1].head.parent ==>
      levels[i] == levels[i - 1] - 1
  {
    assert RuleAt(rs, levels, i);
  }

  /**
    How the true depth moves from entry i - 1 to entry i: one deeper for a
    child of the entry before, no deeper for its sibling, and at least one
    shallower otherwise.
   */
  lemma DepthStep(rs: seq<IndexRecord>, i: nat)
    requires Preorder(rs) && 0 < i < |rs|
    ensures rs[i - 1].index > 0
    ensures rs[i].head.parent == rs[i - 1].index ==> Depth(rs, i) == Depth(rs, i - 1) + 1
    ensures rs[i].head.parent != rs[i - 1].index && rs[i].head.parent == rs[i - 1].head.parent ==>
      Depth(rs, i) == Depth(rs, i - 1)
    ensures rs[i].head.parent != rs[i - 1].index && rs[i].head.parent != rs[i - 1].head.parent ==>
      Depth(rs, i) + 1 <= Depth(rs, i - 1)
  {
    assert ParentOnPath(rs, i) && rs[i - 1].index > 0;
    if rs[i - 1].head.parent != 0 {
      assert ParentOnPath(rs, i - 1);
      PathEndsWithParent(rs, i - 1);
    }
    var parent := rs[i].head.parent;
    var path := Ancestry(rs, i - 1);
    if rs[i - 1].head.parent == 0 {
      assert |path| == 1;
    }
    if parent != 0 {
      UpToStep(path, parent, rs[i - 1].head.parent);
      assert Ancestry(rs, i) == UpTo(path, parent) + [rs[i].index];
    } else {
      assert Ancestry(rs, i) == [rs[i].index];
    }
  }

  /**
    The length of the path cut back to p, for a path ending with a positive
    segment number whose entry has parent `before`.
   */
  lemma UpToStep(path: seq<int>, p: int, before: int)
    requires |path| >= 1 && path[|path| - 1] > 0 && p in path && p != 0
    requires before == 0 ==> |path| == 1
    requires before != 0 ==> |path| >= 2 && path[|path| - 2] == before
    ensures p == path[|path| - 1] ==> |UpTo(path, p)| == |path|
    ensures p != path[|path| - 1] && p == before ==> |UpTo(path, p)| == |path| - 1
    ensures p != path[|path| - 1] && p != before ==> |UpTo(path, p)| + 2 <= |path|
  {
    var r := UpTo(path, p);
    var n := |path|;
    assert r != [] by {
      var k :| 0 <= k < n && path[k] == p;
    }
    assert path[|r| - 1] == p;
    if p == path[n - 1] {
      assert |r| == n;
    } else if p == before {
      assert |r| == n - 1;
    } else if before != 0 {
      assert |r| - 1 < n - 2;
    }
  }

  /** Below the entry itself, the open path of an entry that is not a root ends with its parent. */
  lemma PathEndsWithParent(rs: seq<IndexRecord>, i: nat)
    requires 0 < i < |rs| && rs[i].head.parent in Ancestry(rs, i - 1) && rs[i].head.parent != 0
    ensures |Ancestry(rs, i)| >= 2 && Ancestry(rs, i)[|Ancestry(rs, i)| - 2] == rs[i].head.parent
  {
    var parent := rs[i].head.parent;
    var up := UpTo(Ancestry(rs, i - 1), parent);
    assert up != [];
    assert Ancestry(rs, i) == up + [rs[i].index];
  }

  // ---------------------------------------------------------------------
  // Worked examples

  /** An entry with the given segment number and parent; every other field is empty. */
  function Entry(index: Int32, parent: Int32): IndexRecord
  {
    IndexRecord(
      index, 0,
      RecordHead([], 0, parent, 0, [], 0, [], [], 0),
      SignOffs([], [], [], [], []),
      RecordFlags(0, 0, 0, 0, 0, []))
  }

  /** A root entry followed by two children of it: levels 0, 1, 1. */
  lemma RootWithTwoChildren(levels: seq<int>)
    requires FollowsRules([Entry(1, 0), Entry(2, 1), Entry(3, 1)], levels)
    ensures levels == [0, 1, 1]
  {
    var rs := [Entry(1, 0), Entry(2, 1), Entry(3, 1)];
    assert RuleAt(rs, [0, 1, 1], 0) && RuleAt(rs, [0, 1, 1], 1) && RuleAt(rs, [0, 1, 1], 2);
    RulesDetermineLevels(rs, levels, [0, 1, 1]);
  }

  /** A lone root entry sits at level 0. */
  lemma LoneRoot(levels: seq<int>)
    requires FollowsRules([Entry(1, 0)], levels)
    ensures levels == [0]
  {
    assert RuleAt([Entry(1, 0)], levels, 0);
  }

  /**
    A first entry whose parent is 5 is neither a child of the (absent)
    entry before it nor a sibling of it, so the level drops to -1.
   */
  lemma OrphanFirstEntry(levels: seq<int>)
    requires FollowsRules([Entry(1, 5)], levels)
    ensures levels == [-1]
  {
    assert RuleAt([Entry(1, 5)], levels, 0);
  }

  /**
    A new root right after a grandchild: the entry closes two levels, but
    the level moves by one step per entry, so it lands at level 1.
   */
  lemma RootAfterGrandchild(levels: seq<int>)
    requires FollowsRules([Entry(1, 0), Entry(2, 1), Entry(3, 2), Entry(4, 0)], levels)
    ensures levels == [0, 1, 2, 1]
  {
    var rs := [Entry(1, 0), Entry(2, 1), Entry(3, 2), Entry(4, 0)];
    var expected := [0, 1, 2, 1];
    assert RuleAt(rs, expected, 0) && RuleAt(rs, expected, 1) && RuleAt(rs, expected, 2) && RuleAt(rs, expected, 3);
    RulesDetermineLevels(rs, levels, expected);
  }

  /**
    In the list of RootAfterGrandchild the third entry sits at depth 2 and
    the last entry is a root, at depth 0, though its level is 1.
   */
  lemma RootAfterGrandchildDepths()
    ensures Depth([Entry(1, 0), Entry(2, 1), Entry(3, 2), Entry(4, 0)], 2) == 2
    ensures Depth([Entry(1, 0), Entry(2, 1), Entry(3, 2), Entry(4, 0)], 3) == 0
  {
    var rs := [Entry(1, 0), Entry(2, 1), Entry(3, 2), Entry(4, 0)];
    assert Ancestry(rs, 0) == [1];
    assert Ancestry(rs, 1) == UpTo([1], 1) + [2] == [1, 2];
    assert Ancestry(rs, 2) == UpTo([1, 2], 2) + [3] == [1, 2, 3];
  }

  /** ... and that list is a depth-first listing. */
  lemma RootAfterGrandchildIsPreorder()
    ensures Preorder([Entry(1, 0), Entry(2, 1), Entry(3, 2), Entry(4, 0)])
  {
    var rs := [Entry(1, 0), Entry(2, 1), Entry(3, 2), Entry(4, 0)];
    forall i | 0 < i < |rs|
      ensures ParentOnPath(rs, i)
    {
      if i == 1 {
        assert Ancestry(rs, 0) == [1];
      } else if i == 2 {
        assert Ancestry(rs, 1)[1] == 2;
      }
    }
  }
}
