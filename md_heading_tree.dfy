/**
 * What the nesting done by `encodeHeadingTree` guarantees: every child has a
 * larger level than its parent, the pre-order of the tree is the input order
 * up to the first heading of level 0, and a stack that pops entries whose
 * level is not smaller would pick the same parents.
 */
module HeadingTree {
  import opened Js
  import opened MdUtil

  // ---------------------------------------------------------------------
  // Ranges of slots

  /**
   * The slot where the subtree of slot `j` ends: the first later slot whose
   * level is not larger than `j`'s, or the end.
   */
  function End(levels: seq<nat>, j: nat): (e: nat)
    requires j < |levels|
    ensures j < e <= |levels|
    ensures e < |levels| ==> levels[e] <= levels[j]
    ensures forall m :: j < m < e ==> levels[m] > levels[j]
  {
    EndFrom(levels, j, j + 1)
  }

  function EndFrom(levels: seq<nat>, j: nat, from: nat): (e: nat)
    requires j < from <= |levels|
    requires forall m :: j < m < from ==> levels[m] > levels[j]
    ensures from <= e <= |levels|
    ensures e < |levels| ==> levels[e] <= levels[j]
    ensures forall m :: j < m < e ==> levels[m] > levels[j]
    decreases |levels| - from
  {
    if from == |levels| || levels[from] <= levels[j] then from
    else EndFrom(levels, j, from + 1)
  }

  /** `LastBelow` is the one earlier slot below `level` with nothing below `level` after it. */
  lemma LastBelowIs(levels: seq<nat>, level: nat, k: nat, m: nat)
    requires m < k <= |levels| && levels[m] < level
    requires forall q :: m < q < k ==> levels[q] >= level
    ensures LastBelow(levels, level, k) == Some(m)
  {
  }

  /** A child of `j` lies inside `j`'s subtree range. */
  lemma KidInRange(levels: seq<nat>, j: nat, c: nat)
    requires 0 < c < |levels| && ParentSlot(levels, c) == Some(j)
    ensures j < c < End(levels, j)
  {
    assert forall m :: j < m <= c ==> levels[m] > levels[j];
  }

  /** The slot right after `c` is its first child, unless `c`'s subtree is empty. */
  lemma FirstKid(levels: seq<nat>, c: nat)
    requires c < |levels| && c + 1 < End(levels, c)
    ensures ParentSlot(levels, c + 1) == Some(c)
  {
  }

  /**
   * After the subtree of a child `c` of `j` comes the next child of `j`, or
   * the end of `j`'s subtree.
   */
  lemma NextKid(levels: seq<nat>, j: nat, c: nat)
    requires 0 < c < |levels| && ParentSlot(levels, c) == Some(j)
    ensures End(levels, c) <= End(levels, j)
    ensures End(levels, c) < End(levels, j) ==> ParentSlot(levels, End(levels, c)) == Some(j)
  {
    KidInRange(levels, j, c);
    var e := End(levels, c);
    if e < End(levels, j) {
      LastBelowIs(levels, levels[e], e, j);
    }
  }

  /** No child of `j` lies inside the subtree of another child `c` of `j`. */
  lemma NoKidInside(levels: seq<nat>, j: nat, c: nat, m: nat)
    requires 0 < c < |levels| && ParentSlot(levels, c) == Some(j)
    requires c < m < End(levels, c)
    ensures ParentSlot(levels, m) != Some(j)
  {
    assert levels[c] < levels[m];
    assert ParentSlot(levels, m).Some? && ParentSlot(levels, m).value >= c;
  }

  lemma {:induction false} ChildSlotsSplit(levels: seq<nat>, j: nat, lo: nat, mid: nat, hi: nat)
    requires 1 <= lo <= mid <= hi <= |levels|
    ensures ChildSlots(levels, j, lo, hi) == ChildSlots(levels, j, lo, mid) + ChildSlots(levels, j, mid, hi)
    decreases mid - lo
  {
    if lo < mid {
      ChildSlotsSplit(levels, j, lo + 1, mid, hi);
    }
  }

  lemma {:induction false} ChildSlotsNone(levels: seq<nat>, j: nat, lo: nat, hi: nat)
    requires 1 <= lo && hi <= |levels|
    requires forall c :: lo <= c < hi ==> ParentSlot(levels, c) != Some(j)
    ensures ChildSlots(levels, j, lo, hi) == []
    decreases hi - lo
  {
    if lo < hi {
      ChildSlotsNone(levels, j, lo + 1, hi);
    }
  }

  // ---------------------------------------------------------------------
  // Pre-order

  /** A heading without its children. */
  function Strip(n: HeadingNode): HeadingNode {
    HeadingNode(n.text, n.level, [])
  }

  /** The headings of a forest in pre-order, children stripped. */
  function Flatten(ns: seq<HeadingNode>): seq<HeadingNode>
    decreases ns
  {
    if |ns| == 0 then [] else FlattenNode(ns[0]) + Flatten(ns[1..])
  }

  function FlattenNode(n: HeadingNode): seq<HeadingNode>
    decreases n
  {
    [Strip(n)] + Flatten(n.children)
  }

  lemma {:induction false} FlattenAppend(x: seq<HeadingNode>, y: seq<HeadingNode>)
    ensures Flatten(x + y) == Flatten(x) + Flatten(y)
  {
    if |x| == 0 {
      assert x + y == y;
    } else {
      assert (x + y)[0] == x[0] && (x + y)[1..] == x[1..] + y;
      FlattenAppend(x[1..], y);
    }
  }

  /** The nodes of a list of slots. */
  function Forest(a: Arena, ks: seq<nat>): (r: seq<HeadingNode>)
    requires ValidArena(a) && forall i :: 0 <= i < |ks| ==> ks[i] < |a.kids|
    ensures |r| == |ks|
  {
    seq(|ks|, i requires 0 <= i < |ks| => Node(a, ks[i]))
  }

  /** The slots `lo .. hi-1` as stripped headings. */
  function SlotRun(a: Arena, lo: nat, hi: nat): (r: seq<HeadingNode>)
    requires ValidArena(a) && lo <= hi <= |a.kids|
    ensures |r| == hi - lo
  {
    seq(hi - lo, i requires 0 <= i < hi - lo => HeadingNode(a.texts[lo + i], a.levels[lo + i], []))
  }

  lemma SlotRunAppend(a: Arena, lo: nat, mid: nat, hi: nat)
    requires ValidArena(a) && lo <= mid <= hi <= |a.kids|
    ensures SlotRun(a, lo, mid) + SlotRun(a, mid, hi) == SlotRun(a, lo, hi)
  {
  }

  /** The children of `j` from its child `c` on: `c`, then those after `c`'s subtree. */
  lemma KidsFrom(levels: seq<nat>, j: nat, c: nat)
    requires 0 < c < |levels| && ParentSlot(levels, c) == Some(j)
    ensures c < End(levels, c) <= |levels|
    ensures ChildSlots(levels, j, c, |levels|) == [c] + ChildSlots(levels, j, End(levels, c), |levels|)
  {
    var n := |levels|;
    var e := End(levels, c);
    forall x | c + 1 <= x < e ensures ParentSlot(levels, x) != Some(j) {
      NoKidInside(levels, j, c, x);
    }
    ChildSlotsNone(levels, j, c + 1, e);
    ChildSlotsSplit(levels, j, c + 1, e, n);
  }

  /** The children of `j` lie after `j`. */
  lemma OwnKids(levels: seq<nat>, j: nat)
    requires 0 <= j < |levels|
    ensures ChildSlots(levels, j, 1, |levels|) == ChildSlots(levels, j, j + 1, |levels|)
  {
    ChildSlotsBeforeParent(levels, j, 1, j + 1);
    ChildSlotsSplit(levels, j, 1, j + 1, |levels|);
  }

  /** There are no children of `j` from the end of its subtree on. */
  lemma NoKidsAfterEnd(levels: seq<nat>, j: nat)
    requires j < |levels|
    ensures ChildSlots(levels, j, End(levels, j), |levels|) == []
  {
    var n := |levels|;
    forall x | End(levels, j) <= x < n ensures ParentSlot(levels, x) != Some(j) {
      if ParentSlot(levels, x) == Some(j) {
        KidInRange(levels, j, x);
      }
    }
    ChildSlotsNone(levels, j, End(levels, j), n);
  }

  lemma ForestCons(a: Arena, c: nat, rest: seq<nat>)
    requires ValidArena(a) && c < |a.kids| && forall i :: 0 <= i < |rest| ==> rest[i] < |a.kids|
    ensures Flatten(Forest(a, [c] + rest)) == FlattenNode(Node(a, c)) + Flatten(Forest(a, rest))
  {
    assert Forest(a, [c] + rest) == [Node(a, c)] + Forest(a, rest);
    FlattenAppend([Node(a, c)], Forest(a, rest));
    assert [Node(a, c)][1..] == [];
  }

  /** Every slot's children are its `ChildSlots`: the arena the loop leaves behind. */
  predicate SpecShaped(a: Arena) {
    && ValidArena(a)
    && forall j :: 0 <= j < |a.kids| ==> a.kids[j] == ChildSlots(a.levels, j, 1, |a.levels|)
  }

  lemma SpecArenaShaped(flat: seq<HeadingNode>)
    ensures SpecShaped(SpecArena(flat))
  {
  }

  /** A slot's node: its own heading, then its children read from the slots after it. */
  lemma NodeParts(a: Arena, c: nat)
    requires SpecShaped(a) && c < |a.levels|
    ensures FlattenNode(Node(a, c)) ==
      SlotRun(a, c, c + 1) + Flatten(Forest(a, ChildSlots(a.levels, c, c + 1, |a.levels|)))
  {
    OwnKids(a.levels, c);
    assert Node(a, c).children == Forest(a, a.kids[c]);
  }

  /** The subtree of slot `c`, flattened, is the run of slots from `c` to its end. */
  lemma {:induction false} NodeFlatten(a: Arena, c: nat)
    requires SpecShaped(a) && c < |a.levels|
    ensures FlattenNode(Node(a, c)) == SlotRun(a, c, End(a.levels, c))
    decreases |a.levels| - c, 0
  {
    var e := End(a.levels, c);
    NodeParts(a, c);
    if c + 1 < e {
      FirstKid(a.levels, c);
    }
    KidsFlatten(a, c, c + 1);
    SlotRunAppend(a, c, c + 1, e);
  }

  /**
   * The children of slot `j` from child `c` on, flattened, are exactly the
   * slots from `c` to the end of `j`'s subtree.
   */
  lemma {:induction false} KidsFlatten(a: Arena, j: nat, c: nat)
    requires SpecShaped(a) && j < |a.levels|
    requires j < c <= End(a.levels, j)
    requires c == End(a.levels, j) || ParentSlot(a.levels, c) == Some(j)
    ensures Flatten(Forest(a, ChildSlots(a.levels, j, c, |a.levels|))) == SlotRun(a, c, End(a.levels, j))
    decreases |a.levels| - c, 1
  {
    var n := |a.levels|;
    if c == End(a.levels, j) {
      NoKidsAfterEnd(a.levels, j);
      assert Forest(a, []) == [];
    } else {
      var e := End(a.levels, c);
      NextKid(a.levels, j, c);
      KidsFrom(a.levels, j, c);
      ForestCons(a, c, ChildSlots(a.levels, j, e, n));
      NodeFlatten(a, c);
      KidsFlatten(a, j, e);
      SlotRunAppend(a, c, e, End(a.levels, j));
    }
  }

  /** The root's children, flattened, are the slots from 1 to the end of the root's subtree. */
  lemma RootFlatten(a: Arena)
    requires SpecShaped(a) && |a.levels| >= 1
    ensures Flatten(Node(a, 0).children) == SlotRun(a, 1, End(a.levels, 0))
  {
    var n := |a.levels|;
    if 1 < End(a.levels, 0) {
      FirstKid(a.levels, 0);
    }
    KidsFlatten(a, 0, 1);
    OwnKids(a.levels, 0);
    assert Node(a, 0).children == Forest(a, ChildSlots(a.levels, 0, 1, n));
  }

  /**
   * The pre-order of the result is the input, up to (not including) the
   * first heading of level 0: that heading finds no parent, and every later
   * heading is appended below it or below one of its descendants.
   */
  lemma HeadingsKeptUpToFirstZero(flat: seq<HeadingNode>)
    requires forall i :: 0 <= i < |flat| ==> flat[i].children == []
    ensures var p := End(Levels(flat), 0) - 1;
      && p <= |flat|
      && (forall i :: 0 <= i < p ==> flat[i].level >= 1)
      && (p < |flat| ==> flat[p].level == 0)
      && Flatten(HeadingForest(flat)) == flat[..p]
  {
    var a := SpecArena(flat);
    SpecArenaShaped(flat);
    RootFlatten(a);
    var e := End(a.levels, 0);
    assert forall i :: 0 <= i < e - 1 ==> SlotRun(a, 1, e)[i] == flat[i];
    assert SlotRun(a, 1, e) == flat[..e - 1];
  }

  /** With every level at least 1, pre-order flattening gives the input back. */
  lemma PreOrderIsInputOrder(flat: seq<HeadingNode>)
    requires forall i :: 0 <= i < |flat| ==> flat[i].children == [] && flat[i].level >= 1
    ensures Flatten(HeadingForest(flat)) == flat
  {
    HeadingsKeptUpToFirstZero(flat);
    assert flat[..|flat|] == flat;
  }

  /** For a list of heading nodes, `encodeHeadingTree` keeps them all, in order, when no tag has level 0. */
  lemma HeadingListPreOrder(headingList: seq<RenderNode>)
    requires forall i :: 0 <= i < |headingList| ==>
      IsHeadingTag(headingList[i].tag) && DigitsValue(headingList[i].tag[1..]) >= 1
    ensures Flatten(HeadingForest(FlatHeadings(headingList))) == FlatHeadings(headingList)
  {
    PreOrderIsInputOrder(FlatHeadings(headingList));
  }

  // ---------------------------------------------------------------------
  // Levels grow downwards

  predicate LevelsIncrease(n: HeadingNode) {
    forall i :: 0 <= i < |n.children| ==> n.children[i].level > n.level && LevelsIncrease(n.children[i])
  }

  lemma {:induction false} NodeLevels(a: Arena, j: nat)
    requires SpecShaped(a) && j < |a.levels|
    ensures Node(a, j).level == a.levels[j]
    ensures LevelsIncrease(Node(a, j))
    decreases |a.levels| - j
  {
    var node := Node(a, j);
    forall i | 0 <= i < |node.children|
      ensures node.children[i].level > node.level && LevelsIncrease(node.children[i])
    {
      var c := a.kids[j][i];
      assert node.children[i] == Node(a, c);
      NodeLevels(a, c);
    }
  }

  /**
   * Every heading in the result has level at least 1, and every child has a
   * strictly larger level than its parent.
   */
  lemma ForestLevels(flat: seq<HeadingNode>)
    ensures forall i :: 0 <= i < |HeadingForest(flat)| ==>
      HeadingForest(flat)[i].level >= 1 && LevelsIncrease(HeadingForest(flat)[i])
  {
    SpecArenaShaped(flat);
    NodeLevels(SpecArena(flat), 0);
  }

  /** A heading of level 0 has no parent: the root's level is 0 too. */
  lemma LevelZeroHasNoParent(flat: seq<HeadingNode>, p: nat)
    requires p < |flat| && flat[p].level == 0
    ensures ParentSlot(Levels(flat), p + 1) == None
  {
  }

  // ---------------------------------------------------------------------
  // Concrete cases

  lemma ChildSlotsOneThreeTwo()
    ensures ChildSlots([0, 1, 3, 2], 0, 1, 4) == [1]
    ensures ChildSlots([0, 1, 3, 2], 1, 1, 4) == [2, 3]
    ensures ChildSlots([0, 1, 3, 2], 2, 1, 4) == []
    ensures ChildSlots([0, 1, 3, 2], 3, 1, 4) == []
  {
    var levels: seq<nat> := [0, 1, 3, 2];
    ParentsOneThreeTwo(levels);
    RootSlotsOneThreeTwo(levels);
    FirstSlotsOneThreeTwo(levels);
    SecondSlotsOneThreeTwo(levels);
    ChildSlotsBeforeParent(levels, 3, 1, 4);
  }

  lemma ParentsOneThreeTwo(levels: seq<nat>)
    requires levels == [0, 1, 3, 2]
    ensures ParentSlot(levels, 1) == Some(0)
    ensures ParentSlot(levels, 2) == Some(1)
    ensures ParentSlot(levels, 3) == Some(1)
  {
  }

  lemma RootSlotsOneThreeTwo(levels: seq<nat>)
    requires |levels| == 4
    requires ParentSlot(levels, 1) == Some(0) && ParentSlot(levels, 2) == Some(1) && ParentSlot(levels, 3) == Some(1)
    ensures ChildSlots(levels, 0, 1, 4) == [1]
  {
    ChildSlotsStep(levels, 0, 3, 4);
    ChildSlotsStep(levels, 0, 2, 4);
    ChildSlotsStep(levels, 0, 1, 4);
    assert [1] + ([] + ([] + [])) == [1];
  }

  lemma FirstSlotsOneThreeTwo(levels: seq<nat>)
    requires |levels| == 4
    requires ParentSlot(levels, 1) == Some(0) && ParentSlot(levels, 2) == Some(1) && ParentSlot(levels, 3) == Some(1)
    ensures ChildSlots(levels, 1, 1, 4) == [2, 3]
  {
    ChildSlotsStep(levels, 1, 3, 4);
    ChildSlotsStep(levels, 1, 2, 4);
    ChildSlotsStep(levels, 1, 1, 4);
    assert [] + ([2] + ([3] + [])) == [2, 3];
  }

  lemma SecondSlotsOneThreeTwo(levels: seq<nat>)
    requires |levels| == 4
    requires ParentSlot(levels, 1) == Some(0) && ParentSlot(levels, 2) == Some(1) && ParentSlot(levels, 3) == Some(1)
    ensures ChildSlots(levels, 2, 1, 4) == []
  {
    ChildSlotsStep(levels, 2, 3, 4);
    ChildSlotsStep(levels, 2, 2, 4);
    ChildSlotsStep(levels, 2, 1, 4);
  }

  lemma NodesOneThreeTwo(ar: Arena, a: string, b: string, c: string)
    requires ValidArena(ar) && ar.levels == [0, 1, 3, 2] && ar.texts == ["", a, b, c]
    requires ar.kids[0] == [1] && ar.kids[1] == [2, 3] && ar.kids[2] == [] && ar.kids[3] == []
    ensures Node(ar, 0).children == [HeadingNode(a, 1, [HeadingNode(b, 3, []), HeadingNode(c, 2, [])])]
  {
    assert Node(ar, 2) == HeadingNode(b, 3, []);
    assert Node(ar, 3) == HeadingNode(c, 2, []);
    assert Node(ar, 1) == HeadingNode(a, 1, [Node(ar, 2), Node(ar, 3)]);
  }

  lemma ArenaOneThreeTwo(a: string, b: string, c: string)
    ensures var ar := SpecArena([HeadingNode(a, 1, []), HeadingNode(b, 3, []), HeadingNode(c, 2, [])]);
      && ar.levels == [0, 1, 3, 2] && ar.texts == ["", a, b, c]
      && ar.kids[0] == [1] && ar.kids[1] == [2, 3] && ar.kids[2] == [] && ar.kids[3] == []
  {
    var flat := [HeadingNode(a, 1, []), HeadingNode(b, 3, []), HeadingNode(c, 2, [])];
    var levels := Levels(flat);
    assert levels == [0, 1, 3, 2];
    assert Texts(flat) == ["", a, b, c];
    ChildSlotsOneThreeTwo();
    var kids := SpecArena(flat).kids;
    assert kids[0] == ChildSlots(levels, 0, 1, 4);
    assert kids[1] == ChildSlots(levels, 1, 1, 4);
    assert kids[2] == ChildSlots(levels, 2, 1, 4);
    assert kids[3] == ChildSlots(levels, 3, 1, 4);
  }

  /** Levels 1, 3, 2: the second and third heading both hang below the first. */
  lemma DeeperThenShallower(a: string, b: string, c: string)
    ensures HeadingForest([HeadingNode(a, 1, []), HeadingNode(b, 3, []), HeadingNode(c, 2, [])])
      == [HeadingNode(a, 1, [HeadingNode(b, 3, []), HeadingNode(c, 2, [])])]
  {
    ArenaOneThreeTwo(a, b, c);
    NodesOneThreeTwo(SpecArena([HeadingNode(a, 1, []), HeadingNode(b, 3, []), HeadingNode(c, 2, [])]), a, b, c);
  }

  /** Two headings of the same level are siblings. */
  lemma EqualLevelsAreSiblings(a: string, b: string, level: nat)
    requires level >= 1
    ensures HeadingForest([HeadingNode(a, level, []), HeadingNode(b, level, [])])
      == [HeadingNode(a, level, []), HeadingNode(b, level, [])]
  {
    ArenaEqualLevels(a, b, level);
    NodesEqualLevels(SpecArena([HeadingNode(a, level, []), HeadingNode(b, level, [])]), a, b, level);
  }

  lemma ChildSlotsEqualLevels(levels: seq<nat>)
    requires |levels| == 3 && levels[0] == 0 && levels[1] >= 1 && levels[2] == levels[1]
    ensures ChildSlots(levels, 0, 1, 3) == [1, 2]
    ensures ChildSlots(levels, 1, 1, 3) == []
    ensures ChildSlots(levels, 2, 1, 3) == []
  {
    assert ParentSlot(levels, 1) == Some(0);
    assert ParentSlot(levels, 2) == Some(0);
    ChildSlotsStep(levels, 0, 2, 3);
    ChildSlotsStep(levels, 0, 1, 3);
    assert [1] + ([2] + []) == [1, 2];
    ChildSlotsNone(levels, 1, 1, 3);
    ChildSlotsBeforeParent(levels, 2, 1, 3);
  }

  lemma ArenaEqualLevels(a: string, b: string, level: nat)
    requires level >= 1
    ensures var ar := SpecArena([HeadingNode(a, level, []), HeadingNode(b, level, [])]);
      && ar.levels == [0, level, level] && ar.texts == ["", a, b]
      && ar.kids[0] == [1, 2] && ar.kids[1] == [] && ar.kids[2] == []
  {
    var flat := [HeadingNode(a, level, []), HeadingNode(b, level, [])];
    var levels := Levels(flat);
    assert levels == [0, level, level];
    assert Texts(flat) == ["", a, b];
    ChildSlotsEqualLevels(levels);
    var kids := SpecArena(flat).kids;
    assert kids[0] == ChildSlots(levels, 0, 1, 3);
    assert kids[1] == ChildSlots(levels, 1, 1, 3);
    assert kids[2] == ChildSlots(levels, 2, 1, 3);
  }

  lemma NodesEqualLevels(ar: Arena, a: string, b: string, level: nat)
    requires ValidArena(ar) && ar.levels == [0, level, level] && ar.texts == ["", a, b]
    requires ar.kids[0] == [1, 2] && ar.kids[1] == [] && ar.kids[2] == []
    ensures Node(ar, 0).children == [HeadingNode(a, level, []), HeadingNode(b, level, [])]
  {
    assert Node(ar, 1) == HeadingNode(a, level, []);
    assert Node(ar, 2) == HeadingNode(b, level, []);
  }

  // ---------------------------------------------------------------------
  // A stack that pops

  /**
   * Pops from the end of `stack` every slot whose level is not below `level`
   * and stops at the first one that is.
   */
  function PopNotBelow(levels: seq<nat>, stack: seq<nat>, level: nat): (r: seq<nat>)
    requires forall i :: 0 <= i < |stack| ==> stack[i] < |levels|
    ensures |r| <= |stack| && r == stack[..|r|]
    ensures forall i :: |r| <= i < |stack| ==> levels[stack[i]] >= level
    ensures |r| > 0 ==> levels[r[|r| - 1]] < level
    decreases |stack|
  {
    if |stack| == 0 || levels[stack[|stack| - 1]] < level then stack
    else PopNotBelow(levels, stack[..|stack| - 1], level)
  }

  /**
   * The stack before slot `k` when every heading first pops the entries
   * whose level is not smaller than its own, then is pushed.
   */
  function MonoStack(levels: seq<nat>, k: nat): (r: seq<nat>)
    requires 1 <= k <= |levels|
    ensures forall i :: 0 <= i < |r| ==> r[i] < k
    decreases k
  {
    if k == 1 then [0]
    else PopNotBelow(levels, MonoStack(levels, k - 1), levels[k - 1]) + [k - 1]
  }

  /** The parent the popping stack gives slot `k`: what is left on top after popping. */
  function MonoParent(levels: seq<nat>, k: nat): Option<nat>
    requires 1 <= k < |levels|
  {
    var st := PopNotBelow(levels, MonoStack(levels, k), levels[k]);
    if |st| == 0 then None else Some(st[|st| - 1])
  }

  /** No slot after `m` and before `k` has a level that is not larger than `m`'s. */
  predicate Undominated(levels: seq<nat>, k: nat, m: nat)
    requires k <= |levels|
  {
    m < k && forall q :: m < q < k ==> levels[q] > levels[m]
  }

  /** An increasing stack of undominated slots has increasing levels. */
  lemma StackLevelsIncrease(levels: seq<nat>, stack: seq<nat>, k: nat)
    requires k <= |levels| && Increasing(stack)
    requires forall m :: m in stack <==> Undominated(levels, k, m)
    ensures forall i :: 0 <= i < |stack| ==> stack[i] < k
    ensures forall i, i' :: 0 <= i < i' < |stack| ==> levels[stack[i]] < levels[stack[i']]
  {
    forall i | 0 <= i < |stack| ensures stack[i] < k {
      assert stack[i] in stack;
    }
    forall i, i' | 0 <= i < i' < |stack| ensures levels[stack[i]] < levels[stack[i']] {
      assert stack[i] in stack;
      assert Undominated(levels, k, stack[i]);
    }
  }

  /** On a stack whose levels increase, popping keeps exactly the slots below `level`. */
  lemma PopMembers(levels: seq<nat>, stack: seq<nat>, level: nat)
    requires forall i :: 0 <= i < |stack| ==> stack[i] < |levels|
    requires forall i, i' :: 0 <= i < i' < |stack| ==> levels[stack[i]] < levels[stack[i']]
    ensures forall m :: m in PopNotBelow(levels, stack, level) <==> m in stack && levels[m] < level
  {
    var r := PopNotBelow(levels, stack, level);
    forall m ensures m in r <==> m in stack && levels[m] < level {
      if m in r {
        var i :| 0 <= i < |r| && r[i] == m;
        assert stack[i] == m && stack[|r| - 1] == r[|r| - 1];
        assert levels[m] <= levels[r[|r| - 1]];
      }
      if m in stack && levels[m] < level {
        var i :| 0 <= i < |stack| && stack[i] == m;
        assert i < |r|;
        assert r[i] == m;
      }
    }
  }

  /** One push of the popping stack keeps it increasing and undominated. */
  lemma MonoStep(levels: seq<nat>, k: nat, st: seq<nat>, r: seq<nat>)
    requires 1 < k <= |levels|
    requires Increasing(st) && forall i :: 0 <= i < |st| ==> st[i] < k - 1
    requires forall m :: m in st <==> Undominated(levels, k - 1, m)
    requires |r| <= |st| && r == st[..|r|]
    requires forall m :: m in r <==> m in st && levels[m] < levels[k - 1]
    ensures Increasing(r + [k - 1])
    ensures forall m :: m in r + [k - 1] <==> Undominated(levels, k, m)
  {
    var next := r + [k - 1];
    forall i, i' | 0 <= i < i' < |next| ensures next[i] < next[i'] {
      assert next[i] == st[i];
      if i' < |r| {
        assert next[i'] == st[i'];
      }
    }
    forall m ensures m in next <==> Undominated(levels, k, m) {
      assert m in next <==> m in r || m == k - 1;
    }
  }

  /** The popping stack holds exactly the undominated slots, in increasing order. */
  lemma {:induction false} MonoStackUndominated(levels: seq<nat>, k: nat)
    requires 1 <= k <= |levels|
    ensures Increasing(MonoStack(levels, k))
    ensures forall m :: m in MonoStack(levels, k) <==> Undominated(levels, k, m)
    decreases k
  {
    if k > 1 {
      var st := MonoStack(levels, k - 1);
      MonoStackUndominated(levels, k - 1);
      StackLevelsIncrease(levels, st, k - 1);
      var r := PopNotBelow(levels, st, levels[k - 1]);
      PopMembers(levels, st, levels[k - 1]);
      MonoStep(levels, k, st, r);
    }
  }

  /** The top left after popping an undominated stack is the last earlier slot below `k`'s level. */
  lemma PoppedTop(levels: seq<nat>, k: nat, st: seq<nat>, r: seq<nat>)
    requires 1 <= k < |levels|
    requires Increasing(st) && forall i :: 0 <= i < |st| ==> st[i] < k
    requires forall m :: m in st <==> Undominated(levels, k, m)
    requires |r| <= |st| && r == st[..|r|]
    requires forall m :: m in r <==> m in st && levels[m] < levels[k]
    ensures |r| > 0 <==> ParentSlot(levels, k).Some?
    ensures |r| > 0 ==> r[|r| - 1] == ParentSlot(levels, k).value
  {
    var p := ParentSlot(levels, k);
    if |r| > 0 {
      var w := r[|r| - 1];
      assert w == st[|r| - 1] && w in st;
      assert w < k && levels[w] < levels[k];
      assert p.Some? && w <= p.value;
      var v := p.value;
      assert Undominated(levels, k, v);
      var i :| 0 <= i < |st| && st[i] == v;
      assert i < |r|;
      assert v <= w;
    } else {
      assert forall m :: m in st ==> levels[m] >= levels[k];
      assert p.Some? ==> Undominated(levels, k, p.value);
    }
  }

  /**
   * Popping the entries whose level is not smaller before pushing gives
   * every heading the same parent as the stack that is never popped.
   */
  lemma MonoParentIsParentSlot(levels: seq<nat>, k: nat)
    requires 1 <= k < |levels|
    ensures MonoParent(levels, k) == ParentSlot(levels, k)
  {
    var st := MonoStack(levels, k);
    MonoStackUndominated(levels, k);
    StackLevelsIncrease(levels, st, k);
    var r := PopNotBelow(levels, st, levels[k]);
    PopMembers(levels, st, levels[k]);
    PoppedTop(levels, k, st, r);
  }
}
