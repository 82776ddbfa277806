/** b2DynamicTree::Query and RayCast, the two explicit-stack traversals. */
module TreeQuery {
  import opened Geometry
  import opened GrowableStack
  import opened DynamicTree

  function Overlapping(box: AABB): AABB -> bool {
    b => TestOverlap(b, box)
  }

  function Everything(): AABB -> bool {
    b => true
  }

  lemma OverlappingIsMonotone(box: AABB)
    ensures Monotone(Overlapping(box))
  {
  }

  /** Does the callback let the traversal go on after every node of `reported`? It may look at all it has seen. */
  ghost predicate AllProceed(proceed: (seq<int>, int) -> bool, reported: seq<int>, n: nat)
    requires n <= |reported|
  {
    forall k :: 0 <= k < n ==> proceed(reported[..k], reported[k])
  }

  /** A run of Query reports a front of the full depth-first list: all of it if the callback never answers false,
      else exactly up to the first node at which it does. */
  ghost predicate FrontOf(all: seq<int>, proceed: (seq<int>, int) -> bool, reported: seq<int>) {
    && |reported| <= |all| && reported == all[..|reported|]
    && ((AllProceed(proceed, reported, |reported|) && reported == all)
        || (reported != [] && AllProceed(proceed, reported, |reported| - 1)
            && !proceed(reported[..|reported| - 1], reported[|reported| - 1])))
  }

  lemma FrontIsUnique(all: seq<int>, proceed: (seq<int>, int) -> bool, a: seq<int>, b: seq<int>)
    requires FrontOf(all, proceed, a) && FrontOf(all, proceed, b)
    ensures a == b
  {
    NotShorter(all, proceed, a, b);
    NotShorter(all, proceed, b, a);
  }

  lemma NotShorter(all: seq<int>, proceed: (seq<int>, int) -> bool, a: seq<int>, b: seq<int>)
    requires FrontOf(all, proceed, a) && FrontOf(all, proceed, b)
    ensures |a| >= |b|
  {
    assert forall n :: 0 <= n <= |a| && n <= |b| ==> a[..n] == all[..n] == b[..n];
  }

  class Tree {
    var root: int
    var nodes: array<TreeNode>

    ghost predicate IsValid()
      reads this, nodes
    {
      Valid(nodes[..], root)
    }

    /** Reports the leaves whose fat box overlaps `box` to a callback that may stop the walk. */
    method Query(box: AABB, proceed: (seq<int>, int) -> bool) returns (reported: seq<int>)
      requires IsValid()
      ensures FrontOf(Visit(nodes[..], root, root, Overlapping(box)), proceed, reported)
    {
      ghost var pool := nodes[..];
      reported := [];
      var stack := new GrowableStack<int>(256);
      QueryStart(pool, root, box, proceed);
      stack.Push(root);
      assert stack.Contents() == [root];
      var goOn := true;
      while goOn && stack.GetCount() > 0
        invariant stack.Valid() && fresh(stack) && fresh(stack.stack)
        invariant pool == nodes[..]
        invariant goOn ==> QueryState(pool, root, box, proceed, stack.Contents(), reported)
        invariant !goOn ==> FrontOf(Visit(pool, root, root, Overlapping(box)), proceed, reported)
        decreases goOn, if goOn then StackSize(pool, root, stack.Contents()) else 0
      {
        goOn, reported := QueryTurn(pool, stack, box, proceed, reported);
      }
      if goOn {
        assert stack.Contents() == [];
        QueryDone(pool, root, box, proceed, reported);
      }
    }

    /** Casts the ray from p1 towards p2, clipped by the callback's answers; `k` is what Normalize scales by.
        Whatever the callback answers, no leaf is visited twice, and unless it answers zero every leaf whose fat box
        the segment meets, at the shortest it ever was, is visited. */
    method RayCast(p1: Vec2, p2: Vec2, initial: real, k: real, answer: (real, int) -> real)
      returns (maxFraction: real, visited: seq<int>)
      requires IsValid() && p1 != p2
      ensures maxFraction == ClipAfter(answer, initial, visited)
      ensures CastOk(nodes[..], SegmentMeets(p1, p2), initial, answer, visited)
    {
      ghost var pool, meets := nodes[..], SegmentMeets(p1, p2);
      SegmentPruningIsSound(p1, p2, k);
      var r := Scale(k, p2.Minus(p1));
      var v := Cross(1.0, r);
      maxFraction, visited := initial, [];
      var segment := SegmentBox(p1, p2, maxFraction);
      var stack := new GrowableStack<int>(256);
      RayStart(pool, root, meets, initial, answer);
      stack.Push(root);
      assert stack.Contents() == [root];
      var goOn := true;
      while goOn && stack.GetCount() > 0
        invariant stack.Valid() && fresh(stack) && fresh(stack.stack)
        invariant pool == nodes[..]
        invariant maxFraction == ClipAfter(answer, initial, visited) && segment == SegmentBox(p1, p2, maxFraction)
        invariant goOn ==> RayState(pool, root, meets, initial, answer, stack.Contents(), visited)
        invariant !goOn ==> CastOk(pool, meets, initial, answer, visited)
        decreases goOn, if goOn then StackSize(pool, root, stack.Contents()) else 0
      {
        goOn, maxFraction, segment, visited :=
          RayTurn(pool, stack, p1, p2, k, v, initial, answer, maxFraction, segment, visited);
      }
      if goOn {
        assert stack.Contents() == [];
        RayDone(pool, root, meets, initial, answer, visited);
      }
    }

    /** One turn of RayCast's loop. */
    method RayTurn(ghost pool: Pool, stack: GrowableStack<int>, p1: Vec2, p2: Vec2, ghost k: real, v: Vec2,
                   ghost initial: real, answer: (real, int) -> real, maxFraction: real, segment: AABB,
                   visited: seq<int>)
      returns (goOn: bool, clip: real, box: AABB, now: seq<int>)
      requires stack.Valid() && stack.count > 0 && stack.stack as object != nodes && pool == nodes[..]
      requires v == Cross(1.0, Scale(k, p2.Minus(p1))) && segment == SegmentBox(p1, p2, maxFraction)
      requires maxFraction == ClipAfter(answer, initial, visited)
      requires Sound(SegmentMeets(p1, p2), SegmentPrunes(p1, p2, k))
      requires RayState(pool, root, SegmentMeets(p1, p2), initial, answer, stack.Contents(), visited)
      modifies stack, stack.stack
      ensures stack.Valid() && (stack.stack == old(stack.stack) || fresh(stack.stack))
      ensures clip == ClipAfter(answer, initial, now) && box == SegmentBox(p1, p2, clip)
      ensures goOn ==> RayState(pool, root, SegmentMeets(p1, p2), initial, answer, stack.Contents(), now)
      ensures goOn ==> StackSize(pool, root, stack.Contents()) < old(StackSize(pool, root, stack.Contents()))
      ensures !goOn ==> CastOk(pool, SegmentMeets(p1, p2), initial, answer, now)
    {
      var nodeId := stack.Pop();
      ghost var rest := stack.Contents();
      goOn, clip, box, now := true, maxFraction, segment, visited;
      RayStep(pool, root, SegmentMeets(p1, p2), SegmentPrunes(p1, p2, k), initial, answer, rest, nodeId, visited);
      if nodeId == NULL_NODE {
        return;
      }
      var node := nodes[nodeId];
      assert node == pool[nodeId];
      if RayPrunes(p1, p2, k, v, segment, maxFraction, node.aabb) {
        return;
      }
      if node.IsLeaf() {
        goOn, clip, box := RayAnswer(p1, p2, initial, answer, maxFraction, segment, visited, nodeId);
        now := visited + [nodeId];
      } else {
        stack.Push(node.child1);
        stack.Push(node.child2);
        assert stack.Contents() == rest + [node.child1] + [node.child2];
      }
    }

    /** The two tests of RayCast. */
    static predicate RayPrunes(p1: Vec2, p2: Vec2, ghost k: real, v: Vec2, segment: AABB, ghost clip: real,
                               box: AABB): (r: bool)
      requires v == Cross(1.0, Scale(k, p2.Minus(p1))) && segment == SegmentBox(p1, p2, clip)
      ensures r == SegmentPrunes(p1, p2, k)(box, clip)
    {
      !TestOverlap(box, segment) || Separated(v, p1, box)
    }

    /** What RayCast does with the answer for a leaf. */
    static method RayAnswer(p1: Vec2, p2: Vec2, ghost initial: real, answer: (real, int) -> real,
                            maxFraction: real, segment: AABB, ghost visited: seq<int>, nodeId: int)
      returns (goOn: bool, clip: real, box: AABB)
      requires segment == SegmentBox(p1, p2, maxFraction) && maxFraction == ClipAfter(answer, initial, visited)
      ensures clip == ClipAfter(answer, initial, visited + [nodeId]) && box == SegmentBox(p1, p2, clip)
      ensures goOn <==> !Stopped(answer, initial, visited + [nodeId])
    {
      var value := answer(maxFraction, nodeId);
      goOn, clip, box := value != 0.0, maxFraction, segment;
      assert (visited + [nodeId])[..|visited|] == visited;
      if value > 0.0 {
        clip := value;
        box := SegmentBox(p1, p2, clip);
      }
    }

    /** One turn of Query's loop. */
    method QueryTurn(ghost pool: Pool, stack: GrowableStack<int>, box: AABB, proceed: (seq<int>, int) -> bool,
                     reported: seq<int>)
      returns (goOn: bool, now: seq<int>)
      requires stack.Valid() && stack.count > 0 && stack.stack as object != nodes && pool == nodes[..]
      requires QueryState(pool, root, box, proceed, stack.Contents(), reported)
      modifies stack, stack.stack
      ensures stack.Valid() && (stack.stack == old(stack.stack) || fresh(stack.stack))
      ensures goOn ==> QueryState(pool, root, box, proceed, stack.Contents(), now)
      ensures goOn ==> StackSize(pool, root, stack.Contents()) < old(StackSize(pool, root, stack.Contents()))
      ensures !goOn ==> FrontOf(Visit(pool, root, root, Overlapping(box)), proceed, now)
    {
      var nodeId := stack.Pop();
      ghost var rest := stack.Contents();
      goOn, now := true, reported;
      QueryStep(pool, root, box, proceed, rest, nodeId, reported);
      if nodeId == NULL_NODE {
        return;
      }
      var node := nodes[nodeId];
      assert node == pool[nodeId];
      if TestOverlap(node.aabb, box) {
        if node.IsLeaf() {
          goOn, now := proceed(reported, nodeId), reported + [nodeId];
        } else {
          stack.Push(node.child1);
          stack.Push(node.child2);
          assert stack.Contents() == rest + [node.child1] + [node.child2];
        }
      }
    }
  }

  /** Between two turns of Query's loop: what was reported and what is still on the stack make up the full list. */
  ghost predicate QueryState(pool: Pool, root: int, box: AABB, proceed: (seq<int>, int) -> bool,
                             stack: seq<int>, reported: seq<int>)
  {
    && Valid(pool, root) && StackOk(pool, stack)
    && Visit(pool, root, root, Overlapping(box)) == reported + Pending(pool, root, stack, Overlapping(box))
    && AllProceed(proceed, reported, |reported|)
  }

  lemma QueryStart(pool: Pool, root: int, box: AABB, proceed: (seq<int>, int) -> bool)
    requires Valid(pool, root)
    ensures QueryState(pool, root, box, proceed, [root], [])
  {
    PendingRoot(pool, root, Overlapping(box));
  }

  lemma QueryDone(pool: Pool, root: int, box: AABB, proceed: (seq<int>, int) -> bool, reported: seq<int>)
    requires QueryState(pool, root, box, proceed, [], reported)
    ensures FrontOf(Visit(pool, root, root, Overlapping(box)), proceed, reported)
  {
    assert reported + [] == reported;
  }

  /** One turn of the loop, whichever branch it takes. */
  lemma QueryStep(pool: Pool, root: int, box: AABB, proceed: (seq<int>, int) -> bool,
                  rest: seq<int>, i: int, reported: seq<int>)
    requires QueryState(pool, root, box, proceed, rest + [i], reported)
    ensures i == NULL_NODE || Live(pool, i)
    ensures StackOk(pool, rest) && StackSize(pool, root, rest) < StackSize(pool, root, rest + [i])
    ensures i == NULL_NODE || !TestOverlap(pool[i].aabb, box) ==> QueryState(pool, root, box, proceed, rest, reported)
    ensures i != NULL_NODE && TestOverlap(pool[i].aabb, box) && pool[i].IsLeaf() ==>
      if proceed(reported, i) then QueryState(pool, root, box, proceed, rest, reported + [i])
      else FrontOf(Visit(pool, root, root, Overlapping(box)), proceed, reported + [i])
    ensures i != NULL_NODE && TestOverlap(pool[i].aabb, box) && !pool[i].IsLeaf() ==>
      var now := rest + [pool[i].child1] + [pool[i].child2];
      && QueryState(pool, root, box, proceed, now, reported)
      && StackSize(pool, root, now) < StackSize(pool, root, rest + [i])
  {
    var keep := Overlapping(box);
    PopTop(pool, root, rest, i, keep);
    var more := Pending(pool, root, rest, keep);
    if i == NULL_NODE || !keep(pool[i].aabb) {
      assert [] + more == more;
    } else if pool[i].IsLeaf() {
      ReportLeaf(Visit(pool, root, root, keep), reported, i, more, proceed);
    } else {
      PushChildren(pool, root, rest, i, keep);
    }
  }

  lemma ReportLeaf(all: seq<int>, reported: seq<int>, x: int, rest: seq<int>, proceed: (seq<int>, int) -> bool)
    requires all == reported + ([x] + rest) && AllProceed(proceed, reported, |reported|)
    ensures all == (reported + [x]) + rest
    ensures if proceed(reported, x) then AllProceed(proceed, reported + [x], |reported| + 1)
            else FrontOf(all, proceed, reported + [x])
  {
    var now := reported + [x];
    assert now[..|reported|] == reported;
    forall k | 0 <= k < |reported|
      ensures proceed(now[..k], now[k])
    {
      assert now[..k] == reported[..k];
    }
  }

  /** With a callback that never stops it, Query reports exactly the live leaves whose box overlaps, each once. */
  lemma QueryReportsExactly(pool: Pool, root: int, box: AABB, reported: seq<int>)
    requires Valid(pool, root)
    requires FrontOf(Visit(pool, root, root, Overlapping(box)), (seen, id) => true, reported)
    ensures NoDuplicates(reported)
    ensures forall x :: x in reported <==> Reports(pool, x, Overlapping(box))
  {
    OverlappingIsMonotone(box);
    VisitFromRoot(pool, root, Overlapping(box));
  }

  // ----- RayCast -----

  /** Whether the point at a fraction of the segment lies in a box, and whether a box is pruned at a clip. */
  type Meets = (AABB, real) -> bool
  type Prunes = (AABB, real) -> bool

  function SegmentMeets(p1: Vec2, p2: Vec2): Meets {
    (box: AABB, f: real) => box.HasPoint(PointAt(p1, p2, f))
  }

  function SegmentPrunes(p1: Vec2, p2: Vec2, k: real): Prunes {
    (box: AABB, clip: real) =>
      !TestOverlap(box, SegmentBox(p1, p2, clip)) || Separated(Cross(1.0, Scale(k, p2.Minus(p1))), p1, box)
  }

  /** A box that contains one the clipped segment meets is met as well, and never pruned. */
  ghost predicate Sound(meets: Meets, prunes: Prunes) {
    && (forall a: AABB, b: AABB, f: real {:trigger a.Contains(b), meets(b, f)} ::
         a.Contains(b) && meets(b, f) ==> meets(a, f))
    && (forall b: AABB, f: real, clip: real {:trigger meets(b, f), prunes(b, clip)} ::
          0.0 < f <= clip && meets(b, f) ==> !prunes(b, clip))
  }

  lemma SegmentPruningIsSound(p1: Vec2, p2: Vec2, k: real)
    ensures Sound(SegmentMeets(p1, p2), SegmentPrunes(p1, p2, k))
  {
    var meets, prunes := SegmentMeets(p1, p2), SegmentPrunes(p1, p2, k);
    forall b: AABB, f: real, clip: real | 0.0 < f <= clip && meets(b, f)
      ensures !prunes(b, clip)
    {
      MeetsSegmentBox(p1, p2, f, clip, b);
      NotSeparated(p1, p2, k, f, b);
    }
  }

  /** The clip after the callback has answered for every node of `visited`. */
  function ClipAfter(answer: (real, int) -> real, initial: real, visited: seq<int>): real {
    if visited == [] then initial else
      var clip := ClipAfter(answer, initial, visited[..|visited| - 1]);
      var value := answer(clip, visited[|visited| - 1]);
      if value > 0.0 then value else clip
  }

  /** The smallest clip along the way. */
  function LowestClip(answer: (real, int) -> real, initial: real, visited: seq<int>): (r: real)
    ensures r <= ClipAfter(answer, initial, visited)
  {
    if visited == [] then initial else
      Min(LowestClip(answer, initial, visited[..|visited| - 1]), ClipAfter(answer, initial, visited))
  }

  predicate Stopped(answer: (real, int) -> real, initial: real, visited: seq<int>) {
    visited != [] && answer(ClipAfter(answer, initial, visited[..|visited| - 1]), visited[|visited| - 1]) == 0.0
  }

  /** Each live leaf is visited at most once and nothing else is. */
  ghost predicate VisitedOnce(pool: Pool, visited: seq<int>) {
    NoDuplicates(visited) && forall x :: x in visited ==> Live(pool, x) && pool[x].IsLeaf()
  }

  /** Every leaf that is met within `reach` is in `found`. */
  ghost predicate Covers(pool: Pool, meets: Meets, reach: real, found: seq<int>) {
    forall x, f {:trigger meets(pool[x].aabb, f)} ::
      Live(pool, x) && pool[x].IsLeaf() && 0.0 < f <= reach && meets(pool[x].aabb, f) ==> x in found
  }

  ghost predicate CastOk(pool: Pool, meets: Meets, initial: real, answer: (real, int) -> real, visited: seq<int>) {
    && VisitedOnce(pool, visited)
    && (Stopped(answer, initial, visited) || Covers(pool, meets, LowestClip(answer, initial, visited), visited))
  }

  /** The invariant of the loop: a leaf the clipped segment meets has been visited or is still on the stack. */
  ghost predicate RayState(pool: Pool, root: int, meets: Meets, initial: real, answer: (real, int) -> real,
                           stack: seq<int>, visited: seq<int>)
  {
    && Valid(pool, root) && StackOk(pool, stack)
    && Frontier(pool, root, meets, LowestClip(answer, initial, visited),
                Pending(pool, root, stack, Everything()), visited)
  }

  ghost predicate Frontier(pool: Pool, root: int, meets: Meets, reach: real, pending: seq<int>, visited: seq<int>)
    requires Valid(pool, root)
  {
    && multiset(visited + pending) <= multiset(Visit(pool, root, root, Everything()))
    && Covers(pool, meets, reach, visited + pending)
  }

  lemma RayStart(pool: Pool, root: int, meets: Meets, initial: real, answer: (real, int) -> real)
    requires Valid(pool, root)
    ensures RayState(pool, root, meets, initial, answer, [root], [])
  {
    PendingRoot(pool, root, Everything());
    EverythingCovers(pool, root, meets, initial);
  }

  lemma EverythingCovers(pool: Pool, root: int, meets: Meets, reach: real)
    requires Valid(pool, root)
    ensures Covers(pool, meets, reach, Visit(pool, root, root, Everything()))
  {
    VisitFromRoot(pool, root, Everything());
    forall x | Live(pool, x) && pool[x].IsLeaf()
      ensures x in Visit(pool, root, root, Everything())
    {
      assert Reports(pool, x, Everything());
    }
  }

  lemma RayDone(pool: Pool, root: int, meets: Meets, initial: real, answer: (real, int) -> real, visited: seq<int>)
    requires RayState(pool, root, meets, initial, answer, [], visited)
    ensures CastOk(pool, meets, initial, answer, visited)
  {
    assert visited + [] == visited;
    OnceBecauseDistinct(pool, root, visited, []);
  }

  /** Visited leaves are distinct because the list of all leaves is. */
  lemma OnceBecauseDistinct(pool: Pool, root: int, visited: seq<int>, more: seq<int>)
    requires Valid(pool, root)
    requires multiset(visited + more) <= multiset(Visit(pool, root, root, Everything()))
    ensures VisitedOnce(pool, visited)
  {
    var all := Visit(pool, root, root, Everything());
    VisitFromRoot(pool, root, Everything());
    DistinctPart(all, visited, more);
    forall x | x in visited
      ensures Live(pool, x) && pool[x].IsLeaf()
    {
      assert x in multiset(visited + more) && x in multiset(all);
      assert Reports(pool, x, Everything());
    }
  }

  lemma DistinctPart(all: seq<int>, visited: seq<int>, more: seq<int>)
    requires NoDuplicates(all) && multiset(visited + more) <= multiset(all)
    ensures NoDuplicates(visited)
  {
    forall j, k | 0 <= j < k < |visited|
      ensures visited[j] != visited[k]
    {
      var x := visited[j];
      CountOnce(all, x);
      assert multiset(visited + more)[x] <= 1;
      if visited[j] == visited[k] {
        CountTwice(visited + more, j, k);
      }
    }
  }

  lemma CountTwice(s: seq<int>, j: nat, k: nat)
    requires j < k < |s| && s[j] == s[k]
    ensures multiset(s)[s[j]] >= 2
  {
    assert s == s[..j] + [s[j]] + s[j + 1..k] + [s[k]] + s[k + 1..];
  }

  lemma {:induction false} CountOnce(s: seq<int>, x: int)
    requires NoDuplicates(s)
    ensures multiset(s)[x] <= 1
  {
    if s != [] {
      var front := s[..|s| - 1];
      assert s == front + [s[|s| - 1]];
      assert forall j :: 0 <= j < |front| ==> front[j] == s[j];
      CountOnce(front, x);
      if s[|s| - 1] == x {
        assert x !in front;
      }
    }
  }

  /** One turn of the loop, whichever branch it takes. */
  lemma RayStep(pool: Pool, root: int, meets: Meets, prunes: Prunes, initial: real, answer: (real, int) -> real,
                rest: seq<int>, i: int, visited: seq<int>)
    requires Sound(meets, prunes) && RayState(pool, root, meets, initial, answer, rest + [i], visited)
    ensures i == NULL_NODE || Live(pool, i)
    ensures StackOk(pool, rest) && StackSize(pool, root, rest) < StackSize(pool, root, rest + [i])
    ensures i == NULL_NODE || prunes(pool[i].aabb, ClipAfter(answer, initial, visited)) ==>
      RayState(pool, root, meets, initial, answer, rest, visited)
    ensures i != NULL_NODE && pool[i].IsLeaf() ==>
      && RayState(pool, root, meets, initial, answer, rest, visited + [i])
      && VisitedOnce(pool, visited + [i])
    ensures i != NULL_NODE && !pool[i].IsLeaf() ==>
      var now := rest + [pool[i].child1] + [pool[i].child2];
      && RayState(pool, root, meets, initial, answer, now, visited)
      && StackSize(pool, root, now) < StackSize(pool, root, rest + [i])
  {
    PopTop(pool, root, rest, i, Everything());
    var more, reach := Pending(pool, root, rest, Everything()), LowestClip(answer, initial, visited);
    if i == NULL_NODE {
      assert [] + more == more;
    } else {
      if prunes(pool[i].aabb, ClipAfter(answer, initial, visited)) {
        RayDrop(pool, root, meets, prunes, reach, ClipAfter(answer, initial, visited), i, more, visited);
      }
      if pool[i].IsLeaf() {
        LowestStep(answer, initial, visited, i);
        RayVisit(pool, root, meets, reach, LowestClip(answer, initial, visited + [i]), i, more, visited);
      } else {
        PushChildren(pool, root, rest, i, Everything());
      }
    }
  }

  lemma RayDrop(pool: Pool, root: int, meets: Meets, prunes: Prunes, reach: real, clip: real, i: int, more: seq<int>,
                visited: seq<int>)
    requires Valid(pool, root) && Sound(meets, prunes) && Live(pool, i) && reach <= clip && prunes(pool[i].aabb, clip)
    requires Frontier(pool, root, meets, reach, Visit(pool, root, i, Everything()) + more, visited)
    ensures Frontier(pool, root, meets, reach, more, visited)
  {
    var top := Visit(pool, root, i, Everything());
    assert multiset(visited + (top + more)) == multiset(visited + more) + multiset(top);
    forall x, f | Live(pool, x) && pool[x].IsLeaf() && 0.0 < f <= reach && meets(pool[x].aabb, f)
      ensures x in visited + more
    {
      assert x in visited || x in top || x in more;
      if x in top {
        VisitExactly(pool, root, i, Everything(), x);
        BoxesNest(pool, root, i, x);
      }
    }
  }

  lemma RayVisit(pool: Pool, root: int, meets: Meets, reach: real, less: real, i: int, more: seq<int>,
                 visited: seq<int>)
    requires Valid(pool, root) && less <= reach
    requires Frontier(pool, root, meets, reach, [i] + more, visited)
    ensures Frontier(pool, root, meets, less, more, visited + [i])
    ensures VisitedOnce(pool, visited + [i])
  {
    assert visited + ([i] + more) == (visited + [i]) + more;
    OnceBecauseDistinct(pool, root, visited + [i], more);
  }

  lemma LowestStep(answer: (real, int) -> real, initial: real, visited: seq<int>, i: int)
    ensures LowestClip(answer, initial, visited + [i]) <= LowestClip(answer, initial, visited)
  {
    assert (visited + [i])[..|visited|] == visited;
  }

  // ----- closest hit -----

  datatype Hit = Miss | Hit(fraction: real)

  /** An exact ray cast against what each leaf holds finds its hits inside the leaf's fat box. */
  ghost predicate HitsInside(pool: Pool, meets: Meets, hits: int -> Hit) {
    forall x :: Live(pool, x) && pool[x].IsLeaf() && hits(x).Hit? ==>
      hits(x).fraction > 0.0 && meets(pool[x].aabb, hits(x).fraction)
  }

  /** Answers the hit fraction when it is within the clip, and otherwise leaves the clip as it is. */
  ghost predicate ClosestHit(answer: (real, int) -> real, hits: int -> Hit) {
    forall clip: real, x: int :: if hits(x).Hit? && hits(x).fraction <= clip then answer(clip, x) == hits(x).fraction
                                 else answer(clip, x) < 0.0 || answer(clip, x) == clip
  }

  /** With such a callback the clip only shrinks, to a hit of a visited leaf, and below every hit visited. */
  lemma {:induction false} ClipIsMinimum(pool: Pool, meets: Meets, initial: real, answer: (real, int) -> real,
                                         hits: int -> Hit, visited: seq<int>)
    requires HitsInside(pool, meets, hits) && ClosestHit(answer, hits)
    requires forall x :: x in visited ==> Live(pool, x) && pool[x].IsLeaf()
    ensures var clip := ClipAfter(answer, initial, visited);
      && clip == LowestClip(answer, initial, visited) <= initial
      && (forall x :: x in visited && hits(x).Hit? ==> clip <= hits(x).fraction)
      && (clip == initial || exists x :: x in visited && hits(x) == Hit(clip) && clip > 0.0)
      && (Stopped(answer, initial, visited) ==> clip == initial == 0.0)
  {
    if visited != [] {
      var front, last := visited[..|visited| - 1], visited[|visited| - 1];
      assert visited == front + [last];
      ClipIsMinimum(pool, meets, initial, answer, hits, front);
      var before, clip := ClipAfter(answer, initial, front), ClipAfter(answer, initial, visited);
      assert last in visited;
      if clip != before {
        assert last in visited && hits(last) == Hit(clip);
      } else if clip != initial {
        var x :| x in front && hits(x) == Hit(clip) && clip > 0.0;
        assert x in visited;
      }
    }
  }

  /** The cast ends with the smallest hit fraction over all leaves of the tree, or the initial one if that is smaller.
      */
  lemma RayCastFindsClosest(pool: Pool, p1: Vec2, p2: Vec2, initial: real, answer: (real, int) -> real,
                            hits: int -> Hit, visited: seq<int>)
    requires CastOk(pool, SegmentMeets(p1, p2), initial, answer, visited)
    requires HitsInside(pool, SegmentMeets(p1, p2), hits) && ClosestHit(answer, hits)
    ensures var result := ClipAfter(answer, initial, visited);
      && result <= initial
      && (forall x :: Live(pool, x) && pool[x].IsLeaf() && hits(x).Hit? ==> result <= hits(x).fraction)
      && (result == initial || exists x :: Live(pool, x) && pool[x].IsLeaf() && hits(x) == Hit(result))
  {
    ClosestOfAll(pool, SegmentMeets(p1, p2), initial, answer, hits, visited);
  }

  lemma ClosestOfAll(pool: Pool, meets: Meets, initial: real, answer: (real, int) -> real, hits: int -> Hit,
                     visited: seq<int>)
    requires CastOk(pool, meets, initial, answer, visited)
    requires HitsInside(pool, meets, hits) && ClosestHit(answer, hits)
    ensures var result := ClipAfter(answer, initial, visited);
      && result <= initial
      && (forall x :: Live(pool, x) && pool[x].IsLeaf() && hits(x).Hit? ==> result <= hits(x).fraction)
      && (result == initial || exists x :: Live(pool, x) && pool[x].IsLeaf() && hits(x) == Hit(result))
  {
    ClipIsMinimum(pool, meets, initial, answer, hits, visited);
    var result := ClipAfter(answer, initial, visited);
    forall x | Live(pool, x) && pool[x].IsLeaf() && hits(x).Hit?
      ensures result <= hits(x).fraction
    {
      assert meets(pool[x].aabb, hits(x).fraction);
    }
    if result != initial {
      var x :| x in visited && hits(x) == Hit(result) && result > 0.0;
      assert Live(pool, x) && pool[x].IsLeaf();
    }
  }
}
