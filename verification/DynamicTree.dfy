/** b2DynamicTree: the invariant of the node pool, and the two traversals that rely on it. */
module DynamicTree {
  import opened Geometry
  import opened GrowableStack

  const NULL_NODE: int := -1

  /** A pool entry; free entries have height -1. */
  datatype TreeNode = TreeNode(aabb: AABB, parent: int, child1: int, child2: int, height: int) {
    predicate IsLeaf() {
      child1 == NULL_NODE
    }
  }

  type Pool = seq<TreeNode>

  predicate Live(pool: Pool, i: int) {
    0 <= i < |pool| && pool[i].height >= 0
  }

  /** What ValidateStructure and ValidateMetrics assert of one node. */
  predicate NodeValid(pool: Pool, root: int, i: int)
    requires Live(pool, i)
  {
    var n := pool[i];
    && n.aabb.lower.x <= n.aabb.upper.x && n.aabb.lower.y <= n.aabb.upper.y
    && (if n.IsLeaf() then n.child2 == NULL_NODE && n.height == 0 else
         && Live(pool, n.child1) && Live(pool, n.child2) && n.child1 != n.child2
         && pool[n.child1].parent == i && pool[n.child2].parent == i
         && pool[n.child1].height < n.height && pool[n.child2].height < n.height
         && n.aabb.Contains(pool[n.child1].aabb) && n.aabb.Contains(pool[n.child2].aabb))
    && (if n.parent == NULL_NODE then i == root else
         && Live(pool, n.parent) && !pool[n.parent].IsLeaf()
         && (pool[n.parent].child1 == i || pool[n.parent].child2 == i))
  }

  ghost predicate Valid(pool: Pool, root: int) {
    && (root != NULL_NODE ==> Live(pool, root) && pool[root].parent == NULL_NODE)
    && (forall i {:trigger NodeValid(pool, root, i)} :: Live(pool, i) ==> NodeValid(pool, root, i))
  }

  /** `x` is in the subtree of `i`. */
  ghost predicate Under(pool: Pool, root: int, i: int, x: int)
    requires Valid(pool, root) && Live(pool, i)
    decreases pool[i].height
  {
    assert NodeValid(pool, root, i);
    x == i || (!pool[i].IsLeaf()
               && (Under(pool, root, pool[i].child1, x) || Under(pool, root, pool[i].child2, x)))
  }

  lemma {:induction false} UnderParent(pool: Pool, root: int, i: int, x: int)
    requires Valid(pool, root) && Live(pool, i) && Under(pool, root, i, x)
    ensures Live(pool, x) && pool[x].height <= pool[i].height
    ensures x != i ==>
      pool[x].height < pool[i].height && pool[x].parent != NULL_NODE && Under(pool, root, i, pool[x].parent)
    decreases pool[i].height
  {
    assert NodeValid(pool, root, i);
    if x != i {
      var c := if Under(pool, root, pool[i].child1, x) then pool[i].child1 else pool[i].child2;
      UnderParent(pool, root, c, x);
      assert Under(pool, root, i, i);
    }
  }

  lemma {:induction false} UnderChild(pool: Pool, root: int, i: int, p: int, x: int)
    requires Valid(pool, root) && Live(pool, i) && Under(pool, root, i, p)
    requires Live(pool, p) && !pool[p].IsLeaf() && (x == pool[p].child1 || x == pool[p].child2)
    ensures Under(pool, root, i, x)
    decreases pool[i].height
  {
    assert NodeValid(pool, root, i) && NodeValid(pool, root, p);
    if p == i {
      assert Under(pool, root, x, x);
    } else {
      var c := if Under(pool, root, pool[i].child1, p) then pool[i].child1 else pool[i].child2;
      UnderChild(pool, root, c, p, x);
    }
  }

  /** Two subtrees that share a node are nested. */
  lemma {:induction false} SharedMeansNested(pool: Pool, root: int, a: int, b: int, x: int)
    requires Valid(pool, root) && Live(pool, a) && Live(pool, b)
    requires Under(pool, root, a, x) && Under(pool, root, b, x)
    ensures Under(pool, root, a, b) || Under(pool, root, b, a)
    decreases pool[a].height - (if Live(pool, x) then pool[x].height else 0)
  {
    UnderParent(pool, root, a, x);
    UnderParent(pool, root, b, x);
    if x != a && x != b {
      assert NodeValid(pool, root, x) && NodeValid(pool, root, pool[x].parent);
      UnderParent(pool, root, a, pool[x].parent);
      SharedMeansNested(pool, root, a, b, pool[x].parent);
    }
  }

  lemma SiblingsDisjoint(pool: Pool, root: int, i: int, x: int)
    requires Valid(pool, root) && Live(pool, i) && !pool[i].IsLeaf()
    ensures Live(pool, pool[i].child1) && Live(pool, pool[i].child2)
    ensures !(Under(pool, root, pool[i].child1, x) && Under(pool, root, pool[i].child2, x))
  {
    assert NodeValid(pool, root, i);
    var a, b := pool[i].child1, pool[i].child2;
    if Under(pool, root, a, x) && Under(pool, root, b, x) {
      SharedMeansNested(pool, root, a, b, x);
      if Under(pool, root, a, b) {
        UnderParent(pool, root, a, b);
        UnderParent(pool, root, a, i);
      } else {
        UnderParent(pool, root, b, a);
        UnderParent(pool, root, b, i);
      }
    }
  }

  ghost function Higher(pool: Pool, x: int): set<int>
    requires Live(pool, x)
  {
    set i | 0 <= i < |pool| && pool[i].height > pool[x].height
  }

  /** Every live node hangs under the root: climb the parents. */
  lemma {:induction false} EveryNodeUnderRoot(pool: Pool, root: int, x: int)
    requires Valid(pool, root) && Live(pool, x)
    ensures root != NULL_NODE && Under(pool, root, root, x)
    decreases |Higher(pool, x)|
  {
    assert NodeValid(pool, root, x);
    var p := pool[x].parent;
    if p == NULL_NODE {
      assert Under(pool, root, root, root);
    } else {
      assert NodeValid(pool, root, p);
      assert Higher(pool, p) <= Higher(pool, x) - {p};
      Smaller(Higher(pool, p), Higher(pool, x), p);
      EveryNodeUnderRoot(pool, root, p);
      UnderChild(pool, root, root, p, x);
    }
  }

  lemma Smaller(a: set<int>, b: set<int>, x: int)
    requires a <= b - {x} && x in b
    ensures |a| < |b|
  {
    var c := b - {x} - a;
    assert b == a + c + {x};
    assert |a + c| == |a| + |c|;
  }

  /** Containment is handed down the tree. */
  lemma {:induction false} BoxesNest(pool: Pool, root: int, i: int, x: int)
    requires Valid(pool, root) && Live(pool, i) && Under(pool, root, i, x)
    ensures Live(pool, x) && pool[i].aabb.Contains(pool[x].aabb)
    decreases pool[i].height
  {
    assert NodeValid(pool, root, i);
    if x != i {
      var c := if Under(pool, root, pool[i].child1, x) then pool[i].child1 else pool[i].child2;
      BoxesNest(pool, root, c, x);
    }
  }

  /** A test that a box passes whenever a box inside it does. */
  ghost predicate Monotone(keep: AABB -> bool) {
    forall a: AABB, b: AABB {:trigger a.Contains(b), keep(b)} :: a.Contains(b) && keep(b) ==> keep(a)
  }

  /** The leaves a pruned depth-first walk from `i` reaches; the second child is on top of the stack, so it goes first.
      */
  ghost function Visit(pool: Pool, root: int, i: int, keep: AABB -> bool): seq<int>
    requires Valid(pool, root) && (i == NULL_NODE || Live(pool, i))
    decreases if i == NULL_NODE then -1 else pool[i].height
  {
    if i == NULL_NODE then [] else
      assert NodeValid(pool, root, i);
      if !keep(pool[i].aabb) then []
      else if pool[i].IsLeaf() then [i]
      else Visit(pool, root, pool[i].child2, keep) + Visit(pool, root, pool[i].child1, keep)
  }

  /** Pruning a monotone test at inner nodes loses no leaf. */
  lemma {:induction false} VisitExactly(pool: Pool, root: int, i: int, keep: AABB -> bool, x: int)
    requires Valid(pool, root) && Live(pool, i) && Monotone(keep)
    ensures x in Visit(pool, root, i, keep) <==>
      Under(pool, root, i, x) && Live(pool, x) && pool[x].IsLeaf() && keep(pool[x].aabb)
    decreases pool[i].height
  {
    assert NodeValid(pool, root, i);
    if Under(pool, root, i, x) {
      BoxesNest(pool, root, i, x);
    }
    if keep(pool[i].aabb) && !pool[i].IsLeaf() {
      var a, b := pool[i].child2, pool[i].child1;
      VisitExactly(pool, root, a, keep, x);
      VisitExactly(pool, root, b, keep, x);
      VisitInner(pool, root, i, keep, x);
      UnderInner(pool, root, i, x);
    }
  }

  lemma UnderInner(pool: Pool, root: int, i: int, x: int)
    requires Valid(pool, root) && Live(pool, i) && !pool[i].IsLeaf()
    ensures Live(pool, pool[i].child1) && Live(pool, pool[i].child2)
    ensures Under(pool, root, i, x) <==>
      x == i || Under(pool, root, pool[i].child1, x) || Under(pool, root, pool[i].child2, x)
  {
    assert NodeValid(pool, root, i);
  }

  lemma VisitInner(pool: Pool, root: int, i: int, keep: AABB -> bool, x: int)
    requires Valid(pool, root) && Live(pool, i) && !pool[i].IsLeaf() && keep(pool[i].aabb)
    ensures Live(pool, pool[i].child1) && Live(pool, pool[i].child2)
    ensures x in Visit(pool, root, i, keep) <==>
      x in Visit(pool, root, pool[i].child1, keep) || x in Visit(pool, root, pool[i].child2, keep)
  {
    assert NodeValid(pool, root, i);
    InEither(Visit(pool, root, i, keep),
             Visit(pool, root, pool[i].child2, keep), Visit(pool, root, pool[i].child1, keep), x);
  }

  lemma InEither(s: seq<int>, a: seq<int>, b: seq<int>, x: int)
    requires s == a + b
    ensures x in s <==> x in a || x in b
  {
  }

  ghost predicate NoDuplicates(s: seq<int>) {
    forall j, k :: 0 <= j < k < |s| ==> s[j] != s[k]
  }

  lemma {:induction false} VisitOnce(pool: Pool, root: int, i: int, keep: AABB -> bool)
    requires Valid(pool, root) && Live(pool, i) && Monotone(keep)
    ensures NoDuplicates(Visit(pool, root, i, keep))
    decreases pool[i].height
  {
    assert NodeValid(pool, root, i);
    if keep(pool[i].aabb) && !pool[i].IsLeaf() {
      var a, b := pool[i].child2, pool[i].child1;
      VisitOnce(pool, root, a, keep);
      VisitOnce(pool, root, b, keep);
      var va, vb := Visit(pool, root, a, keep), Visit(pool, root, b, keep);
      forall j, k | 0 <= j < |va| && 0 <= k < |vb|
        ensures va[j] != vb[k]
      {
        VisitExactly(pool, root, a, keep, va[j]);
        VisitExactly(pool, root, b, keep, va[j]);
        SiblingsDisjoint(pool, root, i, va[j]);
      }
    }
  }

  ghost predicate Reports(pool: Pool, x: int, keep: AABB -> bool) {
    Live(pool, x) && pool[x].IsLeaf() && keep(pool[x].aabb)
  }

  /** From the root: each passing leaf of the pool once, and nothing else. */
  lemma VisitFromRoot(pool: Pool, root: int, keep: AABB -> bool)
    requires Valid(pool, root) && Monotone(keep)
    ensures NoDuplicates(Visit(pool, root, root, keep))
    ensures forall x :: x in Visit(pool, root, root, keep) <==> Reports(pool, x, keep)
  {
    if root != NULL_NODE {
      VisitOnce(pool, root, root, keep);
    }
    forall x
      ensures x in Visit(pool, root, root, keep) <==> Reports(pool, x, keep)
    {
      if Live(pool, x) {
        EveryNodeUnderRoot(pool, root, x);
      }
      if root != NULL_NODE {
        VisitExactly(pool, root, root, keep, x);
      }
    }
  }

  /** Every entry of the traversal stack is null or live. */
  predicate StackOk(pool: Pool, stack: seq<int>) {
    forall k :: 0 <= k < |stack| ==> stack[k] == NULL_NODE || Live(pool, stack[k])
  }

  /** What is still to be visited, top of the stack first. */
  ghost function Pending(pool: Pool, root: int, stack: seq<int>, keep: AABB -> bool): seq<int>
    requires Valid(pool, root) && StackOk(pool, stack)
  {
    if stack == [] then [] else
      Visit(pool, root, stack[|stack| - 1], keep) + Pending(pool, root, stack[..|stack| - 1], keep)
  }

  /** Nodes below and including `i`; the traversal's measure. */
  ghost function Size(pool: Pool, root: int, i: int): (n: nat)
    requires Valid(pool, root) && (i == NULL_NODE || Live(pool, i))
    ensures n > 0
    decreases if i == NULL_NODE then -1 else pool[i].height
  {
    if i == NULL_NODE then 1 else
      assert NodeValid(pool, root, i);
      if pool[i].IsLeaf() then 1 else 1 + Size(pool, root, pool[i].child1) + Size(pool, root, pool[i].child2)
  }

  ghost function StackSize(pool: Pool, root: int, stack: seq<int>): nat
    requires Valid(pool, root) && StackOk(pool, stack)
  {
    if stack == [] then 0 else Size(pool, root, stack[|stack| - 1]) + StackSize(pool, root, stack[..|stack| - 1])
  }

  /** Replacing the top of the stack by its two children, second child on top. */
  lemma PushChildren(pool: Pool, root: int, rest: seq<int>, i: int, keep: AABB -> bool)
    requires Valid(pool, root) && StackOk(pool, rest) && Live(pool, i) && !pool[i].IsLeaf() && keep(pool[i].aabb)
    ensures StackOk(pool, rest + [pool[i].child1] + [pool[i].child2])
    ensures var now := rest + [pool[i].child1] + [pool[i].child2];
      && Pending(pool, root, now, keep) == Visit(pool, root, i, keep) + Pending(pool, root, rest, keep)
      && StackSize(pool, root, now) < Size(pool, root, i) + StackSize(pool, root, rest)
  {
    assert NodeValid(pool, root, i);
    var c1, c2 := pool[i].child1, pool[i].child2;
    StackOkPush(pool, rest, c1);
    StackOkPush(pool, rest + [c1], c2);
    PopTop(pool, root, rest, c1, keep);
    PopTop(pool, root, rest + [c1], c2, keep);
    Associative(Visit(pool, root, c2, keep), Visit(pool, root, c1, keep), Pending(pool, root, rest, keep));
    VisitChildren(pool, root, i, keep);
    SizeChildren(pool, root, i);
  }

  lemma Associative(a: seq<int>, b: seq<int>, c: seq<int>)
    ensures (a + b) + c == a + (b + c)
  {
  }

  lemma VisitChildren(pool: Pool, root: int, i: int, keep: AABB -> bool)
    requires Valid(pool, root) && Live(pool, i) && !pool[i].IsLeaf() && keep(pool[i].aabb)
    ensures Live(pool, pool[i].child1) && Live(pool, pool[i].child2)
    ensures Visit(pool, root, i, keep)
         == Visit(pool, root, pool[i].child2, keep) + Visit(pool, root, pool[i].child1, keep)
  {
    assert NodeValid(pool, root, i);
  }

  lemma SizeChildren(pool: Pool, root: int, i: int)
    requires Valid(pool, root) && Live(pool, i) && !pool[i].IsLeaf()
    ensures Live(pool, pool[i].child1) && Live(pool, pool[i].child2)
    ensures Size(pool, root, i) == 1 + Size(pool, root, pool[i].child1) + Size(pool, root, pool[i].child2)
  {
    assert NodeValid(pool, root, i);
  }

  lemma StackOkPush(pool: Pool, rest: seq<int>, i: int)
    requires StackOk(pool, rest) && (i == NULL_NODE || Live(pool, i))
    ensures StackOk(pool, rest + [i])
  {
  }

  lemma PopTop(pool: Pool, root: int, rest: seq<int>, i: int, keep: AABB -> bool)
    requires Valid(pool, root) && StackOk(pool, rest + [i])
    ensures StackOk(pool, rest) && (i == NULL_NODE || Live(pool, i))
    ensures Pending(pool, root, rest + [i], keep) == Visit(pool, root, i, keep) + Pending(pool, root, rest, keep)
    ensures StackSize(pool, root, rest + [i]) == Size(pool, root, i) + StackSize(pool, root, rest)
  {
    var all := rest + [i];
    assert all[|all| - 1] == i && all[..|all| - 1] == rest;
    forall k | 0 <= k < |rest|
      ensures rest[k] == NULL_NODE || Live(pool, rest[k])
    {
      assert all[k] == rest[k];
    }
  }

  /** At the start of a traversal everything is pending. */
  lemma PendingRoot(pool: Pool, root: int, keep: AABB -> bool)
    requires Valid(pool, root)
    ensures StackOk(pool, [root])
    ensures [] + Pending(pool, root, [root], keep) == Visit(pool, root, root, keep)
  {
    assert [root][..0] == [];
    assert Pending(pool, root, [], keep) == [];
  }
}
