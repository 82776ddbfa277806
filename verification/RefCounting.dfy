/** Object::retain and release, StrongRef and Variant: counted references, some of them stored in counted tables. */
module RefCounting {
  import opened Options

  /** A StrongRef, or a Variant: the plain kinds carry no reference, the others share a counted object. */
  datatype Holder =
    | Plain
    | Text(str: nat)
    | Proxy(kind: nat, object: Option<nat>)
    | Table(table: nat)
    | Ref(strong: Option<nat>)
  {
    function Held(): Option<nat> {
      match this
      case Plain => None
      case Text(o) => Some(o)
      case Proxy(_, o) => o
      case Table(o) => Some(o)
      case Ref(o) => o
    }
  }

  /** A counted object, freed when the count is zero; a SharedTable holds Variants, other objects hold none. */
  datatype Object = Object(count: nat, contents: seq<Holder>)
  type Heap = seq<Object>

  function Refs(holders: seq<Holder>): seq<nat> {
    if holders == [] then [] else
      (match holders[0].Held() case None => [] case Some(o) => [o]) + Refs(holders[1..])
  }

  lemma {:induction false} RefsConcat(a: seq<Holder>, b: seq<Holder>)
    ensures Refs(a + b) == Refs(a) + Refs(b)
  {
    if a == [] {
      assert a + b == b;
    } else {
      assert (a + b)[0] == a[0] && (a + b)[1..] == a[1..] + b;
      RefsConcat(a[1..], b);
    }
  }

  /** The references stored in tables. */
  function AllRefs(heap: Heap): multiset<nat> {
    if heap == [] then multiset{} else AllRefs(heap[..|heap| - 1]) + multiset(Refs(heap[|heap| - 1].contents))
  }

  lemma {:induction false} AllRefsUpdate(heap: Heap, i: nat, o: Object)
    requires i < |heap|
    ensures AllRefs(heap[i := o]) + multiset(Refs(heap[i].contents)) == AllRefs(heap) + multiset(Refs(o.contents))
  {
    var n, now := |heap| - 1, heap[i := o];
    if i == n {
      assert now[..n] == heap[..n];
    } else {
      assert now[..n] == heap[..n][i := o];
      AllRefsUpdate(heap[..n], i, o);
      SameAddition(AllRefs(now[..n]), AllRefs(heap[..n]), multiset(Refs(heap[i].contents)), multiset(Refs(o.contents)),
                   multiset(Refs(heap[n].contents)));
    }
  }

  lemma SameAddition(x: multiset<nat>, y: multiset<nat>, a: multiset<nat>, b: multiset<nat>, more: multiset<nat>)
    requires x + a == y + b
    ensures (x + more) + a == (y + more) + b
  {
    assert (x + more) + a == (x + a) + more;
    assert (y + more) + b == (y + b) + more;
  }

  /** How many references from tables to `p` a change of one object makes. */
  lemma StoredUpdate(heap: Heap, i: nat, o: Object, p: nat)
    requires i < |heap|
    ensures AllRefs(heap[i := o])[p] + multiset(Refs(heap[i].contents))[p]
         == AllRefs(heap)[p] + multiset(Refs(o.contents))[p]
  {
    AllRefsUpdate(heap, i, o);
    var l, r := AllRefs(heap[i := o]) + multiset(Refs(heap[i].contents)), AllRefs(heap) + multiset(Refs(o.contents));
    assert l[p] == r[p];
  }

  function Total(heap: Heap): nat {
    if heap == [] then 0 else Total(heap[..|heap| - 1]) + heap[|heap| - 1].count
  }

  lemma {:induction false} TotalUpdate(heap: Heap, i: nat, o: Object)
    requires i < |heap|
    ensures Total(heap[i := o]) + heap[i].count == Total(heap) + o.count
  {
    var n, now := |heap| - 1, heap[i := o];
    if i == n {
      assert now[..n] == heap[..n];
    } else {
      assert now[..n] == heap[..n][i := o];
      TotalUpdate(heap[..n], i, o);
    }
  }

  /** Every count is the number of holders: `roots` outside the heap and Variants inside live tables. */
  ghost predicate Counted(heap: Heap, roots: multiset<nat>) {
    && (forall o: nat {:trigger CountOf(heap, o)} :: CountOf(heap, o) == roots[o] + AllRefs(heap)[o])
    && (forall o :: 0 <= o < |heap| && heap[o].count == 0 ==> heap[o].contents == [])
  }

  function CountOf(heap: Heap, o: nat): nat {
    if o < |heap| then heap[o].count else 0
  }

  /** One atomic release: the heap after it, and the references that a deletion gives back. */
  function Dropped(heap: Heap, o: nat): Heap
    requires CountOf(heap, o) > 0
  {
    heap[o := if heap[o].count == 1 then Object(0, []) else heap[o].(count := heap[o].count - 1)]
  }

  function GivenBack(heap: Heap, o: nat): seq<nat>
    requires CountOf(heap, o) > 0
  {
    if heap[o].count == 1 then Refs(heap[o].contents) else []
  }

  lemma DroppedShrinks(heap: Heap, o: nat)
    requires CountOf(heap, o) > 0
    ensures Total(Dropped(heap, o)) < Total(heap)
  {
    TotalUpdate(heap, o, Dropped(heap, o)[o]);
  }

  /** All of `work` released, cascades included, depth first. */
  function Settle(heap: Heap, work: seq<nat>): (r: Heap)
    ensures |r| == |heap|
    decreases Total(heap), |work|
  {
    if work == [] then heap
    else if CountOf(heap, work[0]) == 0 then Settle(heap, work[1..])
    else
      DroppedShrinks(heap, work[0]);
      Settle(Dropped(heap, work[0]), GivenBack(heap, work[0]) + work[1..])
  }

  /** One release keeps the counts right: the reference is gone, and those of a deleted table are on their way out. */
  lemma DropCounted(heap: Heap, o: nat, roots: multiset<nat>)
    requires Counted(heap, roots + multiset{o})
    ensures CountOf(heap, o) > 0
    ensures Counted(Dropped(heap, o), roots + multiset(GivenBack(heap, o)))
  {
    assert CountOf(heap, o) == (roots + multiset{o})[o] + AllRefs(heap)[o];
    var now := Dropped(heap, o);
    forall p: nat
      ensures CountOf(now, p) == (roots + multiset(GivenBack(heap, o)))[p] + AllRefs(now)[p]
    {
      DropAt(heap, o, roots, p);
    }
  }

  lemma DropAt(heap: Heap, o: nat, roots: multiset<nat>, p: nat)
    requires CountOf(heap, o) > 0 && Counted(heap, roots + multiset{o})
    ensures CountOf(Dropped(heap, o), p) == (roots + multiset(GivenBack(heap, o)))[p] + AllRefs(Dropped(heap, o))[p]
  {
    var held, now, stored := roots + multiset{o}, Dropped(heap, o), multiset(Refs(heap[o].contents));
    assert CountOf(heap, p) == held[p] + AllRefs(heap)[p];
    assert held[p] == roots[p] + (if p == o then 1 else 0);
    StoredUpdate(heap, o, now[o], p);
    if heap[o].count == 1 {
      assert CountOf(heap, o) == held[o] + AllRefs(heap)[o];
      assert AllRefs(now)[p] + stored[p] == AllRefs(heap)[p];
      assert (roots + stored)[p] == roots[p] + stored[p];
    } else {
      assert roots + multiset([]) == roots;
    }
  }

  /** Settling keeps the counts right; in particular nothing is released twice. */
  lemma {:induction false} SettleCounted(heap: Heap, work: seq<nat>, roots: multiset<nat>)
    requires Counted(heap, roots + multiset(work))
    ensures Counted(Settle(heap, work), roots)
    decreases Total(heap)
  {
    if work == [] {
      assert roots + multiset(work) == roots;
    } else {
      var x, rest := work[0], work[1..];
      assert work == [x] + rest;
      assert roots + multiset(work) == (roots + multiset(rest)) + multiset{x};
      DropCounted(heap, x, roots + multiset(rest));
      DroppedShrinks(heap, x);
      var back := GivenBack(heap, x);
      assert roots + multiset(back + rest) == (roots + multiset(rest)) + multiset(back);
      SettleCounted(Dropped(heap, x), back + rest, roots);
    }
  }

  /** Cascades compose: the second list may wait until the first has settled. */
  lemma {:induction false} SettleConcat(heap: Heap, a: seq<nat>, b: seq<nat>)
    ensures Settle(heap, a + b) == Settle(Settle(heap, a), b)
    decreases Total(heap), |a|
  {
    if a == [] {
      assert a + b == b;
    } else {
      var x := a[0];
      assert (a + b)[0] == x && (a + b)[1..] == a[1..] + b;
      if CountOf(heap, x) == 0 {
        SettleConcat(heap, a[1..], b);
      } else {
        DroppedShrinks(heap, x);
        var back := GivenBack(heap, x);
        assert back + (a[1..] + b) == (back + a[1..]) + b;
        SettleConcat(Dropped(heap, x), back + a[1..], b);
      }
    }
  }

  function Without(s: seq<nat>, i: nat): seq<nat>
    requires i < |s|
  {
    s[..i] + s[i + 1..]
  }

  lemma WithoutMultiset(s: seq<nat>, i: nat)
    requires i < |s|
    ensures multiset(s) == multiset(Without(s, i)) + multiset{s[i]}
  {
    assert s == s[..i] + [s[i]] + s[i + 1..];
  }

  /** Two releases in either order lead to the same heap and give back the same references. */
  lemma Diamond(heap: Heap, a: nat, b: nat)
    requires CountOf(heap, a) > 0 && CountOf(heap, b) > 0 && (a == b ==> heap[a].count > 1)
    ensures CountOf(Dropped(heap, a), b) > 0 && CountOf(Dropped(heap, b), a) > 0
    ensures Dropped(Dropped(heap, a), b) == Dropped(Dropped(heap, b), a)
    ensures a != b ==> GivenBack(Dropped(heap, a), b) == GivenBack(heap, b)
  {
  }

  /** Any pending release may go first. */
  lemma {:induction false} AnyFirst(heap: Heap, work: seq<nat>, i: nat, roots: multiset<nat>)
    requires i < |work| && Counted(heap, roots + multiset(work))
    ensures CountOf(heap, work[i]) > 0
    ensures Settle(heap, work) == Settle(Dropped(heap, work[i]), GivenBack(heap, work[i]) + Without(work, i))
    decreases Total(heap), 0
  {
    PendingAlive(heap, work, i, roots);
    if i == 0 {
      FirstFirst(heap, work);
    } else {
      var afterA, j, left := FirstThenOther(heap, work, i, roots);
      var afterB, k, right := OtherThenFirst(heap, work, i, roots);
      PairAlive(heap, work, i, roots);
      LeftForm(GivenBack(Dropped(heap, work[0]), work[i]), GivenBack(heap, work[0]), work, i, afterA, j, left);
      RightForm(GivenBack(Dropped(heap, work[i]), work[0]), GivenBack(heap, work[i]), work, i, afterB, right);
      LeftoversAgree(heap, work[0], work[i], Others(work, i), left, right);
      AnyFirst(Dropped(heap, work[0]), afterA, j, roots);
      AnyFirst(Dropped(heap, work[i]), afterB, k, roots);
      AnyOrder(Dropped(Dropped(heap, work[0]), work[i]), left, right, roots);
    }
  }

  lemma FirstFirst(heap: Heap, work: seq<nat>)
    requires work != [] && CountOf(heap, work[0]) > 0
    ensures Settle(heap, work) == Settle(Dropped(heap, work[0]), GivenBack(heap, work[0]) + Without(work, 0))
  {
    assert Without(work, 0) == work[1..];
  }

  lemma LeftForm(g: seq<nat>, ra: seq<nat>, work: seq<nat>, i: nat, after: seq<nat>, j: nat, left: seq<nat>)
    requires 0 < i < |work| && after == ra + work[1..] && j == |ra| + i - 1 && left == g + Without(after, j)
    ensures left == g + (ra + Others(work, i))
  {
    LeftAfterFirst(ra, work, i);
  }

  lemma RightForm(g: seq<nat>, rb: seq<nat>, work: seq<nat>, i: nat, after: seq<nat>, right: seq<nat>)
    requires 0 < i < |work| && after == rb + Without(work, i) && |rb| < |after| && right == g + Without(after, |rb|)
    ensures right == g + (rb + Others(work, i))
  {
    LeftAfterOther(rb, work, i);
  }

  lemma FirstThenOther(heap: Heap, work: seq<nat>, i: nat, roots: multiset<nat>)
    returns (after: seq<nat>, j: nat, left: seq<nat>)
    requires 0 < i < |work| && Counted(heap, roots + multiset(work))
    ensures CountOf(heap, work[0]) > 0 && Settle(heap, work) == Settle(Dropped(heap, work[0]), after)
    ensures after == GivenBack(heap, work[0]) + work[1..] && j == |GivenBack(heap, work[0])| + i - 1
    ensures Total(Dropped(heap, work[0])) < Total(heap)
    ensures j < |after| && after[j] == work[i] && Counted(Dropped(heap, work[0]), roots + multiset(after))
    ensures CountOf(Dropped(heap, work[0]), work[i]) > 0
    ensures left == GivenBack(Dropped(heap, work[0]), work[i]) + Without(after, j)
    ensures Counted(Dropped(Dropped(heap, work[0]), work[i]), roots + multiset(left))
    ensures Total(Dropped(Dropped(heap, work[0]), work[i])) < Total(heap)
  {
    PendingAlive(heap, work, 0, roots);
    DroppedShrinks(heap, work[0]);
    StepCounted(heap, work, 0, roots);
    assert Without(work, 0) == work[1..];
    after, j := GivenBack(heap, work[0]) + work[1..], |GivenBack(heap, work[0])| + i - 1;
    StepCounted(Dropped(heap, work[0]), after, j, roots);
    DroppedShrinks(Dropped(heap, work[0]), work[i]);
    left := GivenBack(Dropped(heap, work[0]), work[i]) + Without(after, j);
  }

  lemma OtherThenFirst(heap: Heap, work: seq<nat>, i: nat, roots: multiset<nat>)
    returns (after: seq<nat>, k: nat, right: seq<nat>)
    requires 0 < i < |work| && Counted(heap, roots + multiset(work))
    ensures CountOf(heap, work[i]) > 0
    ensures after == GivenBack(heap, work[i]) + Without(work, i) && k == |GivenBack(heap, work[i])|
    ensures Total(Dropped(heap, work[i])) < Total(heap)
    ensures k < |after| && after[k] == work[0] && Counted(Dropped(heap, work[i]), roots + multiset(after))
    ensures CountOf(Dropped(heap, work[i]), work[0]) > 0
    ensures right == GivenBack(Dropped(heap, work[i]), work[0]) + Without(after, k)
  {
    PendingAlive(heap, work, i, roots);
    DroppedShrinks(heap, work[i]);
    StepCounted(heap, work, i, roots);
    after, k := GivenBack(heap, work[i]) + Without(work, i), |GivenBack(heap, work[i])|;
    StepCounted(Dropped(heap, work[i]), after, k, roots);
    right := GivenBack(Dropped(heap, work[i]), work[0]) + Without(after, k);
  }

  /** What is still to be released after the two steps is the same in either order. */
  lemma LeftoversAgree(heap: Heap, a: nat, b: nat, rest: seq<nat>, left: seq<nat>, right: seq<nat>)
    requires CountOf(heap, a) > 0 && CountOf(heap, b) > 0 && (a == b ==> heap[a].count > 1)
    requires CountOf(Dropped(heap, a), b) > 0 && CountOf(Dropped(heap, b), a) > 0
    requires left == GivenBack(Dropped(heap, a), b) + (GivenBack(heap, a) + rest)
    requires right == GivenBack(Dropped(heap, b), a) + (GivenBack(heap, b) + rest)
    ensures multiset(left) == multiset(right)
    ensures Dropped(Dropped(heap, a), b) == Dropped(Dropped(heap, b), a)
  {
    Diamond(heap, a, b);
    if a != b {
      Diamond(heap, b, a);
      Exchange(GivenBack(heap, a), GivenBack(heap, b), rest);
    }
  }

  function Others(work: seq<nat>, i: nat): seq<nat>
    requires 0 < i < |work|
  {
    work[1..i] + work[i + 1..]
  }

  lemma PendingAlive(heap: Heap, work: seq<nat>, i: nat, roots: multiset<nat>)
    requires i < |work| && Counted(heap, roots + multiset(work))
    ensures CountOf(heap, work[i]) >= multiset(work)[work[i]] > 0
  {
    assert work[i] in multiset(work);
    assert CountOf(heap, work[i]) == (roots + multiset(work))[work[i]] + AllRefs(heap)[work[i]];
  }

  lemma PairAlive(heap: Heap, work: seq<nat>, i: nat, roots: multiset<nat>)
    requires 0 < i < |work| && Counted(heap, roots + multiset(work))
    ensures work[0] == work[i] ==> CountOf(heap, work[0]) > 1
  {
    PendingAlive(heap, work, i, roots);
    if work[0] == work[i] {
      TwiceInside(work, i);
    }
  }

  lemma TwiceInside(work: seq<nat>, i: nat)
    requires 0 < i < |work| && work[0] == work[i]
    ensures multiset(work)[work[i]] >= 2
  {
    assert work == [work[0]] + work[1..i] + [work[i]] + work[i + 1..];
  }

  lemma StepCounted(heap: Heap, work: seq<nat>, i: nat, roots: multiset<nat>)
    requires i < |work| && Counted(heap, roots + multiset(work))
    ensures CountOf(heap, work[i]) > 0
    ensures Counted(Dropped(heap, work[i]), roots + multiset(GivenBack(heap, work[i]) + Without(work, i)))
  {
    WithoutMultiset(work, i);
    var rest, back := Without(work, i), multiset(GivenBack(heap, work[i]));
    PendingAlive(heap, work, i, roots);
    assert roots + multiset(work) == (roots + multiset(rest)) + multiset{work[i]};
    DropCounted(heap, work[i], roots + multiset(rest));
    assert roots + multiset(GivenBack(heap, work[i]) + rest) == (roots + multiset(rest)) + back;
  }

  lemma LeftAfterFirst(ra: seq<nat>, work: seq<nat>, i: nat)
    requires 0 < i < |work|
    ensures Without(ra + work[1..], |ra| + i - 1) == ra + Others(work, i)
  {
  }

  lemma LeftAfterOther(rb: seq<nat>, work: seq<nat>, i: nat)
    requires 0 < i < |work|
    ensures Without(rb + Without(work, i), |rb|) == rb + Others(work, i)
  {
    assert Without(work, i)[1..] == Others(work, i);
  }

  lemma Exchange(a: seq<nat>, b: seq<nat>, c: seq<nat>)
    ensures multiset(b + (a + c)) == multiset(a + (b + c))
  {
  }

  /** The order in which threads get to their releases does not matter: the heap they settle to is the same. */
  lemma {:induction false} AnyOrder(heap: Heap, work: seq<nat>, work': seq<nat>, roots: multiset<nat>)
    requires Counted(heap, roots + multiset(work)) && multiset(work) == multiset(work')
    ensures Settle(heap, work) == Settle(heap, work')
    decreases Total(heap), 1
  {
    if work == [] {
      assert |multiset(work')| == |work'|;
    } else {
      var x := work[0];
      assert x in multiset(work');
      var i :| 0 <= i < |work'| && work'[i] == x;
      AnyFirst(heap, work', i, roots);
      PendingAlive(heap, work, 0, roots);
      DroppedShrinks(heap, x);
      StepCounted(heap, work, 0, roots);
      SameRest(work, work', i);
      SameBehind(GivenBack(heap, x), work[1..], Without(work', i));
      AnyOrder(Dropped(heap, x), GivenBack(heap, x) + work[1..], GivenBack(heap, x) + Without(work', i), roots);
    }
  }

  lemma SameRest(work: seq<nat>, work': seq<nat>, i: nat)
    requires work != [] && i < |work'| && work'[i] == work[0] && multiset(work) == multiset(work')
    ensures Without(work, 0) == work[1..] && multiset(work[1..]) == multiset(Without(work', i))
  {
    WithoutMultiset(work, 0);
    WithoutMultiset(work', i);
    var x := multiset{work[0]};
    assert multiset(work[1..]) == multiset(work) - x;
  }

  lemma SameBehind(a: seq<nat>, b: seq<nat>, c: seq<nat>)
    requires multiset(b) == multiset(c)
    ensures multiset(a + b) == multiset(a + c)
  {
  }

  function Retained(heap: Heap, o: nat): Heap
    requires o < |heap|
  {
    heap[o := heap[o].(count := heap[o].count + 1)]
  }

  lemma RetainCounted(heap: Heap, o: nat, roots: multiset<nat>)
    requires o < |heap| && heap[o].count > 0 && Counted(heap, roots)
    ensures Counted(Retained(heap, o), roots + multiset{o})
  {
    forall p: nat
      ensures CountOf(Retained(heap, o), p) == (roots + multiset{o})[p] + AllRefs(Retained(heap, o))[p]
    {
      RetainAt(heap, o, roots, p);
    }
  }

  lemma RetainAt(heap: Heap, o: nat, roots: multiset<nat>, p: nat)
    requires o < |heap| && Counted(heap, roots)
    ensures CountOf(Retained(heap, o), p) == (roots + multiset{o})[p] + AllRefs(Retained(heap, o))[p]
  {
    assert CountOf(heap, p) == roots[p] + AllRefs(heap)[p];
    assert (roots + multiset{o})[p] == roots[p] + (if p == o then 1 else 0);
    StoredUpdate(heap, o, Retained(heap, o)[o], p);
  }

  /** A copy made from a held reference commutes with every cascade going on elsewhere. */
  lemma {:induction false} RetainCommutes(heap: Heap, work: seq<nat>, o: nat, roots: multiset<nat>)
    requires Counted(heap, roots + multiset(work)) && o in roots
    ensures o < |heap| && Settle(heap, work)[o].count > 0
    ensures Settle(Retained(heap, o), work) == Retained(Settle(heap, work), o)
    decreases Total(heap)
  {
    var held := roots + multiset(work);
    assert CountOf(heap, o) == held[o] + AllRefs(heap)[o];
    if work != [] {
      var x, rest := work[0], work[1..];
      PendingAlive(heap, work, 0, roots);
      StepCounted(heap, work, 0, roots);
      assert Without(work, 0) == rest;
      DroppedShrinks(heap, x);
      assert x == o ==> heap[o].count > 1;
      RetainCommutes(Dropped(heap, x), GivenBack(heap, x) + rest, o, roots);
      RetainThenDrop(heap, x, o);
    }
  }

  lemma RetainThenDrop(heap: Heap, x: nat, o: nat)
    requires CountOf(heap, x) > 0 && o < |heap| && (x == o ==> heap[o].count > 1)
    ensures CountOf(Retained(heap, o), x) > 0
    ensures Dropped(Retained(heap, o), x) == Retained(Dropped(heap, x), o)
    ensures GivenBack(Retained(heap, o), x) == GivenBack(heap, x)
  {
  }
}
