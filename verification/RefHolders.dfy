/** The holders themselves: construction, copy, move, assignment and destruction of StrongRefs and Variants. */
module RefHolders {
  import opened Options
  import opened RefCounting

  lemma {:induction false} RefsUpdate(holders: seq<Holder>, i: nat, v: Holder)
    requires i < |holders|
    ensures multiset(Refs(holders[i := v])) + multiset(Refs([holders[i]]))
         == multiset(Refs(holders)) + multiset(Refs([v]))
  {
    var a, b := holders[..i], holders[i + 1..];
    assert holders == (a + [holders[i]]) + b && holders[i := v] == (a + [v]) + b;
    RefsConcat(a + [holders[i]], b);
    RefsConcat(a, [holders[i]]);
    RefsConcat(a + [v], b);
    RefsConcat(a, [v]);
  }

  lemma RefsOne(v: Holder)
    ensures Refs([v]) == match v.Held() case None => [] case Some(o) => [o]
  {
    assert [v][1..] == [];
  }

  /** A freed object stays freed. */
  ghost predicate NoRevival(was: Heap, now: Heap) {
    |was| <= |now| && forall o :: 0 <= o < |was| && was[o].count == 0 ==> now[o].count == 0
  }

  lemma {:induction false} SettleNoRevival(heap: Heap, work: seq<nat>)
    ensures NoRevival(heap, Settle(heap, work))
    decreases Total(heap), |work|
  {
    if work != [] {
      if CountOf(heap, work[0]) == 0 {
        SettleNoRevival(heap, work[1..]);
      } else {
        DroppedShrinks(heap, work[0]);
        SettleNoRevival(Dropped(heap, work[0]), GivenBack(heap, work[0]) + work[1..]);
      }
    }
  }

  /** The heap after a holder's copy has been retained. */
  function RetainedFor(heap: Heap, v: Holder): Heap {
    match v.Held()
    case None => heap
    case Some(o) => if o < |heap| then Retained(heap, o) else heap
  }

  /** Assigning a holder to itself, or to one that shares its object, leaves every count as it was. */
  lemma RetainThenRelease(heap: Heap, v: Holder)
    requires v.Held().Some? ==> CountOf(heap, v.Held().value) > 0
    ensures Settle(RetainedFor(heap, v), Refs([v])) == heap
  {
    RefsOne(v);
    if v.Held().Some? {
      var o := v.Held().value;
      var up := Retained(heap, o);
      assert GivenBack(up, o) + [o][1..] == [];
      assert Dropped(up, o) == heap;
      assert Settle(up, [o]) == Settle(Dropped(up, o), GivenBack(up, o) + [o][1..]);
    }
  }

  lemma SettleOne(heap: Heap, o: nat)
    requires CountOf(heap, o) > 0
    ensures Settle(heap, [o]) == Settle(Dropped(heap, o), GivenBack(heap, o))
  {
    assert GivenBack(heap, o) + [o][1..] == GivenBack(heap, o);
  }

  lemma SettleOneMore(heap: Heap, refs: seq<nat>, i: nat)
    requires i < |refs|
    ensures Settle(heap, refs[..i + 1]) == Settle(Settle(heap, refs[..i]), [refs[i]])
  {
    assert refs[..i + 1] == refs[..i] + [refs[i]];
    SettleConcat(heap, refs[..i], [refs[i]]);
  }

  lemma OneLess(refs: seq<nat>, i: nat, roots: multiset<nat>)
    requires i < |refs|
    ensures roots + multiset(refs[i..]) == (roots + multiset(refs[i + 1..])) + multiset{refs[i]}
  {
    assert refs[i..] == [refs[i]] + refs[i + 1..];
  }

  /** Moving a holder elsewhere leaves the references held as they were. */
  lemma RefsMove(holders: seq<Holder>, slot: nat, left: Holder)
    requires slot < |holders| && left.Held() == None
    ensures multiset(Refs(holders[slot := left] + [holders[slot]])) == multiset(Refs(holders))
  {
    RefsUpdate(holders, slot, left);
    RefsOne(left);
    RefsConcat(holders[slot := left], [holders[slot]]);
  }

  /** A new object that takes over the last holders as its contents. */
  lemma NewCounted(heap: Heap, kept: seq<Holder>, moved: seq<Holder>, v: Holder)
    requires Counted(heap, multiset(Refs(kept + moved))) && v.Held() == Some(|heap|)
    ensures Counted(heap + [Object(1, moved)], multiset(Refs(kept + [v])))
  {
    forall p: nat
      ensures CountOf(heap + [Object(1, moved)], p)
           == multiset(Refs(kept + [v]))[p] + AllRefs(heap + [Object(1, moved)])[p]
    {
      NewAt(heap, kept, moved, v, p);
    }
  }

  lemma NewAt(heap: Heap, kept: seq<Holder>, moved: seq<Holder>, v: Holder, p: nat)
    requires Counted(heap, multiset(Refs(kept + moved))) && v.Held() == Some(|heap|)
    ensures CountOf(heap + [Object(1, moved)], p)
         == multiset(Refs(kept + [v]))[p] + AllRefs(heap + [Object(1, moved)])[p]
  {
    hide Refs, AllRefs;
    assert CountOf(heap, p) == multiset(Refs(kept + moved))[p] + AllRefs(heap)[p];
    RefsConcat(kept, moved);
    RefsConcat(kept, [v]);
    RefsOne(v);
    CountConcat(Refs(kept), Refs(moved), p);
    CountConcat(Refs(kept), Refs([v]), p);
    StoredNew(heap, Object(1, moved), p);
  }

  lemma StoredNew(heap: Heap, o: Object, p: nat)
    ensures AllRefs(heap + [o])[p] == AllRefs(heap)[p] + multiset(Refs(o.contents))[p]
  {
    assert (heap + [o])[..|heap|] == heap;
  }

  lemma CountConcat(a: seq<nat>, b: seq<nat>, p: nat)
    ensures multiset(a + b)[p] == multiset(a)[p] + multiset(b)[p]
    ensures |b| == 1 ==> multiset(b)[p] == if p == b[0] then 1 else 0
  {
    if |b| == 1 {
      assert b == [b[0]];
    }
  }

  /** What a move leaves behind. */
  function Emptied(v: Holder): Holder {
    if v.Ref? then Ref(None) else Plain
  }

  class World {
    var heap: Heap
    var holders: seq<Holder>

    /** Every count is the number of holders outside plus the Variants in live tables. */
    ghost predicate Coherent()
      reads this
    {
      Counted(heap, multiset(Refs(holders)))
    }

    constructor ()
      ensures Coherent() && heap == [] && holders == []
    {
      heap, holders := [], [];
    }

    /** An object lives exactly as long as something holds it. */
    lemma AliveWhileHeld(o: nat)
      requires Coherent()
      ensures CountOf(heap, o) > 0 <==> o in Refs(holders) || o in AllRefs(heap)
    {
      assert CountOf(heap, o) == multiset(Refs(holders))[o] + AllRefs(heap)[o];
    }

    lemma HeldIsAlive(slot: nat)
      requires Coherent() && slot < |holders| && holders[slot].Held().Some?
      ensures CountOf(heap, holders[slot].Held().value) > 0
    {
      var a := holders[..slot];
      assert holders == (a + [holders[slot]]) + holders[slot + 1..];
      RefsConcat(a + [holders[slot]], holders[slot + 1..]);
      RefsConcat(a, [holders[slot]]);
      RefsOne(holders[slot]);
      AliveWhileHeld(holders[slot].Held().value);
    }

    /** Object::release. The last one deletes the object, whose destructor releases what it held. */
    method Release(o: nat, ghost roots: multiset<nat>)
      requires Counted(heap, roots + multiset{o})
      modifies this`heap
      ensures heap == Settle(old(heap), [o])
      ensures Counted(heap, roots)
      decreases Total(heap), 0
    {
      DropCounted(heap, o, roots);
      DroppedShrinks(heap, o);
      SettleOne(heap, o);
      if heap[o].count == 1 {
        var contents := heap[o].contents;
        heap := heap[o := Object(0, [])];
        ReleaseAll(Refs(contents), roots);
      } else {
        heap := heap[o := heap[o].(count := heap[o].count - 1)];
        assert roots + multiset([]) == roots;
      }
    }

    /** The destructor of a table's vector: each element's reference is released in turn. */
    method ReleaseAll(refs: seq<nat>, ghost roots: multiset<nat>)
      requires Counted(heap, roots + multiset(refs))
      modifies this`heap
      ensures heap == Settle(old(heap), refs)
      ensures Counted(heap, roots)
      decreases Total(heap), 1
    {
      for i := 0 to |refs|
        invariant heap == Settle(old(heap), refs[..i])
        invariant Counted(heap, roots + multiset(refs[i..]))
        invariant Total(heap) <= Total(old(heap))
      {
        OneLess(refs, i, roots);
        SettleOneMore(old(heap), refs, i);
        SettleShrinks(heap, [refs[i]]);
        Release(refs[i], roots + multiset(refs[i + 1..]));
      }
      assert refs[..|refs|] == refs && roots + multiset(refs[|refs|..]) == roots;
    }

    method ReleaseHeld(v: Holder, ghost roots: multiset<nat>)
      requires Counted(heap, roots + multiset(Refs([v])))
      modifies this`heap
      ensures heap == Settle(old(heap), Refs([v])) && Counted(heap, roots) && NoRevival(old(heap), heap)
    {
      RefsOne(v);
      SettleNoRevival(heap, Refs([v]));
      match v.Held() {
        case None =>
          assert roots + multiset(Refs([v])) == roots;
        case Some(o) =>
          assert roots + multiset(Refs([v])) == roots + multiset{o};
          Release(o, roots);
      }
    }

    method RetainHeld(v: Holder, ghost roots: multiset<nat>)
      requires v.Held().Some? ==> CountOf(heap, v.Held().value) > 0
      requires Counted(heap, roots)
      modifies this`heap
      ensures heap == RetainedFor(old(heap), v) && Counted(heap, roots + multiset(Refs([v])))
    {
      RefsOne(v);
      match v.Held() {
        case None =>
          assert roots + multiset(Refs([v])) == roots;
        case Some(o) =>
          assert roots + multiset(Refs([v])) == roots + multiset{o};
          RetainCounted(heap, o, roots);
          heap := heap[o := heap[o].(count := heap[o].count + 1)];
      }
    }

    /** A new object starts with the one reference of its first holder; a table starts with what is moved into it. */
    method New(make: nat -> Holder, contents: nat)
      requires Coherent() && contents <= |holders| && make(|heap|).Held() == Some(|heap|)
      modifies this
      ensures Coherent() && NoRevival(old(heap), heap)
      ensures var rest := |old(holders)| - contents;
        && heap == old(heap) + [Object(1, old(holders)[rest..])]
        && holders == old(holders)[..rest] + [make(|old(heap)|)]
    {
      var rest := |holders| - contents;
      var v := make(|heap|);
      assert holders[..rest] + holders[rest..] == holders;
      NewCounted(heap, holders[..rest], holders[rest..], v);
      heap, holders := heap + [Object(1, holders[rest..])], holders[..rest] + [v];
    }

    /** The copy constructors; `as` is the kind of the copy, so that a Variant may be made of a StrongRef's object. */
    method Copy(slot: nat, copy: Holder)
      requires Coherent() && slot < |holders| && copy.Held() == holders[slot].Held()
      modifies this
      ensures Coherent() && NoRevival(old(heap), heap)
      ensures heap == RetainedFor(old(heap), copy) && holders == old(holders) + [copy]
    {
      hide Refs;
      if copy.Held().Some? {
        HeldIsAlive(slot);
      }
      RefsConcat(holders, [copy]);
      assert multiset(Refs(holders + [copy])) == multiset(Refs(holders)) + multiset(Refs([copy]));
      RetainHeld(copy, multiset(Refs(holders)));
      holders := holders + [copy];
    }

    /** The move constructors: no count changes, the source is left empty. */
    method Move(slot: nat)
      requires Coherent() && slot < |holders|
      modifies this`holders
      ensures Coherent()
      ensures holders == old(holders)[slot := Emptied(old(holders)[slot])] + [old(holders)[slot]]
    {
      var v := holders[slot];
      var left := if v.Ref? then Ref(None) else Plain;
      RefsMove(holders, slot, left);
      holders := holders[slot := left] + [v];
    }

    /** The destructors. */
    method Destroy(slot: nat)
      requires Coherent() && slot < |holders|
      modifies this
      ensures Coherent() && NoRevival(old(heap), heap)
      ensures heap == Settle(old(heap), Refs([old(holders)[slot]])) && holders == old(holders)[slot := Plain]
    {
      var v := holders[slot];
      RefsUpdate(holders, slot, Plain);
      RefsOne(Plain);
      ReleaseHeld(v, multiset(Refs(holders[slot := Plain])));
      holders := holders[slot := Plain];
    }

    /** Variant::operator= and StrongRef::set: the new reference is taken before the old one is given back, so that
        assigning a holder to itself changes nothing. */
    method Assign(dst: nat, src: nat)
      requires Coherent() && dst < |holders| && src < |holders|
      modifies this
      ensures Coherent() && NoRevival(old(heap), heap)
      ensures heap == Settle(RetainedFor(old(heap), old(holders[src])), Refs([old(holders[dst])]))
      ensures holders == old(holders)[dst := old(holders)[src]]
      ensures old(holders[dst].Held()) == old(holders[src].Held()) ==> heap == old(heap)
    {
      hide Refs;
      var v, was := holders[src], holders[dst];
      if v.Held().Some? {
        HeldIsAlive(src);
      }
      RefsOne(v);
      RefsOne(was);
      ghost var now := holders[dst := v];
      RetainHeld(v, multiset(Refs(holders)));
      RefsUpdate(holders, dst, v);
      ReleaseHeld(was, multiset(Refs(now)));
      if was.Held() == v.Held() {
        RetainThenRelease(old(heap), v);
      }
      holders := holders[dst := holders[src]];
    }
  }

  lemma {:induction false} SettleShrinks(heap: Heap, work: seq<nat>)
    ensures Total(Settle(heap, work)) <= Total(heap)
    decreases Total(heap), |work|
  {
    if work != [] {
      if CountOf(heap, work[0]) == 0 {
        SettleShrinks(heap, work[1..]);
      } else {
        DroppedShrinks(heap, work[0]);
        SettleShrinks(Dropped(heap, work[0]), GivenBack(heap, work[0]) + work[1..]);
      }
    }
  }

  datatype Command =
    | NewObject
    | NewString
    | NewTable(contents: nat)
    | CopyHolder(slot: nat)
    | MakeProxy(slot: nat, kind: nat)
    | MoveHolder(slot: nat)
    | DestroyHolder(slot: nat)
    | AssignHolder(dst: nat, src: nat)

  datatype Scene = Scene(heap: Heap, holders: seq<Holder>)

  /** A new object and its holder; the last `contents` holders become what it holds. */
  function WithNew(s: Scene, v: Holder, contents: nat): Scene
    requires contents <= |s.holders|
  {
    var rest := |s.holders| - contents;
    Scene(s.heap + [Object(1, s.holders[rest..])], s.holders[..rest] + [v])
  }

  function WithCopy(s: Scene, copy: Holder): Scene {
    Scene(RetainedFor(s.heap, copy), s.holders + [copy])
  }

  /** One command; one whose holders do not exist is skipped. */
  function Then(s: Scene, c: Command): Scene {
    match c
    case NewObject => WithNew(s, Ref(Some(|s.heap|)), 0)
    case NewString => WithNew(s, Text(|s.heap|), 0)
    case NewTable(n) => if n <= |s.holders| then WithNew(s, Table(|s.heap|), n) else s
    case CopyHolder(i) => if i < |s.holders| then WithCopy(s, s.holders[i]) else s
    case MakeProxy(i, kind) =>
      if i < |s.holders| && s.holders[i].Ref? then WithCopy(s, Proxy(kind, s.holders[i].strong)) else s
    case MoveHolder(i) =>
      if i < |s.holders| then s.(holders := s.holders[i := Emptied(s.holders[i])] + [s.holders[i]]) else s
    case DestroyHolder(i) =>
      if i < |s.holders| then Scene(Settle(s.heap, Refs([s.holders[i]])), s.holders[i := Plain]) else s
    case AssignHolder(d, i) =>
      if d < |s.holders| && i < |s.holders| then
        Scene(Settle(RetainedFor(s.heap, s.holders[i]), Refs([s.holders[d]])), s.holders[d := s.holders[i]])
      else s
  }

  function After(s: Scene, script: seq<Command>): Scene {
    if script == [] then s else Then(After(s, script[..|script| - 1]), script[|script| - 1])
  }

  /** One command. */
  method Play(w: World, command: Command)
    requires w.Coherent()
    modifies w
    ensures w.Coherent() && NoRevival(old(w.heap), w.heap)
    ensures Scene(w.heap, w.holders) == Then(old(Scene(w.heap, w.holders)), command)
  {
    hide Counted, Refs, Settle, RetainedFor;
    match command {
      case NewObject => w.New((o: nat) => Ref(Some(o)), 0);
      case NewString => w.New((o: nat) => Text(o), 0);
      case NewTable(n) =>
        if n <= |w.holders| {
          w.New((o: nat) => Table(o), n);
        }
      case CopyHolder(i) =>
        if i < |w.holders| {
          w.Copy(i, w.holders[i]);
        }
      case MakeProxy(i, kind) =>
        if i < |w.holders| && w.holders[i].Ref? {
          w.Copy(i, Proxy(kind, w.holders[i].strong));
        }
      case MoveHolder(i) =>
        if i < |w.holders| {
          w.Move(i);
        }
      case DestroyHolder(i) =>
        if i < |w.holders| {
          w.Destroy(i);
        }
      case AssignHolder(d, i) =>
        if d < |w.holders| && i < |w.holders| {
          w.Assign(d, i);
        }
    }
  }

  /** Any run of operations, command by command: the counts stay right throughout, an object is alive exactly while it
      is held, and a deleted one stays deleted. */
  method Run(w: World, script: seq<Command>)
    requires w.Coherent()
    modifies w
    ensures Scene(w.heap, w.holders) == After(old(Scene(w.heap, w.holders)), script)
    ensures w.Coherent() && NoRevival(old(w.heap), w.heap)
    ensures forall o: nat :: CountOf(w.heap, o) > 0 <==> o in Refs(w.holders) || o in AllRefs(w.heap)
  {
    hide Then, Refs, AllRefs;
    ghost var was := Scene(w.heap, w.holders);
    for i := 0 to |script|
      invariant w.Coherent() && NoRevival(old(w.heap), w.heap)
      invariant Scene(w.heap, w.holders) == After(was, script[..i])
    {
      assert script[..i + 1][..i] == script[..i];
      Play(w, script[i]);
    }
    assert script[..|script|] == script;
    forall o: nat
      ensures CountOf(w.heap, o) > 0 <==> o in Refs(w.holders) || o in AllRefs(w.heap)
    {
      w.AliveWhileHeld(o);
    }
  }
}
