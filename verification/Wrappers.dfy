/** The wrapper protocol of the L^ glue: one hostdata wrapper per object per machine, weakly cached by address. */
module Wrappers {
  import opened Options

  /** A hostdata value; its pointer is null once it has been disposed of. */
  datatype Wrapper = Wrapper(pointer: Option<nat>)

  /** How many wrappers hold a reference to `object`. */
  function Holding(wrappers: seq<Wrapper>, target: nat): nat {
    if wrappers == [] then 0 else
      Holding(wrappers[..|wrappers| - 1], target) + (if wrappers[|wrappers| - 1].pointer == Some(target) then 1 else 0)
  }

  lemma {:induction false} HoldingPush(wrappers: seq<Wrapper>, w: Wrapper, target: nat)
    ensures Holding(wrappers + [w], target) == Holding(wrappers, target) + (if w.pointer == Some(target) then 1 else 0)
  {
    assert (wrappers + [w])[..|wrappers|] == wrappers;
  }

  lemma {:induction false} HoldingSome(wrappers: seq<Wrapper>, i: nat, target: nat)
    requires i < |wrappers| && wrappers[i].pointer == Some(target)
    ensures Holding(wrappers, target) > 0
  {
    if i < |wrappers| - 1 {
      HoldingSome(wrappers[..|wrappers| - 1], i, target);
    }
  }

  lemma {:induction false} HoldingClear(wrappers: seq<Wrapper>, i: nat, target: nat)
    requires i < |wrappers|
    ensures Holding(wrappers, target)
         == Holding(wrappers[i := Wrapper(None)], target) + (if wrappers[i].pointer == Some(target) then 1 else 0)
  {
    var now, n := wrappers[i := Wrapper(None)], |wrappers| - 1;
    if i == n {
      assert now[..n] == wrappers[..n];
    } else {
      assert now[..n] == wrappers[..n][i := Wrapper(None)];
      HoldingClear(wrappers[..n], i, target);
    }
  }

  // ---------------------------------------------------------------- one machine at one moment

  /**
   * `counts` are the reference counts of the objects that exist, by address; a freed address is absent and may be given
   * out again. `wrappers` is every wrapper ever made, `cache` the weak cache from address to wrapper. The rest are the
   * surroundings: references that are not wrappers', the wrappers the program can reach, and those the collector gave
   * up on.
   */
  datatype State = State(counts: map<nat, nat>, wrappers: seq<Wrapper>, cache: map<nat, nat>,
                         outside: map<nat, nat>, rooted: set<nat>, condemned: set<nat>)
  {
    function Outside(target: nat): nat {
      if target in outside then outside[target] else 0
    }

    /** The object of a wrapper, if there is such a wrapper and it has not been disposed of. */
    function Pointer(w: nat): Option<nat> {
      if w < |wrappers| then wrappers[w].pointer else None
    }
  }

  ghost predicate Counted(s: State, target: nat) {
    if target in s.counts then
      s.counts[target] > 0 && s.counts[target] == s.Outside(target) + Holding(s.wrappers, target)
    else s.Outside(target) == 0 && Holding(s.wrappers, target) == 0
  }

  /** Counts are outside references plus wrappers holding; a cached wrapper holds its object and has not been given up.
      */
  ghost predicate Sound(s: State) {
    && (forall o: nat :: Counted(s, o))
    && (forall o :: o in s.cache ==> s.Pointer(s.cache[o]) == Some(o) && s.cache[o] !in s.condemned)
    && s.rooted !! s.condemned
    && (forall w :: w in s.rooted || w in s.condemned ==> w < |s.wrappers|)
  }

  /** No wrapper with a pointer refers to a freed object. */
  lemma PointersAlive(s: State, w: nat)
    requires Sound(s) && s.Pointer(w).Some?
    ensures s.Pointer(w).value in s.counts
  {
    assert Counted(s, s.Pointer(w).value);
    HoldingSome(s.wrappers, w, s.Pointer(w).value);
  }

  // ---------------------------------------------------------------- what each operation makes of it

  /** One reference of `target` given back; the object is freed with its last. */
  function Released(counts: map<nat, nat>, target: nat): map<nat, nat> {
    if target in counts && counts[target] > 1 then counts[target := counts[target] - 1] else counts - {target}
  }

  /** Some other holder makes the object, or takes another reference. */
  function AfterRetain(s: State, target: nat): State {
    s.(counts := s.counts[target := (if target in s.counts then s.counts[target] else 0) + 1],
       outside := s.outside[target := s.Outside(target) + 1])
  }

  function AfterDrop(s: State, target: nat): State
    requires s.Outside(target) > 0
  {
    s.(counts := Released(s.counts, target), outside := s.outside[target := s.Outside(target) - 1])
  }

  /** What a push answers: the cached wrapper, or a new one. */
  function Pushed(s: State, target: nat, hasTag: bool, room: bool): Option<nat> {
    if target in s.cache then Some(s.cache[target]) else if hasTag && room then Some(|s.wrappers|) else None
  }

  function AfterPush(s: State, target: nat, hasTag: bool, room: bool, cacheRoom: bool): State
    requires target in s.counts
  {
    if target in s.cache then s.(rooted := s.rooted + {s.cache[target]})
    else if !(hasTag && room) then s
    else s.(wrappers := s.wrappers + [Wrapper(Some(target))], counts := s.counts[target := s.counts[target] + 1],
            cache := if cacheRoom then s.cache[target := |s.wrappers|] else s.cache,
            rooted := s.rooted + {|s.wrappers|})
  }

  /** Disposing forgets whatever wrapper is cached for the address. */
  function AfterDispose(s: State, w: nat): State {
    if s.Pointer(w) == None then s else
      var o := s.Pointer(w).value;
      s.(counts := Released(s.counts, o), wrappers := s.wrappers[w := Wrapper(None)], cache := s.cache - {o})
  }

  function AfterCondemn(s: State, unreachable: set<nat>): State {
    s.(cache := map o | o in s.cache && s.cache[o] !in unreachable :: s.cache[o],
       condemned := s.condemned + unreachable)
  }

  // ---------------------------------------------------------------- the invariant

  lemma RetainSound(s: State, target: nat)
    requires Sound(s)
    ensures Sound(AfterRetain(s, target))
  {
    var after := AfterRetain(s, target);
    forall o: nat ensures Counted(after, o) {
      assert Counted(s, o);
    }
  }

  lemma DropSound(s: State, target: nat)
    requires Sound(s) && s.Outside(target) > 0
    ensures target in s.counts && s.counts[target] > 0 && Sound(AfterDrop(s, target))
  {
    assert Counted(s, target);
    var after := AfterDrop(s, target);
    forall o: nat ensures Counted(after, o) {
      assert Counted(s, o);
    }
  }

  lemma PushSound(s: State, target: nat, hasTag: bool, room: bool, cacheRoom: bool)
    requires Sound(s) && target in s.counts
    ensures Sound(AfterPush(s, target, hasTag, room, cacheRoom))
  {
    var after := AfterPush(s, target, hasTag, room, cacheRoom);
    forall o: nat ensures Counted(after, o) {
      assert Counted(s, o);
      HoldingPush(s.wrappers, Wrapper(Some(target)), o);
    }
  }

  lemma DisposeSound(s: State, w: nat)
    requires Sound(s) && w < |s.wrappers|
    ensures s.Pointer(w).Some? ==> s.Pointer(w).value in s.counts && s.counts[s.Pointer(w).value] > 0
    ensures Sound(AfterDispose(s, w))
  {
    if s.Pointer(w).Some? {
      PointersAlive(s, w);
      assert Counted(s, s.Pointer(w).value);
      var after := AfterDispose(s, w);
      forall o: nat ensures Counted(after, o) {
        assert Counted(s, o);
        HoldingClear(s.wrappers, w, o);
      }
    }
  }

  lemma CondemnSound(s: State, unreachable: set<nat>)
    requires Sound(s) && unreachable !! s.rooted && forall w :: w in unreachable ==> w < |s.wrappers|
    ensures Sound(AfterCondemn(s, unreachable))
  {
    var after := AfterCondemn(s, unreachable);
    forall o: nat ensures Counted(after, o) {
      assert Counted(s, o);
    }
  }

  lemma ForgetSound(s: State, w: nat)
    requires Sound(s)
    ensures Sound(s.(rooted := s.rooted - {w}))
  {
    forall o: nat ensures Counted(s.(rooted := s.rooted - {w}), o) {
      assert Counted(s, o);
    }
  }

  // ---------------------------------------------------------------- what a step means

  /** An answer is a reachable wrapper of the object asked for, the cached one if there is one. Nothing changes but its
      reach then, and nothing at all when there is no answer. */
  lemma PushMeans(s: State, target: nat, hasTag: bool, room: bool, cacheRoom: bool)
    requires Sound(s) && target in s.counts
    ensures var answer, after := Pushed(s, target, hasTag, room), AfterPush(s, target, hasTag, room, cacheRoom);
      && (answer == None <==> target !in s.cache && !(hasTag && room))
      && (answer == None ==> after == s)
      && (answer.Some? ==>
           && after.Pointer(answer.value) == Some(target) && answer.value in after.rooted
           && answer.value !in after.condemned)
      && (target in s.cache ==> after == s.(rooted := after.rooted))
      && (answer.Some? && target !in s.cache ==> after.counts[target] == s.counts[target] + 1)
  {
  }

  /** A disposed wrapper has no object any more, and the object is freed if and only if nothing else holds it. */
  lemma DisposeMeans(s: State, w: nat)
    requires Sound(s) && w < |s.wrappers|
    ensures var after := AfterDispose(s, w);
      && after.Pointer(w) == None
      && (s.Pointer(w).Some? ==>
           var o := s.Pointer(w).value;
           o in after.counts <==> s.Outside(o) + Holding(after.wrappers, o) > 0)
  {
    DisposeSound(s, w);
    if s.Pointer(w).Some? {
      assert Counted(AfterDispose(s, w), s.Pointer(w).value);
    }
  }

  // ---------------------------------------------------------------- the machine

  class Machine {
    var counts: map<nat, nat>
    var wrappers: seq<Wrapper>
    var cache: map<nat, nat>
    var outside: map<nat, nat>
    var rooted: set<nat>
    var condemned: set<nat>

    function Now(): State
      reads this
    {
      State(counts, wrappers, cache, outside, rooted, condemned)
    }

    constructor ()
      ensures Sound(Now()) && Now() == State(map[], [], map[], map[], {}, {})
    {
      counts, wrappers, cache, outside, rooted, condemned := map[], [], map[], map[], {}, {};
    }

    /** Object::retain by some other holder, the maker of a new object among them. */
    method Retain(target: nat)
      requires Sound(Now())
      modifies this
      ensures Sound(Now()) && Now() == AfterRetain(old(Now()), target)
    {
      hide Sound;
      RetainSound(Now(), target);
      outside := outside[target := Now().Outside(target) + 1];
      counts := counts[target := (if target in counts then counts[target] else 0) + 1];
    }

    /** Object::release: the object is freed with its last reference. */
    method Release(target: nat)
      requires target in counts && counts[target] > 0
      modifies this`counts
      ensures counts == Released(old(counts), target)
    {
      if counts[target] == 1 {
        counts := counts - {target};
      } else {
        counts := counts[target := counts[target] - 1];
      }
    }

    /** Some other holder lets go. */
    method Drop(target: nat)
      requires Sound(Now()) && Now().Outside(target) > 0
      modifies this
      ensures Sound(Now()) && Now() == AfterDrop(old(Now()), target)
    {
      hide Sound;
      DropSound(Now(), target);
      outside := outside[target := Now().Outside(target) - 1];
      Release(target);
    }

    /** pushObject: the wrapper this machine already has, or a new one that takes a reference of its own; nil without an
        object, a tag or room. */
    method PushObject(target: Option<nat>, hasTag: bool, room: bool, cacheRoom: bool) returns (answer: Option<nat>)
      requires Sound(Now()) && (target.Some? ==> target.value in counts)
      modifies this
      ensures Sound(Now())
      ensures target == None ==> answer == None && Now() == old(Now())
      ensures target.Some? ==>
        && answer == Pushed(old(Now()), target.value, hasTag, room)
        && Now() == AfterPush(old(Now()), target.value, hasTag, room, cacheRoom)
      ensures answer.Some? ==>
        Now().Pointer(answer.value) == target && answer.value in rooted && answer.value !in condemned
    {
      if target == None {
        return None;
      }
      hide Sound;
      var o := target.value;
      PushSound(Now(), o, hasTag, room, cacheRoom);
      PushMeans(Now(), o, hasTag, room, cacheRoom);
      if o in cache {
        rooted := rooted + {cache[o]};
        return Some(cache[o]);
      }
      if !hasTag {
        return None;
      }
      if !room {
        return None;
      }
      var w := |wrappers|;
      wrappers := wrappers + [Wrapper(Some(o))];
      counts := counts[o := counts[o] + 1];
      if cacheRoom {
        cache := cache[o := w];
      }
      rooted := rooted + {w};
      answer := Some(w);
    }

    /** lh_object_dispose, called by name or by the collector: the first call gives the reference back, later ones do
        nothing. */
    method Dispose(w: nat)
      requires Sound(Now()) && w < |wrappers|
      modifies this
      ensures Sound(Now()) && Now() == AfterDispose(old(Now()), w)
      ensures Now().Pointer(w) == None
      ensures var o := old(Now()).Pointer(w);
        o.Some? ==> (o.value in counts <==> Now().Outside(o.value) + Holding(wrappers, o.value) > 0)
    {
      hide Sound;
      DisposeSound(Now(), w);
      DisposeMeans(Now(), w);
      if wrappers[w].pointer == None {
        return;
      }
      var o := wrappers[w].pointer.value;
      cache := cache - {o};
      Release(o);
      wrappers := wrappers[w := Wrapper(None)];
    }

    /** The end of a marking: the collector gives up on wrappers the program cannot reach and takes their entries
        out. */
    method Condemn(unreachable: set<nat>)
      requires Sound(Now()) && unreachable !! rooted && forall w :: w in unreachable ==> w < |wrappers|
      modifies this
      ensures Sound(Now()) && Now() == AfterCondemn(old(Now()), unreachable)
    {
      hide Sound;
      CondemnSound(Now(), unreachable);
      cache := map o | o in cache && cache[o] !in unreachable :: cache[o];
      condemned := condemned + unreachable;
    }

    /** The program forgets a wrapper. */
    method Unroot(w: nat)
      requires Sound(Now())
      modifies this`rooted
      ensures Sound(Now()) && Now() == old(Now()).(rooted := old(rooted) - {w})
    {
      hide Sound;
      ForgetSound(Now(), w);
      rooted := rooted - {w};
    }

    /** checkObject: what a binding may use. `released` is the machine's own mark on the value, and `fits` says that the
        type registered for its tag is one of those asked for. */
    method CheckObject(w: nat, released: bool, fits: bool) returns (target: Option<nat>)
      requires Sound(Now()) && w < |wrappers|
      ensures target == if released || !fits then None else wrappers[w].pointer
      ensures target.Some? ==> target.value in counts
    {
      if released || wrappers[w].pointer == None {
        return None;
      }
      if !fits {
        return None;
      }
      PointersAlive(Now(), w);
      target := wrappers[w].pointer;
    }
  }

  // ---------------------------------------------------------------- runs

  datatype Command =
    | New(target: nat)
    | Share(target: nat)
    | LetGo(target: nat)
    | Push(target: nat, hasTag: bool, room: bool, cacheRoom: bool)
    | Check(wrapper: nat, released: bool, fits: bool)
    | DisposeByName(wrapper: nat)
    | Forget(wrapper: nat)
    | EndMarking(unreachable: set<nat>)
    | SweepWrapper(wrapper: nat)

  /** One command; one whose situation cannot arise is skipped. */
  ghost function Then(s: State, c: Command): State {
    match c
    case New(o) => if o in s.counts then s else AfterRetain(s, o)
    case Share(o) => if o in s.counts then AfterRetain(s, o) else s
    case LetGo(o) => if s.Outside(o) > 0 then AfterDrop(s, o) else s
    case Push(o, hasTag, room, cacheRoom) => if o in s.counts then AfterPush(s, o, hasTag, room, cacheRoom) else s
    case Check(_, _, _) => s
    case DisposeByName(w) => if w in s.rooted then AfterDispose(s, w) else s
    case Forget(w) => s.(rooted := s.rooted - {w})
    case EndMarking(unreachable) => if MayCondemn(s, unreachable) then AfterCondemn(s, unreachable) else s
    case SweepWrapper(w) => if w in s.condemned then AfterDispose(s, w) else s
  }

  predicate MayCondemn(s: State, unreachable: set<nat>) {
    unreachable !! s.rooted && forall w :: w in unreachable ==> w < |s.wrappers|
  }

  /** What a push answers the program, or a check the binding. */
  ghost function Answer(s: State, c: Command): Option<nat> {
    match c
    case Push(o, hasTag, room, _) => if o in s.counts then Pushed(s, o, hasTag, room) else None
    case Check(w, released, fits) => if w in s.rooted && !released && fits then s.Pointer(w) else None
    case _ => None
  }

  ghost function After(s: State, script: seq<Command>): State {
    if script == [] then s else Then(After(s, script[..|script| - 1]), script[|script| - 1])
  }

  lemma ThenSound(s: State, c: Command)
    requires Sound(s)
    ensures Sound(Then(s, c))
  {
    assert forall w :: w in s.rooted || w in s.condemned ==> w < |s.wrappers|;
    hide Sound, AfterRetain, AfterDrop, AfterPush, AfterDispose, AfterCondemn;
    match c
    case New(o) => RetainSound(s, o);
    case Share(o) => RetainSound(s, o);
    case LetGo(o) =>
      if s.Outside(o) > 0 {
        DropSound(s, o);
      }
    case Push(o, hasTag, room, cacheRoom) =>
      if o in s.counts {
        PushSound(s, o, hasTag, room, cacheRoom);
      }
    case Check(_, _, _) =>
    case DisposeByName(w) =>
      if w in s.rooted {
        DisposeSound(s, w);
      }
    case Forget(w) => ForgetSound(s, w);
    case EndMarking(unreachable) =>
      if MayCondemn(s, unreachable) {
        CondemnSound(s, unreachable);
      }
    case SweepWrapper(w) =>
      if w in s.condemned {
        DisposeSound(s, w);
      }
  }

  /** In every interleaving counts stay outside references plus wrappers holding, and the cache stays right. */
  lemma {:induction false} RunSound(s: State, script: seq<Command>)
    requires Sound(s)
    ensures Sound(After(s, script))
  {
    hide Sound, Then;
    if script != [] {
      RunSound(s, script[..|script| - 1]);
      ThenSound(After(s, script[..|script| - 1]), script[|script| - 1]);
    }
  }

  /** Wrappers are only added, and a wrapper keeps its object until it is disposed of, after which it never has one
      again. */
  ghost predicate Evolves(was: seq<Wrapper>, now: seq<Wrapper>) {
    |was| <= |now| && forall w :: 0 <= w < |was| ==> now[w] == was[w] || now[w] == Wrapper(None)
  }

  lemma ThenEvolves(s: State, c: Command)
    ensures Evolves(s.wrappers, Then(s, c).wrappers)
  {
  }

  lemma {:induction false} RunEvolves(s: State, script: seq<Command>, i: nat)
    requires i <= |script|
    ensures Evolves(After(s, script[..i]).wrappers, After(s, script).wrappers)
  {
    if i == |script| {
      assert script[..i] == script;
    } else {
      var front := script[..|script| - 1];
      assert front[..i] == script[..i];
      RunEvolves(s, front, i);
      ThenEvolves(After(s, front), script[|script| - 1]);
      hide Then;
    }
  }

  /** What a push has answered anywhere in a run was a wrapper of the object asked for, and has been of no other since.
      */
  lemma AnswerLasts(s: State, script: seq<Command>, i: nat)
    requires Sound(s) && i < |script| && script[i].Push? && Answer(After(s, script[..i]), script[i]).Some?
    ensures var w := Answer(After(s, script[..i]), script[i]).value;
      && After(s, script[..i + 1]).Pointer(w) == Some(script[i].target)
      && After(s, script).Pointer(w) in {Some(script[i].target), None}
  {
    var c := script[i];
    RunSound(s, script[..i]);
    PushMeans(After(s, script[..i]), c.target, c.hasTag, c.room, c.cacheRoom);
    RunEvolves(s, script, i + 1);
    assert script[..i + 1][..i] == script[..i];
    hide Sound, AfterPush, Pushed;
  }

  /** What a check hands a binding anywhere in a run is alive. */
  lemma CheckedAlive(s: State, script: seq<Command>, c: Command)
    requires Sound(s) && c.Check? && Answer(After(s, script), c).Some?
    ensures Answer(After(s, script), c).value in After(s, script).counts
  {
    RunSound(s, script);
    PointersAlive(After(s, script), c.wrapper);
  }

  /** Some wrapper of the object is disposed of, or the one cached for it is given up. */
  predicate Forgets(s: State, c: Command, target: nat) {
    match c
    case DisposeByName(w) => w in s.rooted && s.Pointer(w) == Some(target)
    case SweepWrapper(w) => w in s.condemned && s.Pointer(w) == Some(target)
    case EndMarking(unreachable) => MayCondemn(s, unreachable) && target in s.cache && s.cache[target] in unreachable
    case _ => false
  }

  /** A cached wrapper stays the one wrapper of its object exactly as long as nothing makes the cache forget it. */
  lemma ThenCached(s: State, c: Command, target: nat)
    requires target in s.cache
    ensures target in Then(s, c).cache <==> !Forgets(s, c, target)
    ensures !Forgets(s, c, target) ==> Then(s, c).cache[target] == s.cache[target]
  {
  }

  lemma {:induction false} OneWrapper(s: State, script: seq<Command>, target: nat, hasTag: bool, room: bool)
    requires Sound(s) && target in s.cache
    requires forall i :: 0 <= i < |script| ==> !Forgets(After(s, script[..i]), script[i], target)
    ensures var now := After(s, script);
      && target in now.cache && now.cache[target] == s.cache[target]
      && Answer(now, Push(target, hasTag, room, true)) == Some(s.cache[target])
  {
    var now := After(s, script);
    if script != [] {
      var front := script[..|script| - 1];
      forall i | 0 <= i < |front|
        ensures !Forgets(After(s, front[..i]), front[i], target)
      {
        assert front[..i] == script[..i] && front[i] == script[i];
      }
      OneWrapper(s, front, target, hasTag, room);
      ThenCached(After(s, front), script[|front|], target);
      assert script[..|front|] == front;
    }
    RunSound(s, script);
    PointersAlive(now, now.cache[target]);
  }

  lemma AfterOne(s: State, script: seq<Command>, c: Command)
    ensures After(s, []) == s && After(s, script + [c]) == Then(After(s, script), c)
  {
    assert (script + [c])[..|script|] == script;
  }

  ghost function Empty(): State {
    State(map[], [], map[], map[], {}, {})
  }

  /** The cache had no room for a first wrapper, and has for a second. Disposing of the first makes it forget the
      second, and the object gets a third beside it. */
  lemma SecondWrapper()
    ensures var script := [New(5), Push(5, true, true, false), Push(5, true, true, true), DisposeByName(0)];
      var now := After(Empty(), script);
      now.Pointer(1) == Some(5) && 1 in now.rooted && Answer(now, Push(5, true, true, true)) == Some(2)
  {
    var c := [New(5), Push(5, true, true, false), Push(5, true, true, true), DisposeByName(0)];
    var s1 := Then(Empty(), c[0]);
    var s2 := Then(s1, c[1]);
    var s3 := Then(s2, c[2]);
    assert s2.wrappers == [Wrapper(Some(5))] && s2.cache == map[] && s2.counts == map[5 := 2];
    assert s3.wrappers == [Wrapper(Some(5)), Wrapper(Some(5))] && s3.cache == map[5 := 1] && s3.counts == map[5 := 3];
    AfterOne(Empty(), [], c[0]);
    AfterOne(Empty(), [c[0]], c[1]);
    AfterOne(Empty(), [c[0], c[1]], c[2]);
    AfterOne(Empty(), [c[0], c[1], c[2]], c[3]);
    assert [] + [c[0]] == [c[0]] && [c[0]] + [c[1]] == [c[0], c[1]];
    assert [c[0], c[1]] + [c[2]] == [c[0], c[1], c[2]] && [c[0], c[1], c[2]] + [c[3]] == c;
  }

  /** One command. */
  method Play(m: Machine, command: Command) returns (answer: Option<nat>)
    requires Sound(m.Now())
    modifies m
    ensures Sound(m.Now()) && m.Now() == Then(old(m.Now()), command) && answer == Answer(old(m.Now()), command)
  {
    assert forall w :: w in m.rooted || w in m.condemned ==> w < |m.wrappers|;
    hide Sound, AfterRetain, AfterDrop, AfterPush, AfterDispose, AfterCondemn;
    answer := None;
    match command {
      case New(o) =>
        if o !in m.counts {
          m.Retain(o);
        }
      case Share(o) =>
        if o in m.counts {
          m.Retain(o);
        }
      case LetGo(o) =>
        if m.Now().Outside(o) > 0 {
          m.Drop(o);
        }
      case Push(o, hasTag, room, cacheRoom) =>
        if o in m.counts {
          answer := m.PushObject(Some(o), hasTag, room, cacheRoom);
        }
      case Check(w, released, fits) =>
        if w in m.rooted {
          answer := m.CheckObject(w, released, fits);
        }
      case DisposeByName(w) =>
        if w in m.rooted {
          m.Dispose(w);
        }
      case Forget(w) => m.Unroot(w);
      case EndMarking(unreachable) =>
        if unreachable !! m.rooted && forall w :: w in unreachable ==> w < |m.wrappers| {
          m.Condemn(unreachable);
        }
      case SweepWrapper(w) =>
        if w in m.condemned {
          m.Dispose(w);
        }
    }
  }

  /** Plays any interleaving: every moment of it is the one `After` gives and every answer the one `Answer` gives there,
      of which the laws above speak. */
  method Run(m: Machine, script: seq<Command>) returns (answers: seq<Option<nat>>)
    requires Sound(m.Now())
    modifies m
    ensures Sound(m.Now()) && m.Now() == After(old(m.Now()), script)
    ensures |answers| == |script|
    ensures forall i :: 0 <= i < |script| ==> answers[i] == Answer(After(old(m.Now()), script[..i]), script[i])
  {
    hide Sound, Then, Answer;
    answers := [];
    ghost var was := m.Now();
    for i := 0 to |script|
      invariant Sound(m.Now()) && m.Now() == After(was, script[..i]) && |answers| == i
      invariant forall k :: 0 <= k < i ==> answers[k] == Answer(After(was, script[..k]), script[k])
    {
      assert script[..i + 1][..i] == script[..i];
      var answer := Play(m, script[i]);
      answers := answers + [answer];
    }
    assert script[..|script|] == script;
  }
}
