/** Parked objects over a lot, and every run of them. */
module LotRuns {
  import opened ParkingLot

  /** A Parked object: it parks on construction and gives its slot back when destroyed. `epoch` counts the attaches
      before it parked. */
  datatype Parked = Parked(slot: nat, value: Value, alive: bool, epoch: nat)

  /** A lot, every Parked object ever made with it, and how often the lot has been attached. */
  datatype World = World(lot: Moment, parked: seq<Parked>, epoch: nat)

  datatype Command =
    | New(value: Value)
    | Destroy(index: nat)
    | SweepNow
    | DetachNow
    | AttachNow(refuses: nat -> bool, made: bool, registered: bool)

  /** Parked objects still alive own distinct slots: those parked in the table at hand live ones that hold their values,
      those parked before it stale ones. */
  ghost predicate Owns(w: World) {
    && (forall i :: 0 <= i < |w.parked| ==> OwnsOne(w, w.parked[i]))
    && (forall i, j :: 0 <= i < j < |w.parked| && w.parked[i].alive && w.parked[j].alive && w.parked[i].slot != 0 ==>
         w.parked[i].slot != w.parked[j].slot)
  }

  ghost predicate OwnsOne(w: World, p: Parked) {
    && p.epoch <= w.epoch
    && (p.alive && p.slot != 0 ==>
         if p.epoch == w.epoch then p.slot in w.lot.live && w.lot.live[p.slot] == p.value else p.slot in w.lot.stale)
  }

  ghost predicate Good(w: World) {
    Sound(w.lot) && Owns(w)
  }

  ghost function Then(w: World, c: Command): World {
    match c
    case New(value) =>
      w.(lot := AfterPark(w.lot, value), parked := w.parked + [Parked(Parking(w.lot, value), value, true, w.epoch)])
    case Destroy(k) =>
      if k < |w.parked| && w.parked[k].alive then
        w.(lot := AfterRelease(w.lot, w.parked[k].slot), parked := w.parked[k := w.parked[k].(alive := false)])
      else w
    case SweepNow => w.(lot := AfterSweep(w.lot))
    case DetachNow => w.(lot := AfterDetach(w.lot))
    case AttachNow(refuses, made, registered) =>
      w.(lot := AfterAttach(w.lot, refuses, made, registered), epoch := w.epoch + (if made && registered then 1 else 0))
  }

  /** The world after a script. */
  ghost function After(w: World, script: seq<Command>): World {
    if script == [] then w else Then(After(w, script[..|script| - 1]), script[|script| - 1])
  }

  // ---------------------------------------------------------------- laws of every run

  lemma ThenGood(w: World, c: Command)
    requires Good(w)
    ensures Good(Then(w, c))
  {
    hide Sound;
    match c
    case New(value) => NewGood(w, value);
    case Destroy(k) =>
      if k < |w.parked| && w.parked[k].alive {
        assert OwnsOne(w, w.parked[k]);
        ReleaseSound(w.lot, w.parked[k].slot);
        DestroyOwns(w, k);
      }
    case SweepNow =>
      SweepSound(w.lot);
      KeepsOwns(w, Then(w, c));
    case DetachNow =>
      DetachSound(w.lot);
      KeepsOwns(w, Then(w, c));
    case AttachNow(refuses, made, registered) =>
      AttachSound(w.lot, refuses, made, registered);
      AttachOwns(w, refuses, made, registered);
  }

  lemma NewGood(w: World, value: Value)
    requires Good(w)
    ensures Good(Then(w, New(value)))
  {
    hide Sound, AfterPark;
    ParkSound(w.lot, value);
    if w.lot.attached && value != Nil {
      ParkMeans(w.lot, value);
    } else {
      ParkNothing(w.lot, value);
    }
    var after := Then(w, New(value));
    forall i | 0 <= i < |w.parked|
      ensures OwnsOne(after, w.parked[i])
      ensures w.parked[i].alive && w.parked[i].slot != 0 ==> w.parked[i].slot != Parking(w.lot, value)
    {
      assert OwnsOne(w, w.parked[i]);
    }
  }

  lemma ParkNothing(m: Moment, value: Value)
    requires !m.attached || value == Nil
    ensures AfterPark(m, value) == m && Parking(m, value) == 0
  {
  }

  lemma DestroyOwns(w: World, k: nat)
    requires Good(w) && k < |w.parked| && w.parked[k].alive
    ensures Owns(Then(w, Destroy(k)))
  {
    hide Sound;
    var after, slot := Then(w, Destroy(k)), w.parked[k].slot;
    forall i | 0 <= i < |w.parked|
      ensures OwnsOne(after, after.parked[i])
    {
      assert OwnsOne(w, w.parked[i]) && OwnsOne(w, w.parked[k]);
    }
  }

  lemma AttachOwns(w: World, refuses: nat -> bool, made: bool, registered: bool)
    requires Owns(w)
    ensures Owns(Then(w, AttachNow(refuses, made, registered)))
  {
    var after := Then(w, AttachNow(refuses, made, registered));
    forall i | 0 <= i < |w.parked|
      ensures OwnsOne(after, w.parked[i])
    {
      assert OwnsOne(w, w.parked[i]);
    }
  }

  lemma KeepsOwns(w: World, after: World)
    requires Owns(w) && after.parked == w.parked && after.epoch == w.epoch
    requires after.lot.live == w.lot.live && after.lot.stale == w.lot.stale
    ensures Owns(after)
  {
    assert forall i :: 0 <= i < |w.parked| && OwnsOne(w, w.parked[i]) ==> OwnsOne(after, w.parked[i]);
  }

  /** Any run keeps the slots dealt out, each to one, and every Parked object alive the owner of its own. */
  lemma {:induction false} RunGood(w: World, script: seq<Command>)
    requires Good(w)
    ensures Good(After(w, script))
  {
    hide Good, Then;
    if script != [] {
      RunGood(w, script[..|script| - 1]);
      ThenGood(After(w, script[..|script| - 1]), script[|script| - 1]);
    }
  }

  /** What a Parked object reads through the lot. */
  ghost function Read(m: Moment, slot: nat): Value {
    if !m.attached || slot == 0 then Nil else At(m.slots, slot)
  }

  /** At every moment of a run each Parked object alive reads its own value, if it got a slot of the table that is
      attached, and nil otherwise. */
  lemma ReadsBack(w: World, script: seq<Command>, i: nat)
    requires Good(w) && i < |After(w, script).parked| && After(w, script).parked[i].alive
    ensures var now := After(w, script);
      Read(now.lot, now.parked[i].slot)
      == if now.lot.attached && now.parked[i].slot != 0 && now.parked[i].epoch == now.epoch then now.parked[i].value
         else Nil
  {
    RunGood(w, script);
    var now := After(w, script);
    assert OwnsOne(now, now.parked[i]);
    hide After, Apart, EverRefused;
    if now.lot.attached && now.parked[i].slot in now.lot.stale {
      assert now.parked[i].slot !in Elements(now.lot.free) && now.parked[i].slot !in Elements(now.lot.pending);
    }
  }

  /** At every moment of a run a slot given out belongs to nobody, and is nil when it is given out: the sweep in front
      has cleared it, unless the table refused to clear it then or earlier. A table that never refuses leaves it no way.
      */
  lemma IssuedClean(w: World, script: seq<Command>, value: Value)
    requires Good(w)
    ensures var m := After(w, script).lot;
      var slot, swept := Parking(m, value), AfterSweep(m);
      slot != 0 ==>
        && slot !in m.Out()
        && (At(swept.slots, slot) == Nil || (slot in swept.kept && EverRefused(swept)))
        && ((forall n :: !m.refuses(n)) ==> At(swept.slots, slot) == Nil)
  {
    RunGood(w, script);
    var m := After(w, script).lot;
    SweepLeaves(m);
    hide Sound, After, AfterSweep, AfterFill, Pick, At, Moment.Out;
    if m.attached && value != Nil {
      ParkMeans(m, value);
    }
  }

  predicate Attaches(c: Command) {
    c.AttachNow? && c.made && c.registered
  }

  /** Once a lot is detached its table is left alone, up to the next attach, whatever the run does in between. */
  lemma {:induction false} SilentOnceDetached(w: World, script: seq<Command>, i: nat)
    requires i <= |script| && !After(w, script[..i]).lot.attached
    requires forall k :: i <= k < |script| ==> !Attaches(script[k])
    ensures var was, now := After(w, script[..i]).lot, After(w, script).lot;
      !now.attached && now.slots == was.slots && now.writes == was.writes
  {
    if i == |script| {
      assert script[..i] == script;
    } else {
      var front := script[..|script| - 1];
      assert front[..i] == script[..i];
      SilentOnceDetached(w, front, i);
    }
  }

  /** A slot released while the lot is detached, or pending when it is, is never given out again, attached anew or not.
      */
  lemma {:induction false} LostForGood(w: World, script: seq<Command>, slot: nat, value: Value)
    requires Good(w) && slot in w.lot.lost
    ensures slot in After(w, script).lot.lost && Parking(After(w, script).lot, value) != slot
  {
    if script != [] {
      LostForGood(w, script[..|script| - 1], slot, value);
      LostOnce(After(w, script[..|script| - 1]), script[|script| - 1], slot);
    }
    IssuedClean(w, script, value);
    RunGood(w, script);
    hide After, AfterSweep, Parking;
  }

  lemma LostOnce(w: World, c: Command, slot: nat)
    requires slot in w.lot.lost
    ensures slot in Then(w, c).lot.lost
  {
  }

  lemma AfterOne(w: World, script: seq<Command>, c: Command)
    ensures After(w, []) == w && After(w, script + [c]) == Then(After(w, script), c)
  {
    assert (script + [c])[..|script|] == script;
  }

  /** An empty lot that has never been attached. */
  ghost function Fresh(): World {
    World(Moment(false, n => false, map[], 0, [], [], 1, map[], {}, {}, {}), [], 0)
  }

  /** A table that refuses the second write of its life: what was parked first is still in the slot when it is given out
      again. */
  lemma FoundInSlot()
    ensures var script := [AttachNow(n => n == 1, true, true), New(Thing(7)), Destroy(0)];
      var m := After(Fresh(), script).lot;
      Parking(m, Thing(8)) == 1 && At(AfterSweep(m).slots, 1) == Thing(7)
  {
    var c0, c1, c2 := AttachNow(n => n == 1, true, true), New(Thing(7)), Destroy(0);
    var w1 := Then(Fresh(), c0);
    var w2 := Then(w1, c1);
    AfterOne(Fresh(), [], c0);
    AfterOne(Fresh(), [c0], c1);
    AfterOne(Fresh(), [c0, c1], c2);
    assert [] + [c0] == [c0] && [c0] + [c1] == [c0, c1] && [c0, c1] + [c2] == [c0, c1, c2];
    RunGood(Fresh(), [c0, c1, c2]);
    ParkNew(w1.lot, Thing(7));
    hide After, AfterPark, AfterSweep, Parking;
    RefusedSweepKeeps(Then(w2, c2).lot, 1, Thing(8));
  }

  lemma ParkNew(m: Moment, value: Value)
    requires m.attached && value != Nil && m.free == m.pending == [] && !m.refuses(m.writes)
    ensures Parking(m, value) == m.next
    ensures var after := AfterPark(m, value);
      && after.attached && after.refuses == m.refuses && after.writes == m.writes + 1 && after.pending == []
      && after.slots == m.slots[m.next := value]
  {
  }

  // ---------------------------------------------------------------- the methods

  ghost function WorldOf(lot: Lot, table: Table, parked: seq<Parked>, epoch: nat): World
    reads lot, table
  {
    World(lot.Now(table), parked, epoch)
  }

  /** One command; an attach comes with a table of its own. */
  method Play(lot: Lot, table: Table, before: seq<Parked>, count: nat, command: Command)
    returns (last: Table, parked: seq<Parked>, epoch: nat)
    requires lot.Valid(table) && Owns(WorldOf(lot, table, before, count))
    modifies lot, table
    ensures lot.Valid(last) && Owns(WorldOf(lot, last, parked, epoch)) && (last == table || fresh(last))
    ensures WorldOf(lot, last, parked, epoch) == Then(old(WorldOf(lot, table, before, count)), command)
  {
    hide Sound, Owns, AfterPark, AfterRelease, AfterSweep, AfterDetach, AfterAttach, Parking;
    ghost var was := WorldOf(lot, table, before, count);
    ThenGood(was, command);
    last, parked, epoch := table, before, count;
    match command {
      case New(value) =>
        var slot := lot.Park(table, value);
        parked := parked + [Parked(slot, value, true, epoch)];
      case Destroy(k) =>
        if k < |parked| && parked[k].alive {
          OwnerReleases(was, k);
          lot.ReleaseLater(table, parked[k].slot);
          parked := parked[k := parked[k].(alive := false)];
        }
      case SweepNow => lot.Sweep(table);
      case DetachNow => lot.Detach(table);
      case AttachNow(refuses, made, registered) =>
        var t := new Table(refuses);
        var ok := lot.Attach(table, t, made, registered);
        if ok {
          last, epoch := t, epoch + 1;
        }
    }
  }

  lemma OwnerReleases(w: World, k: nat)
    requires Owns(w) && k < |w.parked| && w.parked[k].alive
    ensures var slot := w.parked[k].slot; slot == 0 || slot in w.lot.live || slot in w.lot.stale
  {
    assert OwnsOne(w, w.parked[k]);
  }

  /** Any run, from any moment: every moment of it is the one `After` gives, of which the laws above speak. */
  method Run(lot: Lot, table: Table, before: seq<Parked>, count: nat, script: seq<Command>)
    returns (last: Table, parked: seq<Parked>, epoch: nat)
    requires lot.Valid(table) && Owns(WorldOf(lot, table, before, count))
    modifies lot, table
    ensures lot.Valid(last) && Owns(WorldOf(lot, last, parked, epoch)) && (last == table || fresh(last))
    ensures WorldOf(lot, last, parked, epoch) == After(old(WorldOf(lot, table, before, count)), script)
    ensures forall i :: 0 <= i < |parked| && parked[i].alive ==>
      lot.Get(parked[i].slot)
      == if lot.table != null && parked[i].slot != 0 && parked[i].epoch == epoch then parked[i].value else Nil
  {
    hide Sound, Owns, Then;
    ghost var was := WorldOf(lot, table, before, count);
    last, parked, epoch := table, before, count;
    for i := 0 to |script|
      invariant lot.Valid(last) && Owns(WorldOf(lot, last, parked, epoch)) && (last == table || fresh(last))
      invariant WorldOf(lot, last, parked, epoch) == After(was, script[..i])
    {
      assert script[..i + 1][..i] == script[..i];
      last, parked, epoch := Play(lot, last, parked, epoch, script[i]);
    }
    assert script[..|script|] == script;
    forall i | 0 <= i < |parked| && parked[i].alive
      ensures lot.Get(parked[i].slot)
        == if lot.table != null && parked[i].slot != 0 && parked[i].epoch == epoch then parked[i].value else Nil
    {
      ReadsBack(was, script, i);
    }
  }
}
