/** ParkingLot: values kept alive in a table of the machine, one numbered slot each. */
module ParkingLot {

  datatype Value = Nil | Thing(id: int)

  function At(slots: map<nat, Value>, slot: nat): Value {
    if slot in slots then slots[slot] else Nil
  }

  // ---------------------------------------------------------------- a lot at one moment

  /**
   * A lot and the table it was last attached to. A write to the table may be refused, which changes nothing; `refuses`
   * tells of each write in turn whether it is. Of the slots handed out, those of Parked objects that still exist are
   * live if the object parked in this table and stale if it parked in an earlier one; those the lot will never hear of
   * again are lost. Kept are the free slots the table refused to clear.
   */
  datatype Moment = Moment(
    attached: bool, refuses: nat -> bool, slots: map<nat, Value>, writes: nat,
    free: seq<nat>, pending: seq<nat>, next: nat,
    live: map<nat, Value>, stale: set<nat>, lost: set<nat>, kept: set<nat>)
  {
    /** Slots that are neither free nor pending. */
    ghost function Out(): set<nat> {
      live.Keys + stale + lost
    }
  }

  ghost predicate Distinct(s: seq<nat>) {
    forall i, j :: 0 <= i < j < |s| ==> s[i] != s[j]
  }

  ghost function Elements(s: seq<nat>): set<nat> {
    set x | x in s
  }

  /** The slots from 1 below `next` are dealt out to the free ones, the pending ones and the others, each to one. */
  ghost predicate Apart(free: seq<nat>, pending: seq<nat>, out: set<nat>, next: nat) {
    && next >= 1 && Distinct(free) && Distinct(pending)
    && out !! Elements(free) && out !! Elements(pending) && Elements(free) !! Elements(pending)
    && (forall s :: 1 <= s < next <==> s in out || s in free || s in pending)
  }

  /** Live slots hold their values; no other holds any, but for pending and kept ones. */
  ghost predicate Filled(m: Moment) {
    && (forall s :: s in m.live ==> m.live[s] != Nil && At(m.slots, s) == m.live[s])
    && (forall s :: s !in m.live && s !in m.pending && s !in m.kept ==> At(m.slots, s) == Nil)
  }

  ghost predicate EverRefused(m: Moment) {
    exists n :: 0 <= n < m.writes && m.refuses(n)
  }

  /** What every operation keeps. */
  ghost predicate Sound(m: Moment) {
    && Apart(m.free, m.pending, m.Out(), m.next)
    && m.live.Keys !! m.stale && m.live.Keys !! m.lost && m.stale !! m.lost
    && (if m.attached then Filled(m) else m.pending == [])
    && (forall s :: s in m.kept ==> s in m.free)
    && (m.attached && m.kept != {} ==> EverRefused(m))
  }

  // ---------------------------------------------------------------- sweep

  /** The slots of `pending` whose write is refused, the first of them being write number `from`. */
  ghost function Refused(refuses: nat -> bool, from: nat, pending: seq<nat>): set<nat> {
    set i | 0 <= i < |pending| && refuses(from + i) :: pending[i]
  }

  /** The table after nil has been written to each of `pending`, as far as it takes it. */
  ghost function Swept(refuses: nat -> bool, slots: map<nat, Value>, from: nat, pending: seq<nat>): map<nat, Value> {
    if pending == [] then slots else
      var last := |pending| - 1;
      var swept := Swept(refuses, slots, from, pending[..last]);
      if refuses(from + last) then swept else swept - {pending[last]}
  }

  ghost function AfterSweep(m: Moment): Moment {
    if !m.attached then m.(pending := []) else
      m.(slots := Swept(m.refuses, m.slots, m.writes, m.pending), writes := m.writes + |m.pending|,
         free := m.free + m.pending, pending := [], kept := m.kept + Refused(m.refuses, m.writes, m.pending))
  }

  lemma SweptStep(refuses: nat -> bool, slots: map<nat, Value>, from: nat, pending: seq<nat>, i: nat)
    requires i < |pending|
    ensures var swept := Swept(refuses, slots, from, pending[..i]);
      Swept(refuses, slots, from, pending[..i + 1]) == if refuses(from + i) then swept else swept - {pending[i]}
  {
    assert pending[..i + 1][..i] == pending[..i];
  }

  lemma {:induction false} SweptEach(refuses: nat -> bool, slots: map<nat, Value>, from: nat, pending: seq<nat>)
    requires Distinct(pending)
    ensures var swept := Swept(refuses, slots, from, pending);
      && (forall s :: s !in pending ==> At(swept, s) == At(slots, s))
      && (forall i :: 0 <= i < |pending| ==>
           At(swept, pending[i]) == if refuses(from + i) then At(slots, pending[i]) else Nil)
  {
    if pending != [] {
      var front := pending[..|pending| - 1];
      SweptEach(refuses, slots, from, front);
      assert pending == front + [pending[|front|]];
      assert pending[|front|] !in front;
    }
  }

  lemma RefusedMembers(refuses: nat -> bool, from: nat, pending: seq<nat>)
    requires Distinct(pending)
    ensures forall i :: 0 <= i < |pending| ==> (pending[i] in Refused(refuses, from, pending) <==> refuses(from + i))
    ensures forall s :: s in Refused(refuses, from, pending) ==> s in pending
  {
  }

  /** Exactly the released slots whose write was not refused are cleared, and the rest is as it was. */
  lemma SweptAt(refuses: nat -> bool, slots: map<nat, Value>, from: nat, pending: seq<nat>)
    requires Distinct(pending)
    ensures forall s :: At(Swept(refuses, slots, from, pending), s)
                     == (if s in pending && s !in Refused(refuses, from, pending) then Nil else At(slots, s))
    ensures forall s :: s in Refused(refuses, from, pending) ==> s in pending
  {
    hide Refused, Swept;
    SweptEach(refuses, slots, from, pending);
    RefusedMembers(refuses, from, pending);
  }

  lemma RefusedSome(refuses: nat -> bool, from: nat, pending: seq<nat>) returns (n: nat)
    requires Refused(refuses, from, pending) != {}
    ensures from <= n < from + |pending| && refuses(n)
  {
    var s :| s in Refused(refuses, from, pending);
    var i :| 0 <= i < |pending| && refuses(from + i) && pending[i] == s;
    n := from + i;
  }

  lemma Joined(a: seq<nat>, b: seq<nat>)
    requires Distinct(a) && Distinct(b) && Elements(a) !! Elements(b)
    ensures Distinct(a + b)
  {
    forall i, j | 0 <= i < j < |a + b|
      ensures (a + b)[i] != (a + b)[j]
    {
      if i < |a| <= j {
        assert a[i] in Elements(a) && b[j - |a|] in Elements(b);
      }
    }
  }

  /** Pending slots may all become free. */
  lemma SweptApart(free: seq<nat>, pending: seq<nat>, out: set<nat>, next: nat)
    requires Apart(free, pending, out, next)
    ensures Apart(free + pending, [], out, next) && Distinct(pending)
    ensures forall s :: s in pending ==> s !in out && s !in free
  {
    Joined(free, pending);
    assert Elements(free + pending) == Elements(free) + Elements(pending);
    forall s | s in pending ensures s !in out && s !in free {
      assert s in Elements(pending) && (s in free ==> s in Elements(free));
    }
  }

  /** Every released slot is free afterwards and has lost its value, unless the table refused that very write. */
  lemma SweepMeans(m: Moment)
    requires Sound(m) && m.attached
    ensures var after := AfterSweep(m);
      && after.free == m.free + m.pending && after.pending == [] && after.writes == m.writes + |m.pending|
      && (forall s :: s !in m.pending ==> At(after.slots, s) == At(m.slots, s))
      && (forall i :: 0 <= i < |m.pending| ==>
           At(after.slots, m.pending[i]) == if m.refuses(m.writes + i) then At(m.slots, m.pending[i]) else Nil)
  {
    hide Swept, Refused;
    SweptEach(m.refuses, m.slots, m.writes, m.pending);
  }

  lemma SweepSound(m: Moment)
    requires Sound(m)
    ensures Sound(AfterSweep(m))
  {
    hide Swept, Refused, Apart, Filled, EverRefused;
    var after := AfterSweep(m);
    assert after.Out() == m.Out();
    if m.attached {
      SweptApart(m.free, m.pending, m.Out(), m.next);
      SweptAt(m.refuses, m.slots, m.writes, m.pending);
      SweepFilled(m);
      if after.kept != {} {
        SweepRefused(m);
      }
    }
  }

  lemma SweepFilled(m: Moment)
    requires Sound(m) && m.attached
    ensures Filled(AfterSweep(m))
  {
    hide Swept, Refused, Apart;
    SweptApart(m.free, m.pending, m.Out(), m.next);
    SweptAt(m.refuses, m.slots, m.writes, m.pending);
  }

  lemma SweepRefused(m: Moment)
    requires Sound(m) && m.attached && AfterSweep(m).kept != {}
    ensures EverRefused(AfterSweep(m))
  {
    hide Swept, Refused, Apart, Filled;
    var after := AfterSweep(m);
    if m.kept == {} {
      var n := RefusedSome(m.refuses, m.writes, m.pending);
      assert after.refuses(n);
    } else {
      var n :| 0 <= n < m.writes && m.refuses(n);
      assert after.refuses(n);
    }
  }

  // ---------------------------------------------------------------- park

  /** The slot freed last, or the next number. */
  function Pick(free: seq<nat>, next: nat): nat {
    if free == [] then next else free[|free| - 1]
  }

  ghost function Taken(m: Moment): Moment {
    if m.free == [] then m.(next := m.next + 1) else m.(free := m.free[..|m.free| - 1])
  }

  /** A swept lot, once the value has been written to the slot picked, or the write been refused and the slot put back.
      */
  ghost function AfterFill(m: Moment, value: Value): Moment {
    var slot, taken := Pick(m.free, m.next), Taken(m).(writes := m.writes + 1);
    if m.refuses(m.writes) then taken.(free := taken.free + [slot])
    else taken.(slots := m.slots[slot := value], live := m.live[slot := value], kept := m.kept - {slot})
  }

  ghost function AfterPark(m: Moment, value: Value): Moment {
    if !m.attached || value == Nil then m else AfterFill(AfterSweep(m), value)
  }

  /** The slot a park answers, 0 for none. */
  ghost function Parking(m: Moment, value: Value): nat {
    if !m.attached || value == Nil then 0 else
      var swept := AfterSweep(m);
      if m.refuses(swept.writes) then 0 else Pick(swept.free, swept.next)
  }

  lemma PickApart(m: Moment)
    requires Sound(m) && m.pending == []
    ensures var slot, taken := Pick(m.free, m.next), Taken(m);
      && 1 <= slot < taken.next && slot !in m.Out()
      && Apart(taken.free, [], m.Out() + {slot}, taken.next) && Apart(taken.free + [slot], [], m.Out(), taken.next)
  {
    var slot, taken := Pick(m.free, m.next), Taken(m);
    if m.free != [] {
      assert m.free == taken.free + [slot];
      assert slot in Elements(m.free) && Elements(m.free) == Elements(taken.free) + {slot};
    } else {
      assert slot !in m.Out();
    }
    assert Elements(taken.free + [slot]) == Elements(taken.free) + {slot};
  }

  lemma FillSound(m: Moment, value: Value)
    requires Sound(m) && m.attached && m.pending == [] && value != Nil
    ensures Sound(AfterFill(m, value))
  {
    var slot, taken, after := Pick(m.free, m.next), Taken(m), AfterFill(m, value);
    PickApart(m);
    RefusedBefore(m, after);
    FreeBut(m);
    FillFilled(m, value);
    hide Apart, EverRefused, Filled, Taken, Pick;
    if m.refuses(m.writes) {
      assert after.Out() == m.Out();
    } else {
      assert after.Out() == m.Out() + {slot};
    }
  }

  /** Taking a slot leaves the other free ones, and nothing else changes. */
  lemma FreeBut(m: Moment)
    ensures var slot, taken := Pick(m.free, m.next), Taken(m);
      && taken == m.(free := taken.free, next := taken.next)
      && (forall s :: s in m.free ==> s in taken.free || s == slot)
  {
  }

  lemma FillFilled(m: Moment, value: Value)
    requires Sound(m) && m.attached && m.pending == [] && value != Nil
    ensures Filled(AfterFill(m, value))
  {
    PickApart(m);
    FreeBut(m);
    hide Apart, EverRefused, Taken, Pick;
  }

  lemma RefusedBefore(m: Moment, after: Moment)
    requires m.writes <= after.writes && m.refuses == after.refuses
    ensures EverRefused(m) ==> EverRefused(after)
  {
    if EverRefused(m) {
      var n :| 0 <= n < m.writes && m.refuses(n);
      assert after.refuses(n);
    }
  }

  lemma ParkSound(m: Moment, value: Value)
    requires Sound(m)
    ensures Sound(AfterPark(m, value))
  {
    hide Sound, AfterSweep, AfterFill;
    if m.attached && value != Nil {
      SweepSound(m);
      assert AfterSweep(m).attached && AfterSweep(m).pending == [] by {
        SweepLeaves(m);
      }
      FillSound(AfterSweep(m), value);
    }
  }

  lemma SweepLeaves(m: Moment)
    ensures AfterSweep(m).attached == m.attached && AfterSweep(m).pending == [] && AfterSweep(m).refuses == m.refuses
    ensures AfterSweep(m).live == m.live && AfterSweep(m).stale == m.stale && AfterSweep(m).Out() == m.Out()
    ensures m.attached ==> AfterSweep(m).writes == m.writes + |m.pending|
  {
  }

  /**
   * A slot given out belongs to nobody, and the sweep in front has left nil in it, unless it is one of the kept ones.
   * It holds the value then. A refused write gives nothing out and puts the slot back.
   */
  lemma ParkMeans(m: Moment, value: Value)
    requires Sound(m) && m.attached && value != Nil
    ensures var slot, swept, after := Parking(m, value), AfterSweep(m), AfterPark(m, value);
      && after.pending == [] && after.writes == m.writes + |m.pending| + 1 && after.stale == m.stale
      && (slot == 0 <==> m.refuses(m.writes + |m.pending|))
      && (slot == 0 ==> after.live == m.live && after.slots == swept.slots)
      && (slot != 0 ==>
           && slot !in m.Out() && after.live == m.live[slot := value]
           && (At(swept.slots, slot) == Nil || (slot in swept.kept && EverRefused(swept)))
           && At(after.slots, slot) == value && forall s :: s != slot ==> At(after.slots, s) == At(swept.slots, s))
  {
    SweepSound(m);
    SweepLeaves(m);
    FillMeans(AfterSweep(m), value);
    hide AfterSweep, AfterFill, Sound, EverRefused, Pick, At, Moment.Out;
  }

  lemma FillMeans(m: Moment, value: Value)
    requires Sound(m) && m.attached && m.pending == [] && value != Nil
    ensures var slot, after := Pick(m.free, m.next), AfterFill(m, value);
      && slot > 0 && after.pending == [] && after.writes == m.writes + 1 && after.stale == m.stale
      && (m.refuses(m.writes) ==> after.live == m.live && after.slots == m.slots)
      && (!m.refuses(m.writes) ==>
           && slot !in m.Out() && after.live == m.live[slot := value]
           && (At(m.slots, slot) == Nil || (slot in m.kept && EverRefused(m)))
           && At(after.slots, slot) == value && forall s :: s != slot ==> At(after.slots, s) == At(m.slots, s))
  {
    PickApart(m);
    FreeBut(m);
    hide Apart, EverRefused, Taken, Pick;
  }

  /** A sweep whose write is refused: the slot is free with its value still in it, and the next park gives it out so. */
  lemma RefusedSweepKeeps(m: Moment, slot: nat, value: Value)
    requires Sound(m) && m.attached && m.pending == [slot] && m.refuses(m.writes) && value != Nil
    ensures var swept := AfterSweep(m);
      slot in swept.free && slot in swept.kept && At(swept.slots, slot) == At(m.slots, slot)
    ensures Parking(m, value) == if m.refuses(m.writes + 1) then 0 else slot
  {
    SweepMeans(m);
    RefusedMembers(m.refuses, m.writes, m.pending);
    assert m.pending[0] == slot && (m.free + [slot])[|m.free|] == slot;
    hide Swept, Refused;
  }

  // ---------------------------------------------------------------- release, detach, attach

  /** A released slot is queued, or lost when there is no machine. */
  ghost function AfterRelease(m: Moment, slot: nat): Moment {
    if slot == 0 then m else
      var gone := m.(live := m.live - {slot}, stale := m.stale - {slot});
      if m.attached then gone.(pending := m.pending + [slot]) else gone.(lost := m.lost + {slot})
  }

  lemma ReleaseSound(m: Moment, slot: nat)
    requires Sound(m) && (slot == 0 || slot in m.live || slot in m.stale)
    ensures Sound(AfterRelease(m, slot))
  {
    hide EverRefused, Apart;
    if slot != 0 {
      var after := AfterRelease(m, slot);
      RefusedBefore(m, after);
      if m.attached {
        assert after.Out() == m.Out() - {slot};
        QueuedApart(m.free, m.pending, m.Out(), m.next, slot);
      } else {
        assert after.Out() == m.Out();
      }
    }
  }

  lemma QueuedApart(free: seq<nat>, pending: seq<nat>, out: set<nat>, next: nat, slot: nat)
    requires Apart(free, pending, out, next) && slot in out
    ensures Apart(free, pending + [slot], out - {slot}, next)
  {
    assert slot !in Elements(free) && slot !in Elements(pending);
    assert Elements(pending + [slot]) == Elements(pending) + {slot};
  }

  /** Slots still pending are never handed to the free ones. */
  ghost function AfterDetach(m: Moment): Moment {
    m.(attached := false, pending := [], lost := m.lost + Elements(m.pending))
  }

  lemma DetachSound(m: Moment)
    requires Sound(m)
    ensures Sound(AfterDetach(m))
  {
    hide EverRefused, Filled;
    assert AfterDetach(m).Out() == m.Out() + Elements(m.pending);
  }

  /** A fresh table. Whoever parked in an earlier one keeps the slot, which holds nothing here. */
  ghost function AfterAttach(m: Moment, refuses: nat -> bool, made: bool, registered: bool): Moment {
    if !made || !registered then m else
      m.(attached := true, refuses := refuses, slots := map[], writes := 0,
         live := map[], stale := m.stale + m.live.Keys, kept := {})
  }

  lemma AttachSound(m: Moment, refuses: nat -> bool, made: bool, registered: bool)
    requires Sound(m)
    ensures Sound(AfterAttach(m, refuses, made, registered))
  {
    hide EverRefused, Apart;
    assert made && registered ==> AfterAttach(m, refuses, made, registered).Out() == m.Out();
  }

  // ---------------------------------------------------------------- the machine and the lot

  /** The machine's registry table. */
  class Table {
    const refuses: nat -> bool
    var slots: map<nat, Value>
    var writes: nat

    constructor (refuses: nat -> bool)
      ensures slots == map[] && writes == 0 && this.refuses == refuses
    {
      slots, writes := map[], 0;
      this.refuses := refuses;
    }

    method Set(slot: nat, value: Value) returns (ok: bool)
      modifies this
      ensures ok == !refuses(old(writes)) && writes == old(writes) + 1
      ensures slots == if !ok then old(slots)
                       else if value == Nil then old(slots) - {slot}
                       else old(slots)[slot := value]
    {
      ok := !refuses(writes);
      writes := writes + 1;
      if ok {
        slots := if value == Nil then slots - {slot} else slots[slot := value];
      }
    }

    function Get(slot: nat): Value
      reads this
    {
      At(slots, slot)
    }
  }

  class Lot {
    /** Null before attach and after detach. */
    var table: Table?
    var free: seq<nat>
    var pending: seq<nat>
    var next: nat
    ghost var live: map<nat, Value>
    ghost var stale: set<nat>
    ghost var lost: set<nat>
    ghost var kept: set<nat>

    /** The lot beside `t`, the table it was last attached to. */
    ghost function Now(t: Table): Moment
      reads this, t
    {
      Moment(table != null, t.refuses, t.slots, t.writes, free, pending, next, live, stale, lost, kept)
    }

    ghost predicate Valid(t: Table)
      reads this, t
    {
      (table == null || table == t) && Sound(Now(t))
    }

    constructor (ghost t: Table)
      ensures Valid(t) && Now(t) == Moment(false, t.refuses, t.slots, t.writes, [], [], 1, map[], {}, {}, {})
    {
      table, free, pending, next := null, [], [], 1;
      live, stale, lost, kept := map[], {}, {}, {};
    }

    /** Attaches to a table made for it; fails when the machine cannot make or register one. */
    method Attach(ghost last: Table, t: Table, made: bool, registered: bool) returns (ok: bool)
      requires Valid(last) && t.slots == map[] && t.writes == 0
      modifies this
      ensures ok == (made && registered)
      ensures var now := if ok then t else last;
        Valid(now) && Now(now) == AfterAttach(old(Now(last)), t.refuses, made, registered)
    {
      hide Sound;
      AttachSound(Now(last), t.refuses, made, registered);
      if !made {
        return false;
      }
      if !registered {
        return false;
      }
      table, live, stale, kept := t, map[], stale + live.Keys, {};
      ok := true;
    }

    /** Nothing is read or written through the lot from here on. */
    method Detach(ghost t: Table)
      requires Valid(t)
      modifies this
      ensures Valid(t) && Now(t) == AfterDetach(old(Now(t)))
    {
      hide Sound;
      DetachSound(Now(t));
      lost := lost + Elements(pending);
      table := null;
      pending := [];
    }

    /** Each released slot loses its value, unless the table refuses that write, and becomes free either way. */
    method Sweep(ghost t: Table)
      requires Valid(t)
      modifies this, t
      ensures Valid(t) && Now(t) == AfterSweep(old(Now(t)))
      ensures table != null ==>
        && free == old(free) + old(pending)
        && (forall s :: s !in old(pending) ==> t.Get(s) == old(t.Get(s)))
        && (forall i :: 0 <= i < |old(pending)| ==>
             t.Get(old(pending)[i]) == if t.refuses(old(t.writes) + i) then old(t.Get(pending[i])) else Nil)
    {
      hide Sound, Refused, Swept, At;
      SweepSound(Now(t));
      if table != null {
        SweepMeans(Now(t));
      }
      if table == null {
        pending := [];
        return;
      }
      kept := kept + Refused(table.refuses, table.writes, pending);
      FreePending(table);
      pending := [];
    }

    /** The loop of sweep. */
    method FreePending(t: Table)
      modifies this`free, t
      ensures free == old(free) + pending && t.writes == old(t.writes) + |pending|
      ensures t.slots == Swept(t.refuses, old(t.slots), old(t.writes), pending)
    {
      ghost var slots, from := t.slots, t.writes;
      assert pending[..0] == [] && Swept(t.refuses, slots, from, []) == slots;
      hide Swept;
      for i := 0 to |pending|
        invariant free == old(free) + pending[..i] && t.writes == from + i
        invariant t.slots == Swept(t.refuses, slots, from, pending[..i])
      {
        SweptStep(t.refuses, slots, from, pending, i);
        var _ := t.Set(pending[i], Nil);
        free := free + [pending[i]];
      }
      assert pending[..|pending|] == pending;
    }

    /** Parks a value in a slot, or answers 0 when there is no machine, no value, or the table refuses. */
    method Park(ghost t: Table, value: Value) returns (slot: nat)
      requires Valid(t)
      modifies this, t
      ensures slot == Parking(old(Now(t)), value)
      ensures Valid(t) && Now(t) == AfterPark(old(Now(t)), value)
      ensures slot != 0 ==>
        slot !in old(live) && slot !in old(stale) && live == old(live)[slot := value] && t.Get(slot) == value
      ensures slot == 0 ==> live == old(live)
    {
      hide Sound, AfterSweep, AfterFill, At, EverRefused;
      ParkSound(Now(t), value);
      SweepLeaves(Now(t));
      if table != null && value != Nil {
        ParkMeans(Now(t), value);
      }
      if table == null || value == Nil {
        return 0;
      }
      Sweep(t);
      slot := Fill(value);
    }

    /** The part of park behind the sweep. */
    method Fill(value: Value) returns (slot: nat)
      requires table != null && value != Nil
      modifies this, table
      ensures table == old(table) && Now(table) == AfterFill(old(Now(table)), value)
      ensures slot == if old(table.refuses(table.writes)) then 0 else Pick(old(free), old(next))
    {
      ghost var m := Now(table);
      slot := TakeSlot();
      assert Now(table) == Taken(m);
      hide Taken, Pick;
      var ok := table.Set(slot, value);
      if !ok {
        free := free + [slot];
        return 0;
      }
      live, kept := live[slot := value], kept - {slot};
    }

    /** The slot freed last, or a new one. */
    method TakeSlot() returns (slot: nat)
      modifies this`free, this`next
      ensures slot == Pick(old(free), old(next))
      ensures if old(free) == [] then free == [] && next == old(next) + 1
              else free + [slot] == old(free) && next == old(next)
    {
      if free != [] {
        slot := free[|free| - 1];
        free := free[..|free| - 1];
      } else {
        slot := next;
        next := next + 1;
      }
    }

    function Get(slot: nat): Value
      reads this, table
    {
      if table == null || slot == 0 then Nil else table.Get(slot)
    }

    /** A release only queues the slot. */
    method ReleaseLater(ghost t: Table, slot: nat)
      requires Valid(t) && (slot == 0 || slot in live || slot in stale)
      modifies this
      ensures Valid(t) && Now(t) == AfterRelease(old(Now(t)), slot)
    {
      hide Sound;
      ReleaseSound(Now(t), slot);
      if slot != 0 {
        live, stale := live - {slot}, stale - {slot};
        if table == null {
          lost := lost + {slot};
        }
      }
      if table == null || slot == 0 {
        return;
      }
      pending := pending + [slot];
    }
  }
}
