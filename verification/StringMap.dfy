/** StringMap: names to enum constants through an open-addressing table, and back through a plain array. */
module StringMap {
  import opened Bytes
  import opened Options

  const WORD: int := 0x1_0000_0000

  /** A character of a C string: a signed char other than the terminator. */
  type Char = c: int | -128 <= c < 128 && c != 0 witness 1

  type Key = seq<Char>

  /** An enum constant, held in an int. */
  type Value = v: int | -0x8000_0000 <= v < 0x8000_0000

  datatype Entry = Entry(key: Key, value: Value)

  datatype Record = Record(key: Key, value: Value, isSet: bool)

  /** The cast of an enum constant to unsigned int. */
  function Index(v: Value): (i: nat) {
    v % WORD
  }

  function Mixed(hash: int, c: int): (h: int)
    ensures 0 <= h < WORD
  {
    (hash * 33 + c) % WORD
  }

  function Djb2From(hash: int, key: Key): (h: int)
    requires 0 <= hash < WORD
    ensures 0 <= h < WORD
    decreases |key|
  {
    if key == [] then hash else Djb2From(Mixed(hash, key[0]), key[1..])
  }

  function Djb2(key: Key): (h: int)
    ensures 0 <= h < WORD
  {
    Djb2From(5381, key)
  }

  /** The slot tried `i`-th: the sum wraps in 32 bits before the remainder is taken. */
  function Probe(hash: int, i: nat, max: nat): (slot: nat)
    requires max > 0
    ensures slot < max
  {
    (hash + i) % WORD % max
  }

  // ---------------------------------------------------------------- the probe reaches enough slots

  lemma SameRemainder(a: int, b: int, m: int)
    requires m > 0 && a % m == b % m && 0 <= a - b < m
    ensures a == b
  {
    assert a == a / m * m + a % m && b == b / m * m + b % m;
    assert (a / m - b / m) * m == a - b;
    ProductGap(a / m - b / m, m);
  }

  /** Where a stretch of `SIZE` probes starts that the wrap of the sum does not cut. */
  function Unbroken(hash: int, size: nat): nat
    requires 0 <= hash < WORD
  {
    var wrap := WORD - hash;
    if wrap >= size then 0 else wrap
  }

  /** Within that stretch no slot is tried twice. */
  lemma ProbesDistinct(hash: int, size: nat, i: nat, j: nat)
    requires 0 <= hash < WORD && 0 < size && 2 * size <= WORD
    requires Unbroken(hash, size) <= i <= j < Unbroken(hash, size) + size
    requires Probe(hash, i, 2 * size) == Probe(hash, j, 2 * size)
    ensures i == j
    ensures j < 2 * size
  {
    WrapsOnce(hash, size, i);
    WrapsOnce(hash, size, j);
    SameRemainder((hash + j) % WORD, (hash + i) % WORD, 2 * size);
  }

  lemma WrapsOnce(hash: int, size: nat, i: nat)
    requires 0 <= hash < WORD && 2 * size <= WORD
    requires Unbroken(hash, size) <= i < Unbroken(hash, size) + size
    ensures (hash + i) % WORD == if WORD - hash >= size then hash + i else hash + i - WORD
    ensures i < 2 * size
  {
  }

  lemma {:induction false} Pigeonhole(f: seq<int>, m: nat)
    requires |f| > m > 0 && forall i :: 0 <= i < |f| ==> 0 <= f[i] < m
    ensures exists i, j :: 0 <= i < j < |f| && f[i] == f[j]
    decreases m
  {
    var last := f[|f| - 1];
    if m == 1 {
      assert f[0] == f[1];
    } else if i :| 0 <= i < |f| - 1 && f[i] == last {
      assert f[i] == f[|f| - 1];
    } else {
      var g := seq(|f| - 1, i requires 0 <= i < |f| - 1 => if f[i] == m - 1 then last else f[i]);
      Pigeonhole(g, m - 1);
      var i, j :| 0 <= i < j < |g| && g[i] == g[j];
      assert f[i] == f[j];
    }
  }

  // ---------------------------------------------------------------- what the table means

  /** The value of the first entry with the key. */
  function FirstValue(log: seq<Entry>, key: Key): Option<Value> {
    if log == [] then None else if log[0].key == key then Some(log[0].value) else FirstValue(log[1..], key)
  }

  /** The key of the last entry whose value has the index. */
  function LastKey(calls: seq<Entry>, index: nat): Option<Key> {
    if calls == [] then None
    else
      var e := calls[|calls| - 1];
      if Index(e.value) == index then Some(e.key) else LastKey(calls[..|calls| - 1], index)
  }

  lemma {:induction false} FirstValueAt(log: seq<Entry>, key: Key, j: nat)
    requires j <= |log| && forall i :: 0 <= i < j ==> log[i].key != key
    ensures FirstValue(log, key) == FirstValue(log[j..], key)
    ensures j < |log| && log[j].key == key ==> FirstValue(log, key) == Some(log[j].value)
    ensures j == |log| ==> FirstValue(log, key) == None
  {
    if j == 0 {
      assert log[0..] == log;
    } else {
      FirstValueAt(log[1..], key, j - 1);
      assert log[1..][j - 1..] == log[j..];
    }
  }

  lemma {:induction false} LastKeyAt(calls: seq<Entry>, index: nat, j: nat)
    requires j < |calls| && Index(calls[j].value) == index
    requires forall i :: j < i < |calls| ==> Index(calls[i].value) != index
    ensures LastKey(calls, index) == Some(calls[j].key)
  {
    if j < |calls| - 1 {
      LastKeyAt(calls[..|calls| - 1], index, j);
    }
  }

  lemma {:induction false} LastKeyFound(calls: seq<Entry>, index: nat) returns (j: nat)
    requires LastKey(calls, index).Some?
    ensures j < |calls| && Index(calls[j].value) == index && LastKey(calls, index) == Some(calls[j].key)
  {
    if Index(calls[|calls| - 1].value) == index {
      j := |calls| - 1;
    } else {
      j := LastKeyFound(calls[..|calls| - 1], index);
    }
  }

  lemma {:induction false} FirstValueFound(log: seq<Entry>, key: Key) returns (j: nat)
    requires FirstValue(log, key).Some?
    ensures j < |log| && log[j].key == key && FirstValue(log, key) == Some(log[j].value)
  {
    if log[0].key == key {
      j := 0;
    } else {
      j := FirstValueFound(log[1..], key);
      j := j + 1;
    }
  }

  ghost predicate DistinctKeys(entries: seq<Entry>) {
    forall i, j :: 0 <= i < j < |entries| ==> entries[i].key != entries[j].key
  }

  ghost predicate DistinctValues(entries: seq<Entry>) {
    forall i, j :: 0 <= i < j < |entries| ==> entries[i].value != entries[j].value
  }

  /** With distinct keys and distinct values the two lookups are inverse to each other. */
  lemma Inverse(entries: seq<Entry>, key: Key, v: Value)
    requires DistinctKeys(entries) && DistinctValues(entries)
    ensures FirstValue(entries, key) == Some(v) <==> LastKey(entries, Index(v)) == Some(key)
  {
    hide FirstValue, LastKey;
    if FirstValue(entries, key) == Some(v) {
      var j := FirstValueFound(entries, key);
      LastKeyAt(entries, Index(v), j);
    }
    if LastKey(entries, Index(v)) == Some(key) {
      var j := LastKeyFound(entries, Index(v));
      FirstValueAt(entries, key, j);
    }
  }

  // ---------------------------------------------------------------- the table

  /** Who fills a slot: the number of an entry, or less than nothing for an empty slot. */
  ghost predicate Filled(records: seq<Record>, log: seq<Entry>, owner: seq<int>, tries: seq<nat>) {
    && |owner| == |records| > 0 && |tries| == |log|
    && (forall s :: 0 <= s < |records| ==> owner[s] < |log| && (records[s].isSet <==> owner[s] >= 0))
    && (forall s :: 0 <= s < |records| && owner[s] >= 0 ==>
          && log[owner[s]] == Entry(records[s].key, records[s].value)
          && s == Slot(log, tries, owner[s], |records|))
    && (forall j :: 0 <= j < |log| ==> Placed(log, owner, tries, j, |records|))
  }

  ghost function Slot(log: seq<Entry>, tries: seq<nat>, j: nat, max: nat): nat
    requires j < |log| == |tries| && max > 0
  {
    Probe(Djb2(log[j].key), tries[j], max)
  }

  /** Entry `j` sits where its probe ended: the slots tried before belong to older entries. */
  ghost predicate Placed(log: seq<Entry>, owner: seq<int>, tries: seq<nat>, j: nat, max: nat)
    requires j < |log| == |tries| && |owner| == max > 0
  {
    && tries[j] < max && owner[Slot(log, tries, j, max)] == j
    && Before(owner, Djb2(log[j].key), tries[j], j)
  }

  ghost predicate Before(owner: seq<int>, hash: int, n: nat, j: int)
    requires |owner| > 0
  {
    forall i :: 0 <= i < n ==> 0 <= owner[Probe(hash, i, |owner|)] < j
  }

  /** As long as fewer than SIZE entries are in, one of the probes of any hash finds an empty slot. */
  lemma FreeSlot(records: seq<Record>, log: seq<Entry>, owner: seq<int>, tries: seq<nat>, hash: int, size: nat)
    requires Filled(records, log, owner, tries) && |records| == 2 * size <= WORD && |log| < size
    requires 0 <= hash < WORD
    ensures exists i :: 0 <= i < 2 * size && !records[Probe(hash, i, 2 * size)].isSet
  {
    var k := Unowned(records, log, owner, tries, hash, size);
    ProbesDistinct(hash, size, k, k);
    SetIsOwned(records, log, owner, tries, Probe(hash, k, 2 * size));
    hide Filled, Probe, Unbroken;
    assert !records[Probe(hash, k, 2 * size)].isSet;
  }

  lemma SetIsOwned(records: seq<Record>, log: seq<Entry>, owner: seq<int>, tries: seq<nat>, s: nat)
    requires Filled(records, log, owner, tries) && s < |records|
    ensures records[s].isSet <==> owner[s] >= 0
  {
  }

  /** In the stretch of SIZE probes that meets no slot twice there is one nobody owns. */
  lemma Unowned(records: seq<Record>, log: seq<Entry>, owner: seq<int>, tries: seq<nat>, hash: int, size: nat)
    returns (k: nat)
    requires Filled(records, log, owner, tries) && |records| == 2 * size <= WORD && |log| < size
    requires 0 <= hash < WORD
    ensures Unbroken(hash, size) <= k < Unbroken(hash, size) + size && owner[Probe(hash, k, 2 * size)] < 0
  {
    var lo := Unbroken(hash, size);
    var f := Owners(owner, hash, lo, size);
    if forall k :: 0 <= k < size ==> f[k] >= 0 {
      AllOwned(records, log, owner, tries, hash, size);
      assert false;
    }
    var i :| 0 <= i < size && f[i] < 0;
    k := lo + i;
  }

  lemma AllOwned(records: seq<Record>, log: seq<Entry>, owner: seq<int>, tries: seq<nat>, hash: int, size: nat)
    requires Filled(records, log, owner, tries) && |records| == 2 * size <= WORD
    requires 0 <= hash < WORD
    requires forall k :: 0 <= k < size ==> Owners(owner, hash, Unbroken(hash, size), size)[k] >= 0
    ensures size <= |log|
  {
    var max, lo := 2 * size, Unbroken(hash, size);
    var f := Owners(owner, hash, lo, size);
    if |log| < size {
      OwnersInRange(records, log, owner, tries, hash, lo, size);
      Pigeonhole(f, |log|);
      var i, j :| 0 <= i < j < |f| && f[i] == f[j];
      SameOwner(records, log, owner, tries, Probe(hash, lo + i, max), Probe(hash, lo + j, max));
      ProbesDistinct(hash, size, lo + i, lo + j);
      assert false;
    }
  }

  /** Who fills the slots of a stretch of probes. */
  ghost function Owners(owner: seq<int>, hash: int, lo: nat, n: nat): (f: seq<int>)
    requires |owner| > 0
    ensures |f| == n
  {
    seq(n, k requires 0 <= k < n => owner[Probe(hash, lo + k, |owner|)])
  }

  lemma OwnersInRange(records: seq<Record>, log: seq<Entry>, owner: seq<int>, tries: seq<nat>, hash: int, lo: nat,
                      n: nat)
    requires Filled(records, log, owner, tries) && n > 0
    requires forall k :: 0 <= k < n ==> Owners(owner, hash, lo, n)[k] >= 0
    ensures forall k :: 0 <= k < n ==> Owners(owner, hash, lo, n)[k] < |log|
    ensures |log| > 0
  {
    var f := Owners(owner, hash, lo, n);
    forall k | 0 <= k < n ensures f[k] < |log| {
      var s := Probe(hash, lo + k, |owner|);
      assert owner[s] < |log|;
    }
    assert 0 <= f[0] < |log|;
  }

  lemma SameOwner(records: seq<Record>, log: seq<Entry>, owner: seq<int>, tries: seq<nat>, s: nat, t: nat)
    requires Filled(records, log, owner, tries) && s < |records| && t < |records|
    requires owner[s] == owner[t] >= 0
    ensures s == t
  {
  }

  /** The slot the probe passed is taken by another key. */
  ghost predicate MissedAt(records: seq<Record>, key: Key, i: nat)
    requires |records| > 0
  {
    var r := records[Probe(Djb2(key), i, |records|)];
    r.isSet && r.key != key
  }

  /** While a lookup has only met other keys, every entry with its key lies further along the probe. */
  lemma EntryAhead(records: seq<Record>, log: seq<Entry>, owner: seq<int>, tries: seq<nat>, key: Key, n: nat, j: nat)
    requires Filled(records, log, owner, tries) && j < |log| && log[j].key == key
    requires forall i :: 0 <= i < n ==> MissedAt(records, key, i)
    ensures n <= tries[j] < |records|
    ensures Slot(log, tries, j, |records|) == Probe(Djb2(key), tries[j], |records|)
    ensures owner[Probe(Djb2(key), tries[j], |records|)] == j
    ensures n < tries[j] ==> 0 <= owner[Probe(Djb2(key), n, |records|)] < j
  {
    assert Placed(log, owner, tries, j, |records|);
    assert !MissedAt(records, key, tries[j]);
  }

  /** The first slot with the key holds the oldest entry with it. */
  lemma FoundFirst(records: seq<Record>, log: seq<Entry>, owner: seq<int>, tries: seq<nat>, key: Key, n: nat)
    requires Filled(records, log, owner, tries) && n < |records|
    requires forall i :: 0 <= i < n ==> MissedAt(records, key, i)
    requires var r := records[Probe(Djb2(key), n, |records|)]; r.isSet && r.key == key
    ensures FirstValue(log, key) == Some(records[Probe(Djb2(key), n, |records|)].value)
  {
    var j := owner[Probe(Djb2(key), n, |records|)];
    forall e | 0 <= e < j ensures log[e].key != key {
      if log[e].key == key {
        EntryAhead(records, log, owner, tries, key, n, e);
      }
    }
    FirstValueAt(log, key, j);
  }

  /** An empty slot, or the end of the probe, means that no entry has the key. */
  lemma NoneFound(records: seq<Record>, log: seq<Entry>, owner: seq<int>, tries: seq<nat>, key: Key, n: nat)
    requires Filled(records, log, owner, tries) && n <= |records|
    requires forall i :: 0 <= i < n ==> MissedAt(records, key, i)
    requires n < |records| ==> !records[Probe(Djb2(key), n, |records|)].isSet
    ensures FirstValue(log, key) == None
  {
    forall e | 0 <= e < |log| ensures log[e].key != key {
      if log[e].key == key {
        EntryAhead(records, log, owner, tries, key, n, e);
      }
    }
    FirstValueAt(log, key, |log|);
  }

  /** The table after a new entry takes the first empty slot of its probe. */
  lemma Inserted(records: seq<Record>, log: seq<Entry>, owner: seq<int>, tries: seq<nat>, e: Entry, n: nat)
    requires Filled(records, log, owner, tries) && n < |records|
    requires forall i :: 0 <= i < n ==> records[Probe(Djb2(e.key), i, |records|)].isSet
    requires !records[Probe(Djb2(e.key), n, |records|)].isSet
    ensures var s := Probe(Djb2(e.key), n, |records|);
            Filled(records[s := Record(e.key, e.value, true)], log + [e], owner[s := |log|], tries + [n])
  {
    var max, s := |records|, Probe(Djb2(e.key), n, |records|);
    var records', log', owner', tries' := records[s := Record(e.key, e.value, true)], log + [e], owner[s := |log|],
                                          tries + [n];
    forall j | 0 <= j < |log'| ensures Placed(log', owner', tries', j, max) {
      if j < |log| {
        assert Placed(log, owner, tries, j, max);
        assert Slot(log', tries', j, max) == Slot(log, tries, j, max);
        StillBefore(owner, Djb2(log[j].key), tries[j], j, s, |log|);
      }
    }
    forall t | 0 <= t < max && owner'[t] >= 0
      ensures log'[owner'[t]] == Entry(records'[t].key, records'[t].value) && t == Slot(log', tries', owner'[t], max)
    {
    }
  }

  lemma Sizes(records: seq<Record>, log: seq<Entry>, owner: seq<int>, tries: seq<nat>)
    requires Filled(records, log, owner, tries)
    ensures |owner| == |records| > 0 && |tries| == |log|
  {
  }

  lemma StillBefore(owner: seq<int>, hash: int, n: nat, j: int, s: nat, e: int)
    requires s < |owner| && owner[s] < 0 && Before(owner, hash, n, j)
    ensures Before(owner[s := e], hash, n, j)
  {
  }

  // ---------------------------------------------------------------- the class

  class StringMap {
    const size: nat
    const records: array<Record>
    const reverse: array<Option<Key>>

    /** Every call of Add so far, and those of them that found a slot. */
    ghost var calls: seq<Entry>
    ghost var log: seq<Entry>
    ghost var owner: seq<int>
    ghost var tries: seq<nat>

    ghost predicate Valid()
      reads this, records, reverse
    {
      && 0 < 2 * size < WORD && records.Length == 2 * size && reverse.Length == size
      && Filled(records[..], log, owner, tries)
      && (forall i :: 0 <= i < size ==> reverse[i] == LastKey(calls, i))
      && |log| <= |calls| && (|calls| <= size ==> log == calls)
    }

    /** The table of a list of entries; a list no longer than SIZE is stored in full. */
    constructor (entries: seq<Entry>, size: nat)
      requires 0 < 2 * size < WORD
      ensures Valid() && fresh(records) && fresh(reverse)
      ensures this.size == size && calls == entries
    {
      this.size := size;
      records := new Record[2 * size](_ => Record([], 0, false));
      reverse := new Option<Key>[size](_ => None);
      calls, log, tries := [], [], [];
      owner := seq(2 * size, _ => -1);
      new;
      for i := 0 to |entries|
        invariant Valid() && fresh(records) && fresh(reverse) && this.size == size && calls == entries[..i]
      {
        var _ := Add(entries[i].key, entries[i].value);
      }
    }

    method Streq(a: Key, b: Key) returns (same: bool)
      ensures same <==> a == b
    {
      var i := 0;
      while i < |a| && i < |b|
        invariant 0 <= i <= |a| && i <= |b| && a[..i] == b[..i]
      {
        if a[i] != b[i] {
          return false;
        }
        i := i + 1;
      }
      assert a[..|a|] == a && b[..|b|] == b;
      return i == |a| && i == |b|;
    }

    method Hash(key: Key) returns (hash: int)
      ensures hash == Djb2(key) && 0 <= hash < WORD
    {
      hash := 5381;
      for i := 0 to |key|
        invariant 0 <= hash < WORD && Djb2(key) == Djb2From(hash, key[i..])
      {
        hash := (hash * 33 + key[i]) % WORD;
        assert key[i..][1..] == key[i + 1..];
      }
    }

    method Find(key: Key) returns (found: Option<Value>)
      requires Valid()
      ensures found == FirstValue(log, key)
    {
      var hash := Hash(key);
      var max := 2 * size;
      for i := 0 to max
        invariant forall k :: 0 <= k < i ==> MissedAt(records[..], key, k)
      {
        var slot := Probe(hash, i, max);
        if !records[slot].isSet {
          NoneFound(records[..], log, owner, tries, key, i);
          return None;
        }
        var same := Streq(records[slot].key, key);
        if same {
          FoundFirst(records[..], log, owner, tries, key, i);
          return Some(records[slot].value);
        }
        assert MissedAt(records[..], key, i);
      }
      NoneFound(records[..], log, owner, tries, key, max);
      return None;
    }

    method FindKey(v: Value) returns (found: Option<Key>)
      requires Valid()
      ensures found == if Index(v) < size then LastKey(calls, Index(v)) else None
    {
      if Index(v) >= size {
        return None;
      }
      return reverse[Index(v)];
    }

    /** The first SIZE calls always find a slot; a constant out of bounds is stored but not listed in reverse. */
    method Add(key: Key, v: Value) returns (ok: bool)
      requires Valid()
      modifies this, records, reverse
      ensures Valid() && calls == old(calls) + [Entry(key, v)]
      ensures log == old(log) || log == old(log) + [Entry(key, v)]
      ensures |old(log)| < size ==> log == old(log) + [Entry(key, v)]
      ensures ok <==> log != old(log) && Index(v) < size
    {
      hide Filled;
      Sizes(records[..], log, owner, tries);
      var hash := Hash(key);
      var inserted, i, max := false, 0, 2 * size;
      ghost var e, was := Entry(key, v), records[..];
      while i < max && !inserted
        decreases max - i, !inserted
        invariant 0 <= i <= max
        invariant !inserted ==> records[..] == was && log == old(log) && owner == old(owner) && tries == old(tries)
        invariant !inserted ==> forall k :: 0 <= k < i ==> was[Probe(hash, k, max)].isSet
        invariant inserted ==> log == old(log) + [e] && Filled(records[..], log, owner, tries)
        invariant calls == old(calls) && reverse[..] == old(reverse[..])
      {
        var slot := Probe(hash, i, max);
        if !records[slot].isSet {
          inserted := true;
          Inserted(was, log, owner, tries, e, i);
          records[slot] := Record(key, v, true);
          log, owner, tries := log + [e], owner[slot := |log|], tries + [i];
          assert records[..] == was[slot := Record(key, v, true)];
        } else {
          i := i + 1;
        }
      }
      if !inserted && |log| < size {
        FreeSlot(was, log, owner, tries, hash, size);
      }
      calls := calls + [e];
      assert calls[..|calls| - 1] == old(calls);
      if Index(v) >= size {
        return false;
      }
      reverse[Index(v)] := Some(key);
      return inserted;
    }
  }

  /** A table of up to SIZE distinct pairs answers both questions, and the answers agree. */
  method BothWays(entries: seq<Entry>, size: nat, key: Key, v: Value)
    returns (value: Option<Value>, name: Option<Key>)
    requires 0 < 2 * size < WORD && |entries| <= size
    requires DistinctKeys(entries) && DistinctValues(entries) && Index(v) < size
    ensures value == Some(v) <==> Entry(key, v) in entries
    ensures name == Some(key) <==> Entry(key, v) in entries
  {
    var names := new StringMap(entries, size);
    value := names.Find(key);
    name := names.FindKey(v);
    Inverse(entries, key, v);
    if value == Some(v) {
      var j := FirstValueFound(entries, key);
      assert entries[j] == Entry(key, v);
    }
    if Entry(key, v) in entries {
      var j :| 0 <= j < |entries| && entries[j] == Entry(key, v);
      FirstValueAt(entries, key, j);
    }
  }
}
