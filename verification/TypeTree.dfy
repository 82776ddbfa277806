/** love::Type and the type registry: ids and inheritance bits filled in lazily, and the nearest registered ancestor. */
module TypeTree {
  import opened Options

  const MAX_TYPES: nat := 128

  class Type {
    const parent: Type?
    ghost const depth: nat

    var id: nat
    var inited: bool
    var bits: set<nat>

    constructor (parent: Type?)
      ensures this.parent == parent && id == 0 && !inited && bits == {}
      ensures parent != null ==> parent.depth < depth
    {
      this.parent := parent;
      depth := if parent == null then 0 else parent.depth + 1;
      id, inited, bits := 0, false, {};
    }
  }

  /** Parents belong to the set too, and following them ends. */
  ghost predicate Rooted(all: set<Type>) {
    forall t :: t in all && t.parent != null ==> t.parent in all && t.parent.depth < t.depth
  }

  /** A type and everything on its parent chain. */
  ghost function Chain(t: Type, all: set<Type>): (chain: set<Type>)
    requires Rooted(all) && t in all
    ensures t in chain && chain <= all
    decreases t.depth
  {
    if t.parent == null then {t} else {t} + Chain(t.parent, all)
  }

  lemma {:induction false} ChainDown(t: Type, u: Type, all: set<Type>)
    requires Rooted(all) && t in all && u in Chain(t, all)
    ensures u.depth <= t.depth && (u.depth == t.depth ==> u == t)
    ensures Chain(u, all) <= Chain(t, all)
    decreases t.depth
  {
    if u != t {
      ChainDown(t.parent, u, all);
    }
  }

  /** Of two types on one chain, one is on the chain of the other. */
  lemma {:induction false} ChainOrder(t: Type, u: Type, v: Type, all: set<Type>)
    requires Rooted(all) && t in all && u in Chain(t, all) && v in Chain(t, all)
    ensures u in Chain(v, all) || v in Chain(u, all)
    decreases t.depth
  {
    if u != t && v != t {
      ChainOrder(t.parent, u, v, all);
    }
  }

  /** The tag of the first registered type on the way up. */
  ghost function Nearest<Tag>(tags: map<Type, Tag>, t: Type, all: set<Type>): Option<Tag>
    requires Rooted(all) && t in all
    decreases t.depth
  {
    if t in tags then Some(tags[t])
    else if t.parent == null then None
    else Nearest(tags, t.parent, all)
  }

  lemma {:induction false} NearestIs<Tag>(tags: map<Type, Tag>, t: Type, best: Type, all: set<Type>)
    requires Rooted(all) && t in all && best in Chain(t, all) && best in tags
    requires forall k :: k in tags && k in Chain(t, all) ==> k in Chain(best, all)
    ensures Nearest(tags, t, all) == Some(tags[best])
    decreases t.depth
  {
    if t in tags {
      ChainDown(t, best, all);
      ChainDown(best, t, all);
    } else {
      NearestIs(tags, t.parent, best, all);
    }
  }

  lemma {:induction false} NearestIsNone<Tag>(tags: map<Type, Tag>, t: Type, all: set<Type>)
    requires Rooted(all) && t in all
    requires forall k :: k in tags ==> k !in Chain(t, all)
    ensures Nearest(tags, t, all) == None
    decreases t.depth
  {
    if t.parent != null {
      NearestIsNone(tags, t.parent, all);
    }
  }

  /** Registering a type changes the answer for exactly those types that have it on their chain with no registered type
      nearer. */
  lemma {:induction false} NearestAfterAdd<Tag>(tags: map<Type, Tag>, t: Type, tag: Tag, u: Type, all: set<Type>)
    requires Rooted(all) && t in all && u in all
    ensures Nearest(tags[t := tag], u, all) ==
      if t in Chain(u, all) && forall k :: k in tags && k in Chain(u, all) ==> k in Chain(t, all) then Some(tag)
      else Nearest(tags, u, all)
    decreases u.depth
  {
    if u != t {
      if t in Chain(u, all) {
        ChainDown(u, t, all);
      }
      if u in tags && u in Chain(t, all) {
        ChainDown(t, u, all);
      }
      if u !in tags && u.parent != null {
        NearestAfterAdd(tags, t, tag, u.parent, all);
      }
    }
  }

  class Types {
    var nextId: nat

    ghost const all: set<Type>
    ghost var done: set<Type>
    ghost var named: map<nat, Type>

    /** Ids are given out in order, one to each initialised type. */
    ghost predicate Numbered()
      reads this, all
    {
      && Rooted(all) && |all| < MAX_TYPES && done <= all && nextId == |done| + 1
      && forall t :: t in all ==>
           if t in done then t.inited && 1 <= t.id < nextId && t.id in named && named[t.id] == t
           else !t.inited && t.id == 0 && t.bits == {}
    }

    /** `pending` are the types whose bits still lack those of their parents, because an init is under way. */
    ghost predicate ValidBut(pending: set<Type>)
      reads this, all
    {
      && Numbered() && pending <= done
      && (forall t :: t in pending ==> t.bits == {t.id})
      && (forall t :: t in done && t !in pending ==> Complete(t, pending))
    }

    ghost predicate Complete(t: Type, pending: set<Type>)
      reads this, t, t.parent
    {
      if t.parent == null then t.bits == {t.id}
      else t.parent in done && t.parent !in pending && t.bits == {t.id} + t.parent.bits
    }

    ghost predicate Valid()
      reads this, all
    {
      ValidBut({})
    }

    /** Before any type is initialised; there are fewer than MAX_TYPES of them. */
    constructor (ghost all: set<Type>)
      requires Rooted(all) && |all| < MAX_TYPES
      requires forall t :: t in all ==> !t.inited && t.id == 0 && t.bits == {}
      ensures Valid() && this.all == all && done == {}
    {
      nextId := 1;
      this.all := all;
      done, named := {}, map[];
    }

    lemma {:induction false} ChainDone(t: Type, pending: set<Type>)
      requires ValidBut(pending) && t in done && t !in pending
      ensures Chain(t, all) <= done
      decreases t.depth
    {
      if t.parent != null {
        assert Complete(t, pending);
        ChainDone(t.parent, pending);
      }
    }

    method Init(t: Type, ghost pending: set<Type>)
      requires ValidBut(pending) && t in all && t !in pending
      requires forall p :: p in pending ==> t.depth < p.depth
      modifies this`nextId, this`done, this`named, all
      ensures ValidBut(pending)
      ensures done == old(done) + Chain(t, all)
      ensures forall u :: u in old(done) ==> u.id == old(u.id) && u.bits == old(u.bits)
      decreases t.depth
    {
      hide ValidBut, Numbered, Complete;
      ghost var was, up := done, pending + {t};
      InitedIsDone(t, pending);
      if t.inited {
        ChainDone(t, pending);
        return;
      }
      Enter(t, pending);
      if t.parent == null {
        return;
      }
      InitedIsDone(t.parent, up);
      if !t.parent.inited {
        Init(t.parent, up);
      } else {
        ChainDone(t.parent, up);
        assert done == was + {t} + Chain(t.parent, all);
      }
      Inherit(t, pending);
    }

    lemma InitedIsDone(t: Type, pending: set<Type>)
      requires ValidBut(pending) && t in all
      ensures t.inited <==> t in done
      ensures Rooted(all) && done <= all
    {
    }

    /** The first half of init: the type gets its id and its own bit. */
    method Enter(t: Type, ghost pending: set<Type>)
      requires ValidBut(pending) && t in all && t !in pending && !t.inited
      modifies this`nextId, this`done, this`named, t
      ensures ValidBut(if t.parent == null then pending else pending + {t})
      ensures done == old(done) + {t}
    {
      MoreDone(t);
      t.id := nextId;
      nextId := nextId + 1;
      t.bits := t.bits + {t.id};
      t.inited := true;
      done, named := done + {t}, named[t.id := t];
      assert Numbered();
      ghost var after := if t.parent == null then pending else pending + {t};
      forall u | u in done && u !in after ensures Complete(u, after) {
        if u != t {
          assert old(Complete(u, pending));
          assert u.parent != t && (u.parent != null ==> u.parent.bits == old(u.parent.bits));
        }
      }
    }

    /** The second half: the bits of the parent are added. */
    method Inherit(t: Type, ghost pending: set<Type>)
      requires ValidBut(pending + {t}) && t in all && t !in pending
      requires t.parent != null && t.parent in done && t.parent !in pending
      modifies t`bits
      ensures ValidBut(pending)
    {
      t.bits := t.bits + t.parent.bits;
    }

    lemma MoreDone(t: Type)
      requires done <= all && t in all && t !in done
      ensures |done + {t}| == |done| + 1 <= |all|
    {
      CountSubset(done + {t}, all);
    }

    method GetId(t: Type) returns (id: nat)
      requires Valid() && t in all
      modifies this`nextId, this`done, this`named, all
      ensures Valid() && done == old(done) + Chain(t, all)
      ensures id == t.id && 1 <= id < MAX_TYPES
      ensures forall u :: u in all && u.id == id ==> u == t
    {
      if !t.inited {
        Init(t, {});
      }
      ChainDone(t, {});
      CountSubset(done, all);
      id := t.id;
    }

    /** The bits of an initialised type are the ids of its chain; a type not initialised yet is on no such chain. */
    lemma {:induction false} BitsAreChain(t: Type, u: Type)
      requires Valid() && t in done && u in all
      ensures u.id in t.bits <==> u in Chain(t, all)
      ensures 0 !in t.bits
      decreases t.depth
    {
      assert Complete(t, {});
      if t.parent != null {
        BitsAreChain(t.parent, u);
      }
    }

    method Isa(t: Type, u: Type) returns (isa: bool)
      requires Valid() && t in all && u in all
      modifies this`nextId, this`done, this`named, all
      ensures Valid() && done == old(done) + Chain(t, all)
      ensures isa <==> u in Chain(t, all)
    {
      if !t.inited {
        Init(t, {});
      }
      ChainDone(t, {});
      BitsAreChain(t, u);
      isa := u.id in t.bits;
    }
  }

  lemma CountSubset<T>(a: set<T>, b: set<T>)
    requires a <= b
    ensures |a| <= |b|
  {
    assert b == a + (b - a);
  }

  /** Of the types looked at so far that are on the chain of `t`, `best` is the nearest. */
  ghost predicate Best(best: Type?, seen: set<Type>, t: Type, all: set<Type>)
    requires Rooted(all) && t in all
  {
    if best == null then seen !! Chain(t, all)
    else best in Chain(t, all) && seen * Chain(t, all) <= Chain(best, all)
  }

  /** What the loop does with the next candidate `k`, in whatever order they come. */
  lemma BestStep(best: Type?, seen: set<Type>, t: Type, k: Type, all: set<Type>)
    requires Rooted(all) && t in all && k in all && Best(best, seen, t, all)
    ensures k !in Chain(t, all) ==> Best(best, seen + {k}, t, all)
    ensures k in Chain(t, all) && (best == null || best in Chain(k, all)) ==> Best(k, seen + {k}, t, all)
    ensures k in Chain(t, all) && best != null && best !in Chain(k, all) ==> Best(best, seen + {k}, t, all)
  {
    if k in Chain(t, all) && best != null {
      ChainOrder(t, k, best, all);
      if best in Chain(k, all) {
        ChainDown(k, best, all);
      }
    }
  }

  class Registry<Tag(==)> {
    var tags: map<Type, Tag>
    var types: map<Tag, Type>

    constructor ()
      ensures tags == map[] && types == map[]
    {
      tags, types := map[], map[];
    }

    method Add(t: Type, tag: Tag)
      modifies this
      ensures tags == old(tags)[t := tag] && types == old(types)[tag := t]
    {
      tags := tags[t := tag];
      types := types[tag := t];
    }

    /** `order` is the order in which the hash table happens to hand out its keys. */
    method TagFor(world: Types, t: Type, order: seq<Type>) returns (tag: Option<Tag>)
      requires world.Valid() && t in world.all && tags.Keys <= world.all
      requires forall k :: k in order <==> k in tags
      modifies world`nextId, world`done, world`named, world.all
      ensures world.Valid()
      ensures tag == Nearest(tags, t, world.all)
    {
      hide Types.ValidBut;
      if t in tags {
        return Some(tags[t]);
      }
      tag := None;
      var best: Type? := null;
      ghost var seen: set<Type> := {};
      world.InitedIsDone(t, {});
      for i := 0 to |order|
        invariant world.Valid() && Rooted(world.all) && (forall x :: x in seen <==> x in order[..i])
        invariant Best(best, seen, t, world.all)
        invariant best != null ==> best in tags && tag == Some(tags[best])
        invariant best == null ==> tag == None
      {
        var k := order[i];
        BestStep(best, seen, t, k, world.all);
        seen := seen + {k};
        assert order[..i + 1] == order[..i] + [k];
        var matches := world.Isa(t, k);
        if matches {
          var nearer := true;
          if best != null {
            nearer := world.Isa(k, best);
          }
          if nearer {
            tag, best := Some(tags[k]), k;
          }
        }
      }
      assert order[..|order|] == order;
      if best == null {
        NearestIsNone(tags, t, world.all);
      } else {
        NearestIs(tags, t, best, world.all);
      }
    }
  }
}
