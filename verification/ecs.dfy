/**
 * `ECS<C, K>`: entities, components grouped by kind, and the two relation
 * tables that let an entity find its components. The entity table is a
 * slab; the other three are hash maps of slabs. The four tables are owned
 * by the store and never replaced, only changed in place, so they are
 * `const` fields here. `Model()` reads their live contents as an
 * `EcsModel.Tables` value; every method is proved to move `Model()`
 * exactly as the matching function of `EcsModel` does, and every `.check()`
 * of the source is an assertion proved from `Consistent(Model())`.
 */
module Ecs {
  import opened Options
  import opened KeyOrder
  import opened Slabs
  import opened SlabMaps
  import opened EcsModel

  /**
   * The allocation states of the index slabs once `remove_entity(e)`'s loop
   * has run over `l`, first to last, starting from the kind stores `cm`:
   * each turn frees the slot of `e`'s index of its kind that the dropped
   * component's meta names.
   */
  function IndexFreed<C, K>(cm: map<K, map<nat, CompMeta<C>>>, e: nat, l: seq<(K, nat)>, a: map<(nat, K), Vacancy>): map<(nat, K), Vacancy>
    decreases |l|
  {
    if l == [] then a
    else
      var (k, s) := l[0];
      var j := if k in cm && s in cm[k] then cm[k][s].relation1 else 0;
      IndexFreed(if k in cm then cm[k := cm[k] - {s}] else cm, e, l[1..], a[(e, k) := Pushed(OrNew(a, (e, k)), j)])
  }

  /** Turn `i` of the loop, then the turns after it, is the loop from turn `i`. */
  lemma IndexFreedStep<C, K>(cm: map<K, map<nat, CompMeta<C>>>, e: nat, l: seq<(K, nat)>, i: nat, a: map<(nat, K), Vacancy>)
    requires i < |l| && l[i].0 in cm && l[i].1 in cm[l[i].0]
    ensures var (k, s) := l[i];
            IndexFreed(cm[k := cm[k] - {s}], e, l[i + 1..], a[(e, k) := Pushed(OrNew(a, (e, k)), cm[k][s].relation1)])
              == IndexFreed(cm, e, l[i..], a)
  {
    assert l[i..][0] == l[i] && l[i..][1..] == l[i + 1..];
  }

  /** Only `e`'s indexes are freed from: every other entity's keep their allocation states. */
  lemma {:induction false} IndexFreedElsewhere<C, K>(cm: map<K, map<nat, CompMeta<C>>>, e: nat, l: seq<(K, nat)>, a: map<(nat, K), Vacancy>, p: (nat, K))
    requires p.0 != e
    ensures OrNew(IndexFreed(cm, e, l, a), p) == OrNew(a, p)
    decreases |l|
  {
    if l != [] {
      var (k, s) := l[0];
      var j := if k in cm && s in cm[k] then cm[k][s].relation1 else 0;
      IndexFreedElsewhere(if k in cm then cm[k := cm[k] - {s}] else cm, e, l[1..], a[(e, k) := Pushed(OrNew(a, (e, k)), j)], p);
    }
  }

  class ECS<C, K(==, !new)> {
    /** `K::from(&C)`: the kind of a component. */
    const kind: C -> K

    const entities: Slab<()>
    const compMetas: SlabMap<K, CompMeta<C>>
    const relation0: SlabMap<nat, (K, nat)>
    const relation1: SlabMap<(nat, K), nat>

    /** Every object of the four tables. */
    ghost function Repr(): set<object>
      reads compMetas, relation0, relation1
    {
      {entities} + compMetas.Repr + relation0.Repr + relation1.Repr
    }

    /** The live contents of the four tables. */
    ghost function Model(): Tables<C, K>
      reads entities, compMetas, relation0, relation1
    {
      Tables(entities.Contents.Keys, compMetas.M, relation0.M, relation1.M)
    }

    /** No object belongs to two tables. */
    ghost predicate Apart()
      reads compMetas, relation0, relation1
    {
      && entities !in compMetas.Repr && entities !in relation0.Repr && entities !in relation1.Repr
      && compMetas.Repr !! relation0.Repr && compMetas.Repr !! relation1.Repr && relation0.Repr !! relation1.Repr
    }

    /** The three hash-map tables are well formed and apart from each other and the entity slab. */
    ghost predicate MapsValid()
      reads compMetas, relation0, relation1, compMetas.Repr, relation0.Repr, relation1.Repr
    {
      Apart() && compMetas.Valid() && relation0.Valid() && relation1.Valid()
    }

    /** The class invariant: four well-formed tables whose contents are consistent. */
    ghost predicate Valid()
      reads compMetas, relation0, relation1, Repr()
    {
      MapsValid() && entities.Valid() && Consistent(Model())
    }

    /** `ECS::new`: four empty tables. */
    constructor (kind: C -> K)
      ensures Valid()
      ensures Model() == Empty()
      ensures entities.Alloc() == Vacancy([], 0)
      ensures compMetas.A == map[] && relation0.A == map[] && relation1.A == map[]
      ensures this.kind == kind
      ensures fresh(entities) && fresh(compMetas.Repr)
      ensures fresh(relation0.Repr) && fresh(relation1.Repr)
    {
      this.kind := kind;
      entities := new Slab();
      compMetas := new SlabMap();
      relation0 := new SlabMap();
      relation1 := new SlabMap();
    }

    /**
     * `insert_entity`: the entity slab hands out its vacant key, popping its
     * free list or growing its vector.
     */
    method InsertEntity() returns (e: nat)
      requires Valid()
      modifies entities
      ensures Valid()
      ensures e == old(entities.VacantKey())
      ensures entities.Alloc() == Popped(old(entities.Alloc()))
      ensures e !in old(Model()).entities
      ensures Model() == EcsModel.InsertEntity(old(Model()), e)
    {
      e := entities.Insert(());
      Admitted(e);
    }

    /** The entity slab alone gained the live key `e`; the store is still valid. */
    twostate lemma Admitted(e: nat)
      requires old(Valid()) && e !in old(entities.Contents)
      requires entities.Valid() && entities.Contents == old(entities.Contents)[e := ()]
      requires unchanged(compMetas, relation0, relation1)
      requires unchanged(old(compMetas.Repr), old(relation0.Repr), old(relation1.Repr))
      ensures Valid() && Model() == EcsModel.InsertEntity(old(Model()), e)
    {
      InsertEntityEffect(old(Model()), e);
      assert Model() == EcsModel.InsertEntity(old(Model()), e);
    }

    /** `get_entity`. */
    function GetEntity(e: nat): (r: Option<()>)
      reads compMetas, relation0, relation1, Repr()
      requires Valid()
      ensures r == EcsModel.GetEntity(Model(), e)
    {
      if entities.Get(e).Some? then Some(()) else None
    }

    /** `iter_entity`: the live entity keys, in ascending order. */
    method IterEntity() returns (r: seq<nat>)
      requires Valid()
      ensures r == Ascending(Model().entities)
    {
      var listing := entities.Iter();
      r := Keys(listing);
      ListingKeys(entities.Contents);
    }

    /**
     * `insert_comp`: `None` for a dead entity. Otherwise the component goes
     * to the vacant slot `s` of its kind's slab, the owner's directory
     * records (kind, s) and the owner's kind index records `s`, each at
     * the vacant slot of its own slab; absent slabs are created first, and
     * each of the three slabs then pops its free list or grows by one.
     */
    method InsertComp(e: nat, c: C) returns (r: Option<(K, nat)>)
      requires Valid()
      modifies compMetas.Repr, relation0.Repr, relation1.Repr
      ensures Valid()
      ensures r.Some? <==> e in old(Model()).entities
      ensures r.None? ==> unchanged(old(Repr()))
      ensures r.Some? ==> r.value == (kind(c), old(compMetas.VacantKey(kind(c))))
      ensures r.Some? ==> Model() == EcsModel.InsertComp(old(Model()), e, c, kind(c), r.value.1,
                                                         old(relation0.VacantKey(e)), old(relation1.VacantKey((e, kind(c)))))
      ensures r.Some? ==> && compMetas.A == old(compMetas.AfterInsert(kind(c)))
                          && relation0.A == old(relation0.AfterInsert(e))
                          && relation1.A == old(relation1.AfterInsert((e, kind(c))))
      ensures fresh(compMetas.Repr - old(compMetas.Repr))
      ensures fresh(relation0.Repr - old(relation0.Repr)) && fresh(relation1.Repr - old(relation1.Repr))
    {
      if entities.Get(e).None? {
        return None;
      }
      ghost var t := Model();
      var k := kind(c);
      var s, d, j := Add(e, k, c);
      InsertCompEffect(t, e, c, k, s, d, j);
      r := Some((k, s));
    }

    /**
     * The three inserts of `insert_comp`: the directory entry (k, s) and the
     * index entry `s` go to the vacant keys of `e`'s two relation slabs, and
     * the meta goes to the vacant slot `s` of kind `k`'s store; absent slabs
     * are created first.
     */
    method Add(e: nat, k: K, c: C) returns (s: nat, d: nat, j: nat)
      requires MapsValid()
      modifies compMetas.Repr, relation0.Repr, relation1.Repr
      ensures MapsValid()
      ensures s == old(compMetas.VacantKey(k))
      ensures d == old(relation0.VacantKey(e)) && j == old(relation1.VacantKey((e, k)))
      ensures relation0.M == old(relation0.M[e := OrEmpty(relation0.M, e)[d := (k, s)]])
      ensures relation1.M == old(relation1.M[(e, k) := OrEmpty(relation1.M, (e, k))[j := s]])
      ensures compMetas.M == old(compMetas.M[k := OrEmpty(compMetas.M, k)[s := CompMeta(c, e, d, j)]])
      ensures relation0.A == old(relation0.AfterInsert(e))
      ensures relation1.A == old(relation1.AfterInsert((e, k)))
      ensures compMetas.A == old(compMetas.AfterInsert(k))
      ensures fresh(compMetas.Repr - old(compMetas.Repr))
      ensures fresh(relation0.Repr - old(relation0.Repr)) && fresh(relation1.Repr - old(relation1.Repr))
    {
      s := compMetas.VacantKey(k);
      d, j := Link(e, k, s);
      Place(k, CompMeta(c, e, d, j));
    }

    /** The two relation entries of a new component of kind `k` at slot `s`. */
    method Link(e: nat, k: K, s: nat) returns (d: nat, j: nat)
      requires MapsValid()
      modifies relation0.Repr, relation1.Repr
      ensures MapsValid()
      ensures compMetas.M == old(compMetas.M) && compMetas.A == old(compMetas.A)
      ensures d == old(relation0.VacantKey(e)) && j == old(relation1.VacantKey((e, k)))
      ensures relation0.A == old(relation0.AfterInsert(e))
      ensures relation1.A == old(relation1.AfterInsert((e, k)))
      ensures relation0.M == old(relation0.M[e := OrEmpty(relation0.M, e)[d := (k, s)]])
      ensures relation1.M == old(relation1.M[(e, k) := OrEmpty(relation1.M, (e, k))[j := s]])
      ensures fresh(relation0.Repr - old(relation0.Repr)) && fresh(relation1.Repr - old(relation1.Repr))
    {
      d := relation0.Insert(e, (k, s));
      j := relation1.Insert((e, k), s);
    }

    /** Stores `meta` at the vacant slot of kind `k`. */
    method Place(k: K, meta: CompMeta<C>)
      requires MapsValid()
      modifies compMetas.Repr
      ensures MapsValid()
      ensures relation0.M == old(relation0.M) && relation1.M == old(relation1.M)
      ensures relation0.A == old(relation0.A) && relation1.A == old(relation1.A)
      ensures compMetas.M == old(compMetas.M[k := OrEmpty(compMetas.M, k)[compMetas.VacantKey(k) := meta]])
      ensures compMetas.A == old(compMetas.AfterInsert(k))
      ensures fresh(compMetas.Repr - old(compMetas.Repr))
    {
      var s := compMetas.Insert(k, meta);
    }

    /** Takes slot `s` out of kind `k`'s store. */
    method Unstore(k: K, s: nat) returns (m: Option<CompMeta<C>>)
      requires MapsValid()
      modifies compMetas.Repr
      ensures MapsValid()
      ensures compMetas.Repr == old(compMetas.Repr)
      ensures relation0.M == old(relation0.M) && relation1.M == old(relation1.M)
      ensures m == old(if k in compMetas.M && s in compMetas.M[k] then Some(compMetas.M[k][s]) else None)
      ensures compMetas.M == old(if m.Some? then compMetas.M[k := compMetas.M[k] - {s}] else compMetas.M)
      ensures relation0.A == old(relation0.A) && relation1.A == old(relation1.A)
      ensures compMetas.A == old(if m.Some? then compMetas.AfterRemove(k, s) else compMetas.A)
      ensures m.Some? ==> compMetas.VacantKey(k) == s
      ensures m.None? ==> unchanged(old(compMetas.Repr))
    {
      m := compMetas.Remove(k, s);
    }

    /** Takes entry `d` out of entity `e`'s directory, which holds it. */
    method Unlink0(e: nat, d: nat)
      requires MapsValid()
      requires e in relation0.M && d in relation0.M[e]
      modifies relation0.Repr
      ensures MapsValid()
      ensures relation0.Repr == old(relation0.Repr)
      ensures compMetas.M == old(compMetas.M) && relation1.M == old(relation1.M)
      ensures relation0.M == old(relation0.M[e := relation0.M[e] - {d}])
      ensures compMetas.A == old(compMetas.A) && relation1.A == old(relation1.A)
      ensures relation0.A == old(relation0.AfterRemove(e, d))
    {
      var x := relation0.Remove(e, d);
      assert x.Some?;
    }

    /** Takes entry `j` out of the index `p`, which holds it. */
    method Unlink1(p: (nat, K), j: nat)
      requires MapsValid()
      requires p in relation1.M && j in relation1.M[p]
      modifies relation1.Repr
      ensures MapsValid()
      ensures relation1.Repr == old(relation1.Repr)
      ensures compMetas.M == old(compMetas.M) && relation0.M == old(relation0.M)
      ensures relation1.M == old(relation1.M[p := relation1.M[p] - {j}])
      ensures compMetas.A == old(compMetas.A) && relation0.A == old(relation0.A)
      ensures relation1.A == old(relation1.AfterRemove(p, j))
    {
      var x := relation1.Remove(p, j);
      assert x.Some?;
    }

    /**
     * `remove_comp`: `None` when `key` names no live component. Otherwise
     * the component leaves its kind's store, its owner's directory and its
     * owner's index, and its value is returned; each of the three freed
     * slots is pushed on its slab's free list, so `key` is the next key
     * handed out for its kind.
     */
    method RemoveComp(key: (K, nat)) returns (r: Option<C>)
      requires Valid()
      modifies compMetas.Repr, relation0.Repr, relation1.Repr
      ensures r == old(EcsModel.GetComp(Model(), key))
      ensures Valid()
      ensures Model() == EcsModel.RemoveComp(old(Model()), key)
      ensures r.None? ==> unchanged(old(Repr()))
      ensures r.Some? ==> compMetas.VacantKey(key.0) == key.1
      ensures compMetas.Repr == old(compMetas.Repr)
      ensures relation0.Repr == old(relation0.Repr) && relation1.Repr == old(relation1.Repr)
      ensures old(Stored(Model(), key.0, key.1)) ==>
                var m := old(Model()).compMetas[key.0][key.1];
                && compMetas.A == old(compMetas.AfterRemove(key.0, key.1))
                && relation0.A == old(relation0.AfterRemove(m.entityKey, m.relation0))
                && relation1.A == old(relation1.AfterRemove((m.entityKey, key.0), m.relation1))
    {
      ghost var t := Model();
      var k, s := key.0, key.1;
      var m := Unstore(k, s);
      if m.None? {
        return None;
      }
      assert DirectoryLinks(t, k, s) && IndexLinks(t, k, s);
      Unlink0(m.value.entityKey, m.value.relation0);
      Unlink1((m.value.entityKey, k), m.value.relation1);
      RemoveCompEffect(t, key);
      r := Some(m.value.inner);
    }

    /**
     * Turn `i` of `remove_entity`'s loop: component `l[i]` of `e` leaves its
     * store and `e`'s index, and the entries after it are still pending.
     */
    method DropComp(e: nat, l: seq<(K, nat)>, i: nat)
      requires MapsValid()
      requires i < |l| && Cascading(Model(), e, l[i..])
      modifies compMetas.Repr, relation1.Repr
      ensures MapsValid()
      ensures compMetas.Repr == old(compMetas.Repr) && relation1.Repr == old(relation1.Repr)
      ensures Model() == Drop(old(Model()), e, l[i])
      ensures Cascading(Model(), e, l[i + 1..])
      ensures EcsModel.Cascade(Model(), e, l[i + 1..]) == EcsModel.Cascade(old(Model()), e, l[i..])
      ensures Freed(compMetas.A, l[i + 1..]) == old(Freed(compMetas.A, l[i..]))
      ensures IndexFreed(compMetas.M, e, l[i + 1..], relation1.A) == old(IndexFreed(compMetas.M, e, l[i..], relation1.A))
    {
      ghost var u := Model();
      var k, s := l[i].0, l[i].1;
      assert Stored(u, k, s) && IndexLinks(u, k, s);
      ghost var a, b := compMetas.A, relation1.A;
      var m := Unstore(k, s);
      Unlink1((e, k), m.value.relation1);
      CascadeStep(u, e, l[i..]);
      FreedStep(a, l, i);
      IndexFreedStep(u.compMetas, e, l, i, b);
      assert l[i..][1..] == l[i + 1..];
    }

    /**
     * `remove_entity`: `None` for a dead entity. Otherwise the entity
     * leaves the entity slab, its directory is taken out of `relation0`,
     * and every component the directory lists leaves its kind's store and
     * the entity's index. The freed key is pushed on the entity slab's
     * free list, so it is the next entity key handed out.
     */
    method RemoveEntity(e: nat) returns (r: Option<()>)
      requires Valid()
      modifies Repr()
      ensures Model() == EcsModel.RemoveEntity(old(Model()), e)
      ensures r.Some? <==> e in old(Model()).entities
      ensures Valid()
      ensures r.Some? ==> entities.VacantKey() == e && entities.Alloc() == Pushed(old(entities.Alloc()), e)
      ensures r.None? ==> unchanged(old(Repr()))
      ensures compMetas.Repr == old(compMetas.Repr)
      ensures relation0.Repr == old(relation0.Repr) && relation1.Repr == old(relation1.Repr)
      ensures r.Some? ==>
                && relation0.A == old(relation0.A) - {e}
                && compMetas.A == Freed(old(compMetas.A), old(Directory(Model(), e)))
                && relation1.A == IndexFreed(old(compMetas.M), e, old(Directory(Model(), e)), old(relation1.A))
    {
      ghost var t := Model();
      var x := entities.TryRemove(e);
      if x.None? {
        return None;
      }
      TablesKept();
      RemoveOwned(e, t);
      r := Some(());
    }

    /** Only the entity slab changed: the other three tables are still well formed. */
    twostate lemma TablesKept()
      requires old(MapsValid())
      requires unchanged(compMetas, relation0, relation1)
      requires unchanged(old(compMetas.Repr), old(relation0.Repr), old(relation1.Repr))
      ensures MapsValid()
    {
    }

    /** Takes `e`'s directory out of `relation0`, listing its entries (none if it has no directory). */
    method TakeDirectory(e: nat) returns (l: seq<(K, nat)>)
      requires MapsValid()
      modifies relation0
      ensures MapsValid()
      ensures relation0.Repr == old(relation0.Repr)
      ensures compMetas.M == old(compMetas.M) && relation1.M == old(relation1.M)
      ensures relation0.M == old(relation0.M) - {e}
      ensures l == old(Values(Listing(OrEmpty(relation0.M, e))))
      ensures relation0.A == old(relation0.A) - {e}
    {
      var dir := relation0.Take(e);
      l := if dir.Some? then Values(dir.value) else [];
    }

    /** `remove_entity`'s loop: drops the listed components of `e`, first to last. */
    method Cascade(e: nat, l: seq<(K, nat)>)
      requires MapsValid()
      requires Cascading(Model(), e, l)
      modifies compMetas.Repr, relation1.Repr
      ensures MapsValid()
      ensures compMetas.Repr == old(compMetas.Repr) && relation1.Repr == old(relation1.Repr)
      ensures Cascading(Model(), e, [])
      ensures Model() == EcsModel.Cascade(old(Model()), e, l)
      ensures compMetas.A == Freed(old(compMetas.A), l)
      ensures relation1.A == IndexFreed(old(compMetas.M), e, l, old(relation1.A))
    {
      ghost var t := Model();
      ghost var a, b, cm := compMetas.A, relation1.A, compMetas.M;
      var i := 0;
      while i < |l|
        invariant i <= |l|
        invariant MapsValid()
        invariant compMetas.Repr == old(compMetas.Repr) && relation1.Repr == old(relation1.Repr)
        invariant Cascading(Model(), e, l[i..])
        invariant EcsModel.Cascade(Model(), e, l[i..]) == EcsModel.Cascade(t, e, l)
        invariant Freed(compMetas.A, l[i..]) == Freed(a, l)
        invariant IndexFreed(compMetas.M, e, l[i..], relation1.A) == IndexFreed(cm, e, l, b)
      {
        DropComp(e, l, i);
        i := i + 1;
      }
      assert l[i..] == [];
    }

    /** `remove_entity` after the entity slab: the directory goes, then the loop. */
    method RemoveOwned(e: nat, ghost t: Tables<C, K>)
      requires MapsValid()
      requires Consistent(t) && e in t.entities && Model() == t.(entities := t.entities - {e})
      modifies compMetas.Repr, relation0, relation1.Repr
      ensures MapsValid()
      ensures compMetas.Repr == old(compMetas.Repr)
      ensures relation0.Repr == old(relation0.Repr) && relation1.Repr == old(relation1.Repr)
      ensures Consistent(Model())
      ensures Model() == EcsModel.RemoveEntity(t, e)
      ensures relation0.A == old(relation0.A) - {e}
      ensures compMetas.A == Freed(old(compMetas.A), Directory(t, e))
      ensures relation1.A == IndexFreed(old(compMetas.M), e, Directory(t, e), old(relation1.A))
    {
      var l := TakeDirectory(e);
      assert l == Directory(t, e);
      CascadeStart(t, e);
      Cascade(e, l);
      CascadeEnd(Model(), e);
    }

    /** `get_comp`. */
    function GetComp(key: (K, nat)): (r: Option<C>)
      reads compMetas, relation0, relation1, Repr()
      requires Valid()
      ensures r == EcsModel.GetComp(Model(), key)
    {
      var m := compMetas.Get(key.0, key.1);
      if m.Some? then Some(m.value.inner) else None
    }

    /** `get_entity_by_comp`. */
    function GetEntityByComp(key: (K, nat)): (r: Option<nat>)
      reads compMetas, relation0, relation1, Repr()
      requires Valid()
      ensures r == EcsModel.GetEntityByComp(Model(), key)
    {
      var m := compMetas.Get(key.0, key.1);
      if m.Some? then Some(m.value.entityKey) else None
    }

    /**
     * `get_comp_mut`, with `update` written through the reference it
     * returns: the value before the write comes back.
     */
    method GetCompMut(key: (K, nat), update: C -> C) returns (r: Option<C>)
      requires Valid()
      modifies compMetas.Repr
      ensures Valid()
      ensures r == old(EcsModel.GetComp(Model(), key))
      ensures Model() == UpdateComp(old(Model()), key, update)
      ensures compMetas.A == old(compMetas.A)
      ensures compMetas.Repr == old(compMetas.Repr)
    {
      ghost var t := Model();
      var m := compMetas.Update(key.0, key.1, Lift(update));
      UpdateCompEffect(t, key, update);
      r := if m.Some? then Some(m.value.inner) else None;
    }

    /** `iter_comp`: the components of kind `k`, in slot order. */
    method IterComp(k: K) returns (r: Option<seq<C>>)
      requires Valid()
      ensures r == EcsModel.IterComp(Model(), k)
    {
      var l := compMetas.Iter(k);
      r := if l.Some? then Some(Inner(Values(l.value))) else None;
    }

    /**
     * `iter_comp_mut`, with `update` written through every reference it
     * yields: the values before the writes come back, in slot order.
     */
    method IterCompMut(k: K, update: C -> C) returns (r: Option<seq<C>>)
      requires Valid()
      modifies compMetas.Repr
      ensures Valid()
      ensures r == old(EcsModel.IterComp(Model(), k))
      ensures Model() == UpdateKind(old(Model()), k, update)
      ensures compMetas.A == old(compMetas.A)
      ensures compMetas.Repr == old(compMetas.Repr)
    {
      ghost var t := Model();
      var seen := compMetas.UpdateAll(k, Lift(update));
      UpdateKindEffect(t, k, update);
      r := if seen.Some? then Some(Inner(seen.value)) else None;
    }

    /** `iter_comp_by_entity`: `e`'s components of kind `k`, in index order. */
    method IterCompByEntity(e: nat, k: K) returns (r: Option<seq<C>>)
      requires Valid()
      ensures r == EcsModel.IterCompByEntity(Model(), e, k)
    {
      if !compMetas.Has(k) {
        return None;
      }
      var index := relation1.Iter((e, k));
      if index.None? {
        return None;
      }
      var slots := Values(index.value);
      IndexIsStored(Model(), e, k);
      assert slots == SlotsOf(Model(), e, k);
      var out := [];
      for i := 0 to |slots|
        invariant |out| == i
        invariant forall n | 0 <= n < i :: out[n] == Inners(compMetas.M[k], slots)[n]
      {
        var m := compMetas.Get(k, slots[i]);
        assert Stored(Model(), k, slots[i]);
        out := out + [m.value.inner];
      }
      assert out == Inners(compMetas.M[k], slots);
      r := Some(out);
    }

    /**
     * `iter_comp_mut_by_entity`, with `update` written through every
     * reference it yields: the values before the writes come back, in
     * index order.
     */
    method IterCompMutByEntity(e: nat, k: K, update: C -> C) returns (r: Option<seq<C>>)
      requires Valid()
      modifies compMetas.Repr
      ensures Valid()
      ensures r == old(EcsModel.IterCompByEntity(Model(), e, k))
      ensures Model() == UpdateOwned(old(Model()), e, k, update)
      ensures compMetas.A == old(compMetas.A)
      ensures compMetas.Repr == old(compMetas.Repr)
    {
      ghost var t := Model();
      r := IterCompByEntity(e, k);
      if r.None? {
        return;
      }
      var index := relation1.Iter((e, k));
      var slots := Values(index.value);
      ByEntityExactly(t, e, k);
      UpdateSlots(k, slots, Lift(update));
      UpdateOwnedEffect(t, e, k, update);
    }

    /** Applies `f` to the listed slots of kind `k`'s store. */
    method UpdateSlots(k: K, slots: seq<nat>, f: CompMeta<C> -> CompMeta<C>)
      requires MapsValid()
      requires Distinct(slots)
      modifies compMetas.Repr
      ensures MapsValid()
      ensures relation0.M == old(relation0.M) && relation1.M == old(relation1.M)
      ensures compMetas.M == old(if k in compMetas.M then compMetas.M[k := MapSome(compMetas.M[k], slots, f)] else compMetas.M)
      ensures compMetas.A == old(compMetas.A)
      ensures compMetas.Repr == old(compMetas.Repr)
    {
      compMetas.UpdateEach(k, slots, f);
    }

    /** Empties the three hash maps of slabs. */
    method ClearMaps()
      requires MapsValid()
      modifies compMetas, relation0, relation1
      ensures MapsValid()
      ensures compMetas.M == map[] && relation0.M == map[] && relation1.M == map[]
      ensures compMetas.A == map[] && relation0.A == map[] && relation1.A == map[]
      ensures compMetas.Repr == old(compMetas.Repr)
      ensures relation0.Repr == old(relation0.Repr) && relation1.Repr == old(relation1.Repr)
    {
      compMetas.Clear();
      relation0.Clear();
      relation1.Clear();
    }

    /** `clear`: every table emptied; entity keys start again from 0. */
    method Clear()
      requires Valid()
      modifies entities, compMetas, relation0, relation1
      ensures Valid()
      ensures Model() == Empty()
      ensures entities.Alloc() == Vacancy([], 0)
      ensures compMetas.A == map[] && relation0.A == map[] && relation1.A == map[]
      ensures Repr() == old(Repr())
    {
      entities.Clear();
      ClearMaps();
    }
  }

  /**
   * Keys carry no generation: once `remove_comp` frees a live component,
   * the next `insert_comp` of that kind by a live entity fills the same
   * slot, so the old key now names the new component.
   */
  method SlotReuse<C, K(==, !new)>(ecs: ECS<C, K>, key: (K, nat), e: nat, c: C) returns (gone: Option<C>, r: Option<(K, nat)>)
    requires ecs.Valid()
    modifies ecs.Repr()
    ensures ecs.Valid()
    ensures gone == old(EcsModel.GetComp(ecs.Model(), key))
    ensures r.Some? <==> e in old(ecs.Model()).entities
    ensures gone.Some? && r.Some? && ecs.kind(c) == key.0 ==> r == Some(key) && EcsModel.GetComp(ecs.Model(), key) == Some(c)
  {
    gone := ecs.RemoveComp(key);
    r := ecs.InsertComp(e, c);
  }

  /**
   * Entity keys carry no generation either: the key `remove_entity` frees
   * is the one the next `insert_entity` hands out, and the new entity
   * inherits the emptied index slabs of the old one, so it answers
   * `iter_comp_by_entity` with `Some` and nothing in it.
   */
  method EntityReuse<C, K(==, !new)>(ecs: ECS<C, K>, e: nat) returns (gone: Option<()>, f: nat)
    requires ecs.Valid()
    modifies ecs.Repr()
    ensures ecs.Valid()
    ensures gone.Some? <==> e in old(ecs.Model()).entities
    ensures gone.Some? ==> f == e && EcsModel.GetEntity(ecs.Model(), e) == Some(())
    ensures gone.Some? ==>
              forall k | k in old(ecs.Model()).compMetas && (e, k) in old(ecs.Model()).relation1 ::
                EcsModel.IterCompByEntity(ecs.Model(), e, k) == Some([])
  {
    ghost var t := ecs.Model();
    gone := ecs.RemoveEntity(e);
    f := ecs.InsertEntity();
    if gone.Some? {
      forall k | k in t.compMetas && (e, k) in t.relation1 ensures EcsModel.IterCompByEntity(ecs.Model(), e, k) == Some([]) {
        StaleIndexReused(t, e, k);
      }
    }
  }

  /** A store as `new` or `clear` leaves it hands out the entity keys 0 and then 1. */
  method TwoEntitiesExample<C, K(==, !new)>(ecs: ECS<C, K>) returns (e0: nat, e1: nat)
    requires ecs.Valid() && ecs.Model() == Empty() && ecs.entities.Alloc() == Vacancy([], 0)
    modifies ecs.entities
    ensures ecs.Valid()
    ensures e0 == 0 && e1 == 1
    ensures ecs.Model() == Empty().(entities := {0, 1})
    ensures ecs.entities.Alloc() == Vacancy([], 2)
  {
    e0 := ecs.InsertEntity();
    e1 := ecs.InsertEntity();
  }

  /**
   * The `iter_entity` example, on a store as `new` or `clear` leaves it:
   * the entity keys 0, 1 and 2 are handed out in turn and iterated in that
   * order.
   */
  method IterEntityExample<C, K(==, !new)>(ecs: ECS<C, K>) returns (keys: seq<nat>, listed: seq<nat>)
    requires ecs.Valid() && ecs.Model() == Empty() && ecs.entities.Alloc() == Vacancy([], 0)
    modifies ecs.entities
    ensures keys == [0, 1, 2]
    ensures listed == [0, 1, 2]
  {
    var e0, e1 := TwoEntitiesExample(ecs);
    var e2 := ecs.InsertEntity();
    keys := [e0, e1, e2];
    assert ecs.Model().entities == {0, 1, 2};
    listed := ecs.IterEntity();
    AscendingExample();
  }
}
