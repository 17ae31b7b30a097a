/**
 * The four tables of an `ECS<C, K>` as plain values, the consistency
 * invariant that ties them together, and every operation of the store as a
 * function from tables to tables. The class in module `Ecs` keeps a ghost
 * copy of these tables and proves each of its methods equal to the
 * function here; the lemmas below are then the store's guarantees.
 */
module EcsModel {
  import opened Options
  import opened KeyOrder
  import opened SlabMaps

  /** `CompMeta`: a stored component, its owner, and its slots in the owner's two relation slabs. */
  datatype CompMeta<C> = CompMeta(inner: C, entityKey: nat, relation0: nat, relation1: nat)

  /**
   * The live contents of the store's slabs. A slab is a map from slot to
   * value; a hash map of slabs is a map to such maps.
   *  - `entities`: the live entity keys;
   *  - `compMetas[k]`: the components of kind `k`, by slot;
   *  - `relation0[e]`: entity `e`'s directory, (kind, slot) of each of its components;
   *  - `relation1[(e, k)]`: the slots of `e`'s components of kind `k`.
   */
  datatype Tables<C, K(==)> = Tables(
    entities: set<nat>,
    compMetas: map<K, map<nat, CompMeta<C>>>,
    relation0: map<nat, map<nat, (K, nat)>>,
    relation1: map<(nat, K), map<nat, nat>>)

  /** Slot `s` of the kind-`k` store is live. */
  ghost predicate Stored<C, K>(t: Tables<C, K>, k: K, s: nat) {
    k in t.compMetas && s in t.compMetas[k]
  }

  /** The component at (k, s) has a live owner whose directory points back at (k, s). */
  ghost predicate DirectoryLinks<C, K>(t: Tables<C, K>, k: K, s: nat)
    requires Stored(t, k, s)
  {
    var m := t.compMetas[k][s];
    && m.entityKey in t.entities
    && m.entityKey in t.relation0
    && m.relation0 in t.relation0[m.entityKey]
    && t.relation0[m.entityKey][m.relation0] == (k, s)
  }

  /** The component at (k, s) is listed, under its `relation1` slot, in its owner's kind-`k` index. */
  ghost predicate IndexLinks<C, K>(t: Tables<C, K>, k: K, s: nat)
    requires Stored(t, k, s)
  {
    var m := t.compMetas[k][s];
    && (m.entityKey, k) in t.relation1
    && m.relation1 in t.relation1[(m.entityKey, k)]
    && t.relation1[(m.entityKey, k)][m.relation1] == s
  }

  /** Directory entry `d` of entity `e` names a live component owned by `e` that records `d`. */
  ghost predicate DirEntryLinked<C, K>(t: Tables<C, K>, e: nat, d: nat)
    requires e in t.relation0 && d in t.relation0[e]
  {
    var ks := t.relation0[e][d];
    && Stored(t, ks.0, ks.1)
    && t.compMetas[ks.0][ks.1].entityKey == e
    && t.compMetas[ks.0][ks.1].relation0 == d
  }

  /** Index entry `j` of `relation1[p]` names a live kind-`p.1` component owned by `p.0` that records `j`. */
  ghost predicate IndexEntryLinked<C, K>(t: Tables<C, K>, p: (nat, K), j: nat)
    requires p in t.relation1 && j in t.relation1[p]
  {
    var s := t.relation1[p][j];
    && Stored(t, p.1, s)
    && t.compMetas[p.1][s].entityKey == p.0
    && t.compMetas[p.1][s].relation1 == j
  }

  /**
   * The bidirectional invariant behind every `.check()`: each component is
   * owned by a live entity and listed in that entity's directory and index,
   * and each directory or index entry names a live component that lists
   * it back.
   */
  ghost predicate Consistent<C, K>(t: Tables<C, K>) {
    && t.relation0.Keys <= t.entities
    && (forall k, s {:trigger DirectoryLinks(t, k, s)} | k in t.compMetas && s in t.compMetas[k] :: DirectoryLinks(t, k, s))
    && (forall k, s {:trigger IndexLinks(t, k, s)} | k in t.compMetas && s in t.compMetas[k] :: IndexLinks(t, k, s))
    && (forall e, d {:trigger DirEntryLinked(t, e, d)} | e in t.relation0 && d in t.relation0[e] :: DirEntryLinked(t, e, d))
    && (forall p, j {:trigger IndexEntryLinked(t, p, j)} | p in t.relation1 && j in t.relation1[p] :: IndexEntryLinked(t, p, j))
  }

  // ----- Queries -------------------------------------------------------------------------------

  /** `get_entity`. */
  function GetEntity<C, K>(t: Tables<C, K>, e: nat): (r: Option<()>)
    ensures r.Some? <==> e in t.entities
  {
    if e in t.entities then Some(()) else None
  }

  /** `get_comp`: the component under (kind, slot), if that slot of that kind is live. */
  function GetComp<C, K>(t: Tables<C, K>, key: (K, nat)): (r: Option<C>)
    ensures r.Some? <==> Stored(t, key.0, key.1)
    ensures r.Some? ==> r.value == t.compMetas[key.0][key.1].inner
  {
    if key.0 in t.compMetas && key.1 in t.compMetas[key.0] then Some(t.compMetas[key.0][key.1].inner) else None
  }

  /** `get_entity_by_comp`: the owner of the component under (kind, slot). */
  function GetEntityByComp<C, K>(t: Tables<C, K>, key: (K, nat)): (r: Option<nat>)
    ensures r.Some? <==> Stored(t, key.0, key.1)
    ensures r.Some? ==> r.value == t.compMetas[key.0][key.1].entityKey
  {
    if key.0 in t.compMetas && key.1 in t.compMetas[key.0] then Some(t.compMetas[key.0][key.1].entityKey) else None
  }

  /** The values of a sequence of stored components. */
  function Inner<C>(ms: seq<CompMeta<C>>): (r: seq<C>)
    ensures |r| == |ms|
    ensures forall i | 0 <= i < |ms| :: r[i] == ms[i].inner
  {
    seq(|ms|, i requires 0 <= i < |ms| => ms[i].inner)
  }

  /** The values of the components of a slab of metas, in the order of `slots`. */
  function Inners<C>(slab: map<nat, CompMeta<C>>, slots: seq<nat>): (r: seq<C>)
    requires forall i | 0 <= i < |slots| :: slots[i] in slab
    ensures |r| == |slots|
    ensures forall i | 0 <= i < |slots| :: r[i] == slab[slots[i]].inner
  {
    seq(|slots|, i requires 0 <= i < |slots| => slab[slots[i]].inner)
  }

  /**
   * `iter_comp`: the components of kind `k` in ascending slot order, or
   * `None` when no store for `k` exists.
   */
  ghost function IterComp<C, K>(t: Tables<C, K>, k: K): (r: Option<seq<C>>)
    ensures r.Some? <==> k in t.compMetas
    ensures r.Some? ==> |r.value| == |t.compMetas[k]|
  {
    if k !in t.compMetas then None else Some(Inner(Values(Listing(t.compMetas[k]))))
  }

  /** The comp slots listed in `e`'s kind-`k` index, in ascending index order. */
  ghost function SlotsOf<C, K>(t: Tables<C, K>, e: nat, k: K): (r: seq<nat>)
    requires (e, k) in t.relation1
    ensures |r| == |t.relation1[(e, k)]|
  {
    Values(Listing(t.relation1[(e, k)]))
  }

  /**
   * `iter_comp_by_entity`: `e`'s components of kind `k` in index order, or
   * `None` when there is no store for `k` or no index for (e, k).
   */
  ghost function IterCompByEntity<C, K>(t: Tables<C, K>, e: nat, k: K): (r: Option<seq<C>>)
    requires Consistent(t)
    ensures r.Some? <==> k in t.compMetas && (e, k) in t.relation1
    ensures r.Some? ==> |r.value| == |t.relation1[(e, k)]|
  {
    if k !in t.compMetas || (e, k) !in t.relation1 then None
    else
      IndexIsStored(t, e, k);
      Some(Inners(t.compMetas[k], SlotsOf(t, e, k)))
  }

  /** Every slot an index lists is live in the kind's store (the `.check()` of `iter_comp_by_entity`). */
  lemma IndexIsStored<C, K>(t: Tables<C, K>, e: nat, k: K)
    requires Consistent(t) && (e, k) in t.relation1
    ensures k in t.compMetas || t.relation1[(e, k)] == map[]
    ensures forall i | 0 <= i < |SlotsOf(t, e, k)| :: Stored(t, k, SlotsOf(t, e, k)[i])
  {
    var m := t.relation1[(e, k)];
    var l := Listing(m);
    ListingHolds(m);
    forall i | 0 <= i < |SlotsOf(t, e, k)| ensures Stored(t, k, SlotsOf(t, e, k)[i]) {
      assert IndexEntryLinked(t, (e, k), l[i].0);
    }
    if m != map[] {
      var j :| j in m;
      assert IndexEntryLinked(t, (e, k), j);
    }
  }

  /**
   * What `iter_comp(k)` yields: the value of every live kind-`k` component,
   * each once, in ascending slot order.
   */
  lemma IterCompInSlotOrder<C, K>(t: Tables<C, K>, k: K)
    requires k in t.compMetas
    ensures Increasing(Ascending(t.compMetas[k].Keys))
    ensures forall s :: s in Ascending(t.compMetas[k].Keys) <==> s in t.compMetas[k]
    ensures |IterComp(t, k).value| == |Ascending(t.compMetas[k].Keys)|
    ensures forall i | 0 <= i < |IterComp(t, k).value| ::
              IterComp(t, k).value[i] == t.compMetas[k][Ascending(t.compMetas[k].Keys)[i]].inner
  {
    var m := t.compMetas[k];
    var l := Listing(m);
    AscendingSpec(m.Keys);
    ListingKeys(m);
    ListingHolds(m);
    forall i | 0 <= i < |l| ensures IterComp(t, k).value[i] == m[Ascending(m.Keys)[i]].inner {
      assert Keys(l)[i] == l[i].0;
    }
  }

  // ----- Operations ----------------------------------------------------------------------------

  /** The tables of `ECS::new`, and the tables `clear` leaves behind. */
  function Empty<C, K(!new)>(): (r: Tables<C, K>)
    ensures Consistent(r)
    ensures forall e :: GetEntity(r, e) == None
    ensures forall key :: GetComp(r, key) == None && GetEntityByComp(r, key) == None
    ensures forall k :: IterComp(r, k) == None
    ensures forall e, k :: IterCompByEntity(r, e, k) == None
    ensures Ascending(r.entities) == []
  {
    Tables({}, map[], map[], map[])
  }

  /** `insert_entity`, given the key `e` the entity slab hands out. */
  function InsertEntity<C, K>(t: Tables<C, K>, e: nat): (r: Tables<C, K>)
    ensures GetEntity(r, e) == Some(())
    ensures forall e' | e' != e :: GetEntity(r, e') == GetEntity(t, e')
  {
    t.(entities := t.entities + {e})
  }

  /**
   * The success branch of `insert_comp`: the component `c` of kind `k`,
   * owned by `e`, goes to slot `s` of its kind's store; `e`'s directory
   * records (k, s) at slot `d` and `e`'s kind-`k` index records `s` at
   * slot `j`. Absent slabs are created empty first.
   */
  function InsertComp<C, K>(t: Tables<C, K>, e: nat, c: C, k: K, s: nat, d: nat, j: nat): (r: Tables<C, K>)
    ensures GetComp(r, (k, s)) == Some(c)
    ensures GetEntityByComp(r, (k, s)) == Some(e)
  {
    t.(compMetas := t.compMetas[k := OrEmpty(t.compMetas, k)[s := CompMeta(c, e, d, j)]],
       relation0 := t.relation0[e := OrEmpty(t.relation0, e)[d := (k, s)]],
       relation1 := t.relation1[(e, k) := OrEmpty(t.relation1, (e, k))[j := s]])
  }

  /**
   * `remove_comp`: the component leaves its kind's store, its owner's
   * directory and its owner's index; a key that names no live component
   * changes nothing.
   */
  ghost function RemoveComp<C, K>(t: Tables<C, K>, key: (K, nat)): (r: Tables<C, K>)
    requires Consistent(t)
    ensures GetComp(r, key) == None && GetEntityByComp(r, key) == None
  {
    var (k, s) := key;
    if k in t.compMetas && s in t.compMetas[k] then
      var m := t.compMetas[k][s];
      assert DirectoryLinks(t, k, s) && IndexLinks(t, k, s);
      t.(compMetas := t.compMetas[k := t.compMetas[k] - {s}],
         relation0 := t.relation0[m.entityKey := t.relation0[m.entityKey] - {m.relation0}],
         relation1 := t.relation1[(m.entityKey, k) := t.relation1[(m.entityKey, k)] - {m.relation1}])
    else t
  }

  /**
   * One turn of `remove_entity`'s loop, for the directory entry (k, s) of
   * the removed entity `e`: the component leaves its kind's store and `e`'s
   * kind-`k` index. Under `Consistent` both slots are always there (the two
   * `.check()` calls). Otherwise the source would panic; here a stored
   * component without an index entry still leaves its store, and an
   * absent one changes nothing.
   */
  function Drop<C, K>(t: Tables<C, K>, e: nat, ks: (K, nat)): (r: Tables<C, K>)
    ensures !Stored(r, ks.0, ks.1)
    ensures r.entities == t.entities && r.relation0 == t.relation0
    ensures r.compMetas.Keys == t.compMetas.Keys && r.relation1.Keys == t.relation1.Keys
  {
    var (k, s) := ks;
    if k in t.compMetas && s in t.compMetas[k] && (e, k) in t.relation1 then
      var m := t.compMetas[k][s];
      t.(compMetas := t.compMetas[k := t.compMetas[k] - {s}],
         relation1 := t.relation1[(e, k) := t.relation1[(e, k)] - {m.relation1}])
    else if k in t.compMetas then
      t.(compMetas := t.compMetas[k := t.compMetas[k] - {s}])
    else t
  }

  /** `remove_entity`'s loop run over the directory entries `l`, first to last. */
  function Cascade<C, K>(t: Tables<C, K>, e: nat, l: seq<(K, nat)>): (r: Tables<C, K>)
    ensures r.entities == t.entities && r.relation0 == t.relation0
    ensures r.compMetas.Keys == t.compMetas.Keys && r.relation1.Keys == t.relation1.Keys
    decreases |l|
  {
    if l == [] then t else Cascade(Drop(t, e, l[0]), e, l[1..])
  }

  /** The entries of `e`'s directory, in the ascending slot order in which a slab yields them. */
  ghost function Directory<C, K>(t: Tables<C, K>, e: nat): (r: seq<(K, nat)>)
    ensures |r| == |OrEmpty(t.relation0, e)|
  {
    Values(Listing(OrEmpty(t.relation0, e)))
  }

  /**
   * `remove_entity`: a live entity leaves the entity slab, its directory is
   * taken out of `relation0`, and the loop drops every component the
   * directory lists. The index slabs of `e` stay, emptied.
   */
  ghost function RemoveEntity<C, K>(t: Tables<C, K>, e: nat): (r: Tables<C, K>)
    ensures GetEntity(r, e) == None
  {
    if e !in t.entities then t
    else Cascade(t.(entities := t.entities - {e}, relation0 := t.relation0 - {e}), e, Directory(t, e))
  }

  // ----- remove_entity, turn by turn ----------------------------------------------------------

  /**
   * The links part-way through `remove_entity(e)`: `e` and its directory
   * are gone; every other part of `Consistent` holds, except that the
   * components `e` still owns have no directory to point back at them.
   */
  ghost predicate CascadeLinks<C, K>(t: Tables<C, K>, e: nat) {
    && e !in t.entities && e !in t.relation0
    && t.relation0.Keys <= t.entities
    && (forall k, s {:trigger DirectoryLinks(t, k, s)} | k in t.compMetas && s in t.compMetas[k] && t.compMetas[k][s].entityKey != e :: DirectoryLinks(t, k, s))
    && (forall k, s {:trigger IndexLinks(t, k, s)} | k in t.compMetas && s in t.compMetas[k] :: IndexLinks(t, k, s))
    && (forall e', d {:trigger DirEntryLinked(t, e', d)} | e' in t.relation0 && d in t.relation0[e'] :: DirEntryLinked(t, e', d))
    && (forall p, j {:trigger IndexEntryLinked(t, p, j)} | p in t.relation1 && j in t.relation1[p] :: IndexEntryLinked(t, p, j))
  }

  /** The components `e` still owns are exactly the distinct entries `rest`. */
  ghost predicate Pending<C, K>(t: Tables<C, K>, e: nat, rest: seq<(K, nat)>) {
    && (forall k, s | k in t.compMetas && s in t.compMetas[k] && t.compMetas[k][s].entityKey == e :: (k, s) in rest)
    && (forall i | 0 <= i < |rest| :: Stored(t, rest[i].0, rest[i].1) && t.compMetas[rest[i].0][rest[i].1].entityKey == e)
    && Distinct(rest)
  }

  /** The tables part-way through `remove_entity(e)`, with the directory entries `rest` still to visit. */
  ghost predicate Cascading<C, K>(t: Tables<C, K>, e: nat, rest: seq<(K, nat)>) {
    CascadeLinks(t, e) && Pending(t, e, rest)
  }

  /** The directory of a live entity lists, once each, exactly the components it owns. */
  lemma DirectoryListsOwned<C, K>(t: Tables<C, K>, e: nat)
    requires Consistent(t) && e in t.entities
    ensures forall k, s | k in t.compMetas && s in t.compMetas[k] && t.compMetas[k][s].entityKey == e :: (k, s) in Directory(t, e)
    ensures forall i | 0 <= i < |Directory(t, e)| :: Stored(t, Directory(t, e)[i].0, Directory(t, e)[i].1) && t.compMetas[Directory(t, e)[i].0][Directory(t, e)[i].1].entityKey == e
    ensures Distinct(Directory(t, e))
  {
    var dir := OrEmpty(t.relation0, e);
    var l := Listing(dir);
    var rest := Directory(t, e);
    ListingHolds(dir);
    forall k, s | k in t.compMetas && s in t.compMetas[k] && t.compMetas[k][s].entityKey == e
      ensures (k, s) in rest
    {
      assert DirectoryLinks(t, k, s);
      var d := t.compMetas[k][s].relation0;
      var i :| 0 <= i < |l| && Keys(l)[i] == d;
      assert rest[i] == (k, s);
    }
    forall i | 0 <= i < |rest|
      ensures Stored(t, rest[i].0, rest[i].1) && t.compMetas[rest[i].0][rest[i].1].entityKey == e
    {
      assert DirEntryLinked(t, e, l[i].0);
    }
    forall i, i' | 0 <= i < i' < |rest| ensures rest[i] != rest[i'] {
      assert DirEntryLinked(t, e, l[i].0) && DirEntryLinked(t, e, l[i'].0);
      assert Keys(l)[i] < Keys(l)[i'];
    }
  }

  /** Taking a live entity and its directory out leaves every link but the directory's. */
  lemma CascadeStartLinks<C, K>(t: Tables<C, K>, e: nat, u: Tables<C, K>)
    requires Consistent(t)
    requires u == t.(entities := t.entities - {e}, relation0 := t.relation0 - {e})
    ensures CascadeLinks(u, e)
  {
    forall k, s | k in u.compMetas && s in u.compMetas[k] && u.compMetas[k][s].entityKey != e
      ensures DirectoryLinks(u, k, s)
    {
      assert DirectoryLinks(t, k, s);
    }
    forall k, s | k in u.compMetas && s in u.compMetas[k] ensures IndexLinks(u, k, s) {
      assert IndexLinks(t, k, s);
    }
    forall e', d | e' in u.relation0 && d in u.relation0[e'] ensures DirEntryLinked(u, e', d) {
      assert DirEntryLinked(t, e', d);
    }
    forall p, j | p in u.relation1 && j in u.relation1[p] ensures IndexEntryLinked(u, p, j) {
      assert IndexEntryLinked(t, p, j);
    }
  }

  /** Taking a live entity and its directory out starts the loop with the whole directory to visit. */
  lemma CascadeStart<C, K>(t: Tables<C, K>, e: nat)
    requires Consistent(t) && e in t.entities
    ensures Cascading(t.(entities := t.entities - {e}, relation0 := t.relation0 - {e}), e, Directory(t, e))
  {
    var u := t.(entities := t.entities - {e}, relation0 := t.relation0 - {e});
    CascadeStartLinks(t, e, u);
    DirectoryListsOwned(t, e);
    assert u.compMetas == t.compMetas;
  }

  /** One turn of the loop keeps every link of the components and entries that remain. */
  lemma DropLinks<C, K>(u: Tables<C, K>, e: nat, k: K, s: nat)
    requires CascadeLinks(u, e)
    requires Stored(u, k, s) && u.compMetas[k][s].entityKey == e
    ensures CascadeLinks(Drop(u, e, (k, s)), e)
  {
    assert IndexLinks(u, k, s);
    var m := u.compMetas[k][s];
    var v := Drop(u, e, (k, s));
    assert v == u.(compMetas := u.compMetas[k := u.compMetas[k] - {s}],
                   relation1 := u.relation1[(e, k) := u.relation1[(e, k)] - {m.relation1}]);
    forall k', s' | k' in v.compMetas && s' in v.compMetas[k'] && v.compMetas[k'][s'].entityKey != e
      ensures DirectoryLinks(v, k', s')
    {
      assert DirectoryLinks(u, k', s');
    }
    forall k', s' | k' in v.compMetas && s' in v.compMetas[k'] ensures IndexLinks(v, k', s') {
      assert IndexLinks(u, k', s');
    }
    forall e', d | e' in v.relation0 && d in v.relation0[e'] ensures DirEntryLinked(v, e', d) {
      assert DirEntryLinked(u, e', d);
    }
    forall p, j | p in v.relation1 && j in v.relation1[p] ensures IndexEntryLinked(v, p, j) {
      assert IndexEntryLinked(u, p, j);
    }
  }

  /** One turn of the loop takes its entry off the components still to visit. */
  lemma DropPending<C, K>(u: Tables<C, K>, e: nat, rest: seq<(K, nat)>)
    requires Pending(u, e, rest) && rest != []
    ensures Pending(Drop(u, e, rest[0]), e, rest[1..])
  {
    var v := Drop(u, e, rest[0]);
    forall k, s | k in v.compMetas && s in v.compMetas[k] && v.compMetas[k][s].entityKey == e
      ensures (k, s) in rest[1..]
    {
      assert (k, s) in rest && (k, s) != rest[0];
      var i :| 0 <= i < |rest| && rest[i] == (k, s);
      assert rest[1..][i - 1] == (k, s);
    }
    forall i | 0 <= i < |rest[1..]|
      ensures Stored(v, rest[1..][i].0, rest[1..][i].1) && v.compMetas[rest[1..][i].0][rest[1..][i].1].entityKey == e
    {
      assert rest[1..][i] == rest[i + 1] != rest[0];
    }
  }

  /** One turn of the loop, both halves. */
  lemma CascadeStep<C, K>(u: Tables<C, K>, e: nat, rest: seq<(K, nat)>)
    requires Cascading(u, e, rest) && rest != []
    ensures Cascading(Drop(u, e, rest[0]), e, rest[1..])
  {
    DropLinks(u, e, rest[0].0, rest[0].1);
    DropPending(u, e, rest);
  }

  /**
   * `b` is `a` with some of `e`'s components and their index entries
   * dropped: nothing else differs.
   */
  ghost predicate Trimmed<C, K>(a: Tables<C, K>, b: Tables<C, K>, e: nat) {
    && b.entities == a.entities && b.relation0 == a.relation0
    && b.compMetas.Keys == a.compMetas.Keys && b.relation1.Keys == a.relation1.Keys
    && (forall k, s | k in b.compMetas && s in b.compMetas[k] :: s in a.compMetas[k] && b.compMetas[k][s] == a.compMetas[k][s])
    && (forall k, s | k in a.compMetas && s in a.compMetas[k] && a.compMetas[k][s].entityKey != e :: s in b.compMetas[k])
    && (forall p | p in a.relation1 && p.0 != e :: b.relation1[p] == a.relation1[p])
  }

  /** A turn of the loop drops one of `e`'s components and touches nothing else. */
  lemma DropTrimmed<C, K>(a: Tables<C, K>, u: Tables<C, K>, e: nat, k: K, s: nat)
    requires Trimmed(a, u, e)
    requires Stored(u, k, s) && u.compMetas[k][s].entityKey == e && (e, k) in u.relation1
    ensures Trimmed(a, Drop(u, e, (k, s)), e)
  {
    var m := u.compMetas[k][s];
    var v := Drop(u, e, (k, s));
    assert v == u.(compMetas := u.compMetas[k := u.compMetas[k] - {s}],
                   relation1 := u.relation1[(e, k) := u.relation1[(e, k)] - {m.relation1}]);
    forall k', s' | k' in v.compMetas && s' in v.compMetas[k']
      ensures s' in a.compMetas[k'] && v.compMetas[k'][s'] == a.compMetas[k'][s']
    {
      assert s' in u.compMetas[k'];
    }
    forall k', s' | k' in a.compMetas && s' in a.compMetas[k'] && a.compMetas[k'][s'].entityKey != e
      ensures s' in v.compMetas[k']
    {
      assert s' in u.compMetas[k'];
    }
    forall p | p in a.relation1 && p.0 != e ensures v.relation1[p] == a.relation1[p] {
      assert v.relation1[p] == u.relation1[p];
    }
  }

  /** The rest of the loop, from any state part-way through it, restores the invariant and drops only `e`'s components. */
  lemma {:induction false} CascadeFrom<C, K>(a: Tables<C, K>, t: Tables<C, K>, e: nat, l: seq<(K, nat)>)
    requires Trimmed(a, t, e) && Cascading(t, e, l)
    ensures Cascading(Cascade(t, e, l), e, [])
    ensures Trimmed(a, Cascade(t, e, l), e)
    decreases |l|
  {
    if l != [] {
      CascadeStep(t, e, l);
      assert IndexLinks(t, l[0].0, l[0].1);
      DropTrimmed(a, t, e, l[0].0, l[0].1);
      CascadeFrom(a, Drop(t, e, l[0]), e, l[1..]);
    }
  }

  /** With nothing left to visit, the invariant holds again and `e` owns nothing. */
  lemma CascadeEnd<C, K>(t: Tables<C, K>, e: nat)
    requires Cascading(t, e, [])
    ensures Consistent(t)
    ensures forall k, s | k in t.compMetas && s in t.compMetas[k] :: t.compMetas[k][s].entityKey != e
    ensures forall p, j | p in t.relation1 && j in t.relation1[p] :: p.0 != e
  {
    forall k, s | k in t.compMetas && s in t.compMetas[k] ensures DirectoryLinks(t, k, s) {
      assert (k, s) !in [];
    }
    forall p, j | p in t.relation1 && j in t.relation1[p] ensures p.0 != e {
      assert IndexEntryLinked(t, p, j);
    }
  }

  /** The loop of `remove_entity` ends with the invariant restored and only `e`'s components dropped. */
  lemma RemovedState<C, K>(t: Tables<C, K>, e: nat, u: Tables<C, K>, l: seq<(K, nat)>)
    requires Consistent(t) && e in t.entities
    requires u == t.(entities := t.entities - {e}, relation0 := t.relation0 - {e})
    requires l == Directory(t, e)
    ensures Cascading(Cascade(u, e, l), e, [])
    ensures Trimmed(u, Cascade(u, e, l), e)
  {
    CascadeStart(t, e);
    CascadeFrom(u, u, e, l);
  }

  /** What the lookups see in tables trimmed of all of `e`'s components. */
  lemma TrimmedQueries<C, K>(t: Tables<C, K>, e: nat, r: Tables<C, K>)
    requires Consistent(t) && e in t.entities
    requires Cascading(r, e, [])
    requires Trimmed(t.(entities := t.entities - {e}, relation0 := t.relation0 - {e}), r, e)
    ensures Consistent(r)
    ensures forall key :: GetComp(r, key) == if GetEntityByComp(t, key) == Some(e) then None else GetComp(t, key)
    ensures forall key :: GetEntityByComp(r, key) == if GetEntityByComp(t, key) == Some(e) then None else GetEntityByComp(t, key)
    ensures forall p | p in t.relation1 && p.0 != e :: r.relation1[p] == t.relation1[p]
    ensures forall p | p in t.relation1 && p.0 == e :: r.relation1[p] == map[]
  {
    CascadeEnd(r, e);
    forall key ensures GetComp(r, key) == if GetEntityByComp(t, key) == Some(e) then None else GetComp(t, key) {
      if Stored(r, key.0, key.1) {
        assert r.compMetas[key.0][key.1] == t.compMetas[key.0][key.1];
      }
    }
    forall key ensures GetEntityByComp(r, key) == if GetEntityByComp(t, key) == Some(e) then None else GetEntityByComp(t, key) {
      if Stored(r, key.0, key.1) {
        assert r.compMetas[key.0][key.1] == t.compMetas[key.0][key.1];
      }
    }
    forall p | p in t.relation1 && p.0 == e ensures r.relation1[p] == map[] {
      assert forall j :: j !in r.relation1[p];
    }
  }

  /**
   * `remove_entity` on a live entity: the invariant still holds, the entity
   * and its directory are gone, exactly the components it owned are gone,
   * every other component keeps its slot, value and owner, and its index
   * slabs remain in place, emptied.
   */
  lemma RemoveEntityEffect<C, K>(t: Tables<C, K>, e: nat)
    requires Consistent(t) && e in t.entities
    ensures Consistent(RemoveEntity(t, e))
    ensures RemoveEntity(t, e).entities == t.entities - {e}
    ensures RemoveEntity(t, e).relation0 == t.relation0 - {e}
    ensures RemoveEntity(t, e).compMetas.Keys == t.compMetas.Keys
    ensures forall key :: GetComp(RemoveEntity(t, e), key) == if GetEntityByComp(t, key) == Some(e) then None else GetComp(t, key)
    ensures forall key :: GetEntityByComp(RemoveEntity(t, e), key) == if GetEntityByComp(t, key) == Some(e) then None else GetEntityByComp(t, key)
    ensures RemoveEntity(t, e).relation1.Keys == t.relation1.Keys
    ensures forall p | p in t.relation1 && p.0 != e :: RemoveEntity(t, e).relation1[p] == t.relation1[p]
    ensures forall p | p in t.relation1 && p.0 == e :: RemoveEntity(t, e).relation1[p] == map[]
  {
    var u := t.(entities := t.entities - {e}, relation0 := t.relation0 - {e});
    var r := Cascade(u, e, Directory(t, e));
    RemovedState(t, e, u, Directory(t, e));
    TrimmedQueries(t, e, r);
  }

  /**
   * Once `e` has held a component of kind `k`, `iter_comp_by_entity(e, k)`
   * keeps answering `Some` after `e` is removed, with nothing in it: the
   * emptied index slab is not taken out.
   */
  lemma StaleIndex<C, K>(t: Tables<C, K>, e: nat, k: K)
    requires Consistent(t) && e in t.entities
    requires k in t.compMetas && (e, k) in t.relation1
    ensures Consistent(RemoveEntity(t, e))
    ensures GetEntity(RemoveEntity(t, e), e) == None
    ensures IterCompByEntity(RemoveEntity(t, e), e, k) == Some([])
  {
    RemoveEntityEffect(t, e);
  }

  /**
   * When `insert_entity` hands the removed key `e` out again, the new
   * entity inherits that empty index: it owns nothing, yet answers `Some`.
   */
  lemma StaleIndexReused<C, K>(t: Tables<C, K>, e: nat, k: K)
    requires Consistent(t) && e in t.entities
    requires k in t.compMetas && (e, k) in t.relation1
    ensures Consistent(InsertEntity(RemoveEntity(t, e), e))
    ensures GetEntity(InsertEntity(RemoveEntity(t, e), e), e) == Some(())
    ensures IterCompByEntity(InsertEntity(RemoveEntity(t, e), e), e, k) == Some([])
  {
    StaleIndex(t, e, k);
    InsertEntityEffect(RemoveEntity(t, e), e);
  }

  // ----- insert_comp, remove_comp --------------------------------------------------------------

  /** The freshness `vacant_key` guarantees for the three slots `insert_comp` fills. */
  ghost predicate FreshSlots<C, K>(t: Tables<C, K>, e: nat, k: K, s: nat, d: nat, j: nat) {
    s !in OrEmpty(t.compMetas, k) && d !in OrEmpty(t.relation0, e) && j !in OrEmpty(t.relation1, (e, k))
  }

  /** Every component, old or new, is linked from its owner's directory and index after an insert. */
  lemma InsertCompLinks<C, K>(t: Tables<C, K>, e: nat, c: C, k: K, s: nat, d: nat, j: nat)
    requires Consistent(t) && e in t.entities && FreshSlots(t, e, k, s, d, j)
    ensures forall k', s': nat {:trigger DirectoryLinks(InsertComp(t, e, c, k, s, d, j), k', s')}
      | Stored(InsertComp(t, e, c, k, s, d, j), k', s') :: DirectoryLinks(InsertComp(t, e, c, k, s, d, j), k', s')
    ensures forall k', s': nat {:trigger IndexLinks(InsertComp(t, e, c, k, s, d, j), k', s')}
      | Stored(InsertComp(t, e, c, k, s, d, j), k', s') :: IndexLinks(InsertComp(t, e, c, k, s, d, j), k', s')
  {
    var r := InsertComp(t, e, c, k, s, d, j);
    forall k', s': nat | Stored(r, k', s') ensures DirectoryLinks(r, k', s') && IndexLinks(r, k', s') {
      if (k', s') != (k, s) {
        assert Stored(t, k', s');
        assert DirectoryLinks(t, k', s') && IndexLinks(t, k', s');
      }
    }
  }

  /** Every directory and index entry, old or new, names a component that lists it back after an insert. */
  lemma InsertCompEntries<C, K>(t: Tables<C, K>, e: nat, c: C, k: K, s: nat, d: nat, j: nat)
    requires Consistent(t) && e in t.entities && FreshSlots(t, e, k, s, d, j)
    ensures forall e', d' {:trigger DirEntryLinked(InsertComp(t, e, c, k, s, d, j), e', d')}
      | e' in InsertComp(t, e, c, k, s, d, j).relation0 && d' in InsertComp(t, e, c, k, s, d, j).relation0[e']
      :: DirEntryLinked(InsertComp(t, e, c, k, s, d, j), e', d')
    ensures forall p, j' {:trigger IndexEntryLinked(InsertComp(t, e, c, k, s, d, j), p, j')}
      | p in InsertComp(t, e, c, k, s, d, j).relation1 && j' in InsertComp(t, e, c, k, s, d, j).relation1[p]
      :: IndexEntryLinked(InsertComp(t, e, c, k, s, d, j), p, j')
  {
    var r := InsertComp(t, e, c, k, s, d, j);
    forall e', d' | e' in r.relation0 && d' in r.relation0[e'] ensures DirEntryLinked(r, e', d') {
      if (e', d') != (e, d) {
        assert DirEntryLinked(t, e', d');
      }
    }
    forall p, j' | p in r.relation1 && j' in r.relation1[p] ensures IndexEntryLinked(r, p, j') {
      if (p, j') != ((e, k), j) {
        assert IndexEntryLinked(t, p, j');
      }
    }
  }

  /**
   * `insert_comp` on a live entity with the slots the slabs hand out keeps
   * the invariant, creates the kind's store if it was absent, and leaves
   * every other key's component and owner as they were.
   */
  lemma InsertCompEffect<C, K>(t: Tables<C, K>, e: nat, c: C, k: K, s: nat, d: nat, j: nat)
    requires Consistent(t) && e in t.entities && FreshSlots(t, e, k, s, d, j)
    ensures Consistent(InsertComp(t, e, c, k, s, d, j))
    ensures InsertComp(t, e, c, k, s, d, j).entities == t.entities
    ensures InsertComp(t, e, c, k, s, d, j).compMetas.Keys == t.compMetas.Keys + {k}
    ensures forall key | key != (k, s) :: GetComp(InsertComp(t, e, c, k, s, d, j), key) == GetComp(t, key)
    ensures forall key | key != (k, s) :: GetEntityByComp(InsertComp(t, e, c, k, s, d, j), key) == GetEntityByComp(t, key)
  {
    InsertCompLinks(t, e, c, k, s, d, j);
    InsertCompEntries(t, e, c, k, s, d, j);
  }

  /** Every remaining component is still linked from its owner's directory and index after a removal. */
  lemma RemoveCompLinks<C, K>(t: Tables<C, K>, key: (K, nat))
    requires Consistent(t)
    ensures forall k', s': nat {:trigger DirectoryLinks(RemoveComp(t, key), k', s')}
      | Stored(RemoveComp(t, key), k', s') :: DirectoryLinks(RemoveComp(t, key), k', s')
    ensures forall k', s': nat {:trigger IndexLinks(RemoveComp(t, key), k', s')}
      | Stored(RemoveComp(t, key), k', s') :: IndexLinks(RemoveComp(t, key), k', s')
  {
    var r := RemoveComp(t, key);
    if Stored(t, key.0, key.1) {
      assert DirectoryLinks(t, key.0, key.1) && IndexLinks(t, key.0, key.1);
      forall k', s': nat | Stored(r, k', s') ensures DirectoryLinks(r, k', s') && IndexLinks(r, k', s') {
        assert Stored(t, k', s');
        assert DirectoryLinks(t, k', s') && IndexLinks(t, k', s');
      }
    } else {
      forall k', s': nat | Stored(r, k', s') ensures DirectoryLinks(r, k', s') && IndexLinks(r, k', s') {
        assert DirectoryLinks(t, k', s') && IndexLinks(t, k', s');
      }
    }
  }

  /** Every remaining directory and index entry still names a component that lists it back after a removal. */
  lemma RemoveCompEntries<C, K>(t: Tables<C, K>, key: (K, nat))
    requires Consistent(t)
    ensures forall e', d' {:trigger DirEntryLinked(RemoveComp(t, key), e', d')}
      | e' in RemoveComp(t, key).relation0 && d' in RemoveComp(t, key).relation0[e']
      :: DirEntryLinked(RemoveComp(t, key), e', d')
    ensures forall p, j' {:trigger IndexEntryLinked(RemoveComp(t, key), p, j')}
      | p in RemoveComp(t, key).relation1 && j' in RemoveComp(t, key).relation1[p]
      :: IndexEntryLinked(RemoveComp(t, key), p, j')
  {
    var r := RemoveComp(t, key);
    if Stored(t, key.0, key.1) {
      assert DirectoryLinks(t, key.0, key.1) && IndexLinks(t, key.0, key.1);
    }
    forall e', d' | e' in r.relation0 && d' in r.relation0[e'] ensures DirEntryLinked(r, e', d') {
      assert DirEntryLinked(t, e', d');
    }
    forall p, j' | p in r.relation1 && j' in r.relation1[p] ensures IndexEntryLinked(r, p, j') {
      assert IndexEntryLinked(t, p, j');
    }
  }

  /**
   * `remove_comp` keeps the invariant, keeps every entity and every kind's
   * store, leaves every other key's component and owner as they were, and a
   * second removal of the same key changes nothing.
   */
  lemma RemoveCompEffect<C, K>(t: Tables<C, K>, key: (K, nat))
    requires Consistent(t)
    ensures Consistent(RemoveComp(t, key))
    ensures RemoveComp(t, key).entities == t.entities
    ensures RemoveComp(t, key).compMetas.Keys == t.compMetas.Keys
    ensures forall key' | key' != key :: GetComp(RemoveComp(t, key), key') == GetComp(t, key')
    ensures forall key' | key' != key :: GetEntityByComp(RemoveComp(t, key), key') == GetEntityByComp(t, key')
    ensures RemoveComp(RemoveComp(t, key), key) == RemoveComp(t, key)
    ensures forall f: C -> C :: UpdateComp(RemoveComp(t, key), key, f) == RemoveComp(t, key)
  {
    RemoveCompLinks(t, key);
    RemoveCompEntries(t, key);
    if Stored(t, key.0, key.1) {
      assert DirectoryLinks(t, key.0, key.1);
    }
  }

  // ----- insert_entity, iter_comp_by_entity ----------------------------------------------------

  /**
   * `insert_entity` with a key the entity slab hands out keeps the
   * invariant, and the new entity starts with no directory and no
   * components, even when its key is a reused one; an index slab left
   * behind by the key's previous holder is empty.
   */
  lemma InsertEntityEffect<C, K>(t: Tables<C, K>, e: nat)
    requires Consistent(t) && e !in t.entities
    ensures Consistent(InsertEntity(t, e))
    ensures e !in InsertEntity(t, e).relation0
    ensures forall key :: GetEntityByComp(InsertEntity(t, e), key) != Some(e)
    ensures forall p, j | p in InsertEntity(t, e).relation1 && j in InsertEntity(t, e).relation1[p] :: p.0 != e
  {
    var r := InsertEntity(t, e);
    forall k, s | k in r.compMetas && s in r.compMetas[k] ensures DirectoryLinks(r, k, s) && IndexLinks(r, k, s) {
      assert DirectoryLinks(t, k, s) && IndexLinks(t, k, s);
    }
    forall e', d | e' in r.relation0 && d in r.relation0[e'] ensures DirEntryLinked(r, e', d) {
      assert DirEntryLinked(t, e', d);
    }
    forall p, j | p in r.relation1 && j in r.relation1[p] ensures IndexEntryLinked(r, p, j) && p.0 != e {
      assert IndexEntryLinked(t, p, j);
      assert DirectoryLinks(t, p.1, t.relation1[p][j]);
    }
    forall key ensures GetEntityByComp(r, key) != Some(e) {
      if Stored(t, key.0, key.1) {
        assert DirectoryLinks(t, key.0, key.1);
      }
    }
  }

  /**
   * The life of an entity: live after `insert_entity`, gone after the
   * first `remove_entity`; the second `remove_entity` finds nothing and
   * changes nothing.
   */
  lemma EntityLifecycle<C, K>(t: Tables<C, K>, e: nat)
    requires Consistent(t) && e !in t.entities
    ensures GetEntity(InsertEntity(t, e), e) == Some(())
    ensures Consistent(RemoveEntity(InsertEntity(t, e), e))
    ensures GetEntity(RemoveEntity(InsertEntity(t, e), e), e) == None
    ensures RemoveEntity(RemoveEntity(InsertEntity(t, e), e), e) == RemoveEntity(InsertEntity(t, e), e)
  {
    InsertEntityEffect(t, e);
    RemoveEntityEffect(InsertEntity(t, e), e);
  }

  /**
   * What `iter_comp_by_entity(e, k)` walks: the slots `e`'s kind-`k` index
   * lists are exactly the live kind-`k` components `e` owns, each once; an
   * entity without such an index owns no kind-`k` component.
   */
  lemma ByEntityExactly<C, K>(t: Tables<C, K>, e: nat, k: K)
    requires Consistent(t)
    ensures forall s: nat | Stored(t, k, s) && t.compMetas[k][s].entityKey == e :: (e, k) in t.relation1 && s in SlotsOf(t, e, k)
    ensures (e, k) in t.relation1 ==>
      forall i | 0 <= i < |SlotsOf(t, e, k)| :: Stored(t, k, SlotsOf(t, e, k)[i]) && t.compMetas[k][SlotsOf(t, e, k)[i]].entityKey == e
    ensures (e, k) in t.relation1 ==> Distinct(SlotsOf(t, e, k))
  {
    forall s: nat | Stored(t, k, s) && t.compMetas[k][s].entityKey == e ensures (e, k) in t.relation1 && s in SlotsOf(t, e, k) {
      assert IndexLinks(t, k, s);
      var m := t.relation1[(e, k)];
      ListingHolds(m);
      var l := Listing(m);
      var i :| 0 <= i < |l| && Keys(l)[i] == t.compMetas[k][s].relation1;
      assert SlotsOf(t, e, k)[i] == s;
    }
    if (e, k) in t.relation1 {
      var m := t.relation1[(e, k)];
      var l := Listing(m);
      var slots := SlotsOf(t, e, k);
      ListingHolds(m);
      forall i | 0 <= i < |slots| ensures Stored(t, k, slots[i]) && t.compMetas[k][slots[i]].entityKey == e {
        assert IndexEntryLinked(t, (e, k), l[i].0);
      }
      forall i, i' | 0 <= i < i' < |slots| ensures slots[i] != slots[i'] {
        assert IndexEntryLinked(t, (e, k), l[i].0) && IndexEntryLinked(t, (e, k), l[i'].0);
        assert Keys(l)[i] < Keys(l)[i'];
      }
    }
  }

  // ----- get_comp_mut, iter_comp_mut, iter_comp_mut_by_entity ----------------------------------

  /** A component with `f` written through the reference to its value; its links stay. */
  function Apply<C>(f: C -> C, m: CompMeta<C>): CompMeta<C> {
    m.(inner := f(m.inner))
  }

  /** `Apply(f, _)` as a function on stored components, the form a slab update takes. */
  function Lift<C>(f: C -> C): CompMeta<C> -> CompMeta<C> {
    m => Apply(f, m)
  }

  /** `get_comp_mut`, with `f` of the value written through the reference it returns. */
  function UpdateComp<C, K>(t: Tables<C, K>, key: (K, nat), f: C -> C): (r: Tables<C, K>)
    ensures GetComp(r, key) == if GetComp(t, key).Some? then Some(f(GetComp(t, key).value)) else None
  {
    var k, s := key.0, key.1;
    if k in t.compMetas && s in t.compMetas[k] then
      var slab: map<nat, CompMeta<C>> := t.compMetas[k][s := Lift(f)(t.compMetas[k][s])];
      t.(compMetas := t.compMetas[k := slab])
    else t
  }

  /** `iter_comp_mut(k)`, with `f` written through every reference it yields. */
  function UpdateKind<C, K>(t: Tables<C, K>, k: K, f: C -> C): (r: Tables<C, K>)
    ensures ValuesOnly(t, r)
  {
    if k in t.compMetas then
      t.(compMetas := t.compMetas[k := MapValues(t.compMetas[k], Lift(f))])
    else t
  }

  /** `iter_comp_mut_by_entity(e, k)`, with `f` written through every reference it yields. */
  ghost function UpdateOwned<C, K>(t: Tables<C, K>, e: nat, k: K, f: C -> C): (r: Tables<C, K>)
    ensures ValuesOnly(t, r)
  {
    if k in t.compMetas && (e, k) in t.relation1 then
      var slots := SlotsOf(t, e, k);
      t.(compMetas := t.compMetas[k := MapSome(t.compMetas[k], slots, Lift(f))])
    else t
  }

  /** `u` differs from `t` in component values only: same slots, owners and relation entries. */
  ghost predicate ValuesOnly<C, K>(t: Tables<C, K>, u: Tables<C, K>) {
    && u.entities == t.entities && u.relation0 == t.relation0 && u.relation1 == t.relation1
    && u.compMetas.Keys == t.compMetas.Keys
    && (forall k | k in t.compMetas :: u.compMetas[k].Keys == t.compMetas[k].Keys)
    && (forall k, s | k in t.compMetas && s in t.compMetas[k] ::
          u.compMetas[k][s].entityKey == t.compMetas[k][s].entityKey
          && u.compMetas[k][s].relation0 == t.compMetas[k][s].relation0
          && u.compMetas[k][s].relation1 == t.compMetas[k][s].relation1)
  }

  /** Writing through a component reference cannot break the invariant: no link changes. */
  lemma ValuesOnlyConsistent<C, K>(t: Tables<C, K>, u: Tables<C, K>)
    requires Consistent(t) && ValuesOnly(t, u)
    ensures Consistent(u)
  {
    forall k, s | k in u.compMetas && s in u.compMetas[k] ensures DirectoryLinks(u, k, s) && IndexLinks(u, k, s) {
      assert DirectoryLinks(t, k, s) && IndexLinks(t, k, s);
    }
    forall e, d | e in u.relation0 && d in u.relation0[e] ensures DirEntryLinked(u, e, d) {
      assert DirEntryLinked(t, e, d);
    }
    forall p, j | p in u.relation1 && j in u.relation1[p] ensures IndexEntryLinked(u, p, j) {
      assert IndexEntryLinked(t, p, j);
    }
  }

  /** `get_comp_mut` keeps the invariant and every other component. */
  lemma UpdateCompEffect<C, K>(t: Tables<C, K>, key: (K, nat), f: C -> C)
    requires Consistent(t)
    ensures Consistent(UpdateComp(t, key, f))
    ensures forall key' | key' != key :: GetComp(UpdateComp(t, key, f), key') == GetComp(t, key')
    ensures forall key' :: GetEntityByComp(UpdateComp(t, key, f), key') == GetEntityByComp(t, key')
  {
    ValuesOnlyConsistent(t, UpdateComp(t, key, f));
  }

  /** `iter_comp_mut(k)` keeps the invariant, changes exactly the kind-`k` values, each to `f` of itself. */
  lemma UpdateKindEffect<C, K>(t: Tables<C, K>, k: K, f: C -> C)
    requires Consistent(t)
    ensures Consistent(UpdateKind(t, k, f))
    ensures forall key :: GetComp(UpdateKind(t, k, f), key) ==
                          if key.0 == k && GetComp(t, key).Some? then Some(f(GetComp(t, key).value)) else GetComp(t, key)
    ensures forall key :: GetEntityByComp(UpdateKind(t, k, f), key) == GetEntityByComp(t, key)
  {
    ValuesOnlyConsistent(t, UpdateKind(t, k, f));
  }

  /** What the lookups see after `iter_comp_mut_by_entity(e, k)`. */
  lemma UpdateOwnedValues<C, K>(t: Tables<C, K>, e: nat, k: K, f: C -> C)
    requires Consistent(t)
    ensures forall key :: GetComp(UpdateOwned(t, e, k, f), key) ==
                          if key.0 == k && GetEntityByComp(t, key) == Some(e) then Some(f(GetComp(t, key).value)) else GetComp(t, key)
  {
    var r := UpdateOwned(t, e, k, f);
    ByEntityExactly(t, e, k);
    if k in t.compMetas && (e, k) in t.relation1 {
      var slots := SlotsOf(t, e, k);
      forall key ensures GetComp(r, key) ==
                           if key.0 == k && GetEntityByComp(t, key) == Some(e) then Some(f(GetComp(t, key).value)) else GetComp(t, key)
      {
        if key.0 == k && key.1 in t.compMetas[k] {
          assert key.1 in slots <==> t.compMetas[k][key.1].entityKey == e;
        }
      }
    }
  }

  /**
   * `iter_comp_mut_by_entity(e, k)` keeps the invariant and changes exactly
   * the values of `e`'s kind-`k` components, each once, to `f` of itself.
   */
  lemma UpdateOwnedEffect<C, K>(t: Tables<C, K>, e: nat, k: K, f: C -> C)
    requires Consistent(t)
    ensures Consistent(UpdateOwned(t, e, k, f))
    ensures forall key :: GetComp(UpdateOwned(t, e, k, f), key) ==
                          if key.0 == k && GetEntityByComp(t, key) == Some(e) then Some(f(GetComp(t, key).value)) else GetComp(t, key)
    ensures forall key :: GetEntityByComp(UpdateOwned(t, e, k, f), key) == GetEntityByComp(t, key)
  {
    ValuesOnlyConsistent(t, UpdateOwned(t, e, k, f));
    UpdateOwnedValues(t, e, k, f);
  }
}
