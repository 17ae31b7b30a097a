/**
 * A hash map of slabs, `HashMap<Q, Slab<T>>`: the shape of every table of
 * the store but the entity slab. `Hold(slabs, m, a)` says that the slabs
 * are well formed, unshared, and hold `m`, the map of their live contents,
 * with `a` the map of their allocation states; each method of `SlabMap` is
 * one `entry(..)`/`get(..)`/`get_mut(..)`/`remove(..)` on the hash map,
 * followed by at most one slab operation, and states its effect on both maps.
 */
module SlabMaps {
  import opened Options
  import opened KeyOrder
  import opened Slabs

  /** `entry(q).or_default()` seen from outside: an absent slab is an empty one. */
  function OrEmpty<Q, V>(m: map<Q, map<nat, V>>, q: Q): (r: map<nat, V>)
    ensures q !in m ==> r == map[]
    ensures q in m ==> r == m[q]
  {
    if q in m then m[q] else map[]
  }

  /** The allocation state of `entry(q).or_default()`: an absent slab is a new one. */
  function OrNew<Q>(a: map<Q, Vacancy>, q: Q): (r: Vacancy)
    ensures q !in a ==> r == Vacancy([], 0)
    ensures q in a ==> r == a[q]
  {
    if q in a then a[q] else Vacancy([], 0)
  }

  /**
   * The allocation states once the slots `l` are freed, first to last:
   * each `(q, key)` pushes `key` on `q`'s free list.
   */
  function Freed<Q>(a: map<Q, Vacancy>, l: seq<(Q, nat)>): map<Q, Vacancy>
    decreases |l|
  {
    if l == [] then a else Freed(a[l[0].0 := Pushed(OrNew(a, l[0].0), l[0].1)], l[1..])
  }

  /** Freeing `l[i]` and then `l[i + 1..]` frees `l[i..]`. */
  lemma FreedStep<Q>(a: map<Q, Vacancy>, l: seq<(Q, nat)>, i: nat)
    requires i < |l|
    ensures Freed(a[l[i].0 := Pushed(OrNew(a, l[i].0), l[i].1)], l[i + 1..]) == Freed(a, l[i..])
  {
    assert l[i..][0] == l[i] && l[i..][1..] == l[i + 1..];
  }

  /** The slot freed last is the next one its slab hands out. */
  lemma {:induction false} FreedLastIsNext<Q>(a: map<Q, Vacancy>, l: seq<(Q, nat)>)
    requires l != []
    ensures NextKey(OrNew(Freed(a, l), l[|l| - 1].0)) == l[|l| - 1].1
    decreases |l|
  {
    var b := a[l[0].0 := Pushed(OrNew(a, l[0].0), l[0].1)];
    if |l| > 1 {
      FreedLastIsNext(b, l[1..]);
      assert l[1..][|l| - 2] == l[|l| - 1];
    }
  }

  /** A slab no freed slot belongs to keeps its allocation state. */
  lemma {:induction false} FreedElsewhere<Q>(a: map<Q, Vacancy>, l: seq<(Q, nat)>, q: Q)
    requires forall i | 0 <= i < |l| :: l[i].0 != q
    ensures OrNew(Freed(a, l), q) == OrNew(a, q)
    decreases |l|
  {
    if l != [] {
      var b := a[l[0].0 := Pushed(OrNew(a, l[0].0), l[0].1)];
      assert l[0].0 != q;
      assert forall i | 0 <= i < |l[1..]| :: l[1..][i].0 != q by {
        forall i | 0 <= i < |l[1..]| ensures l[1..][i].0 != q {
          assert l[1..][i] == l[i + 1];
        }
      }
      FreedElsewhere(b, l[1..], q);
    }
  }

  /**
   * Every slab of `slabs` is well formed, no two keys share a slab, and `m`
   * and `al` map each key to the live contents and the allocation state of
   * its slab.
   */
  ghost predicate Hold<Q, T>(slabs: map<Q, Slab<T>>, m: map<Q, map<nat, T>>, al: map<Q, Vacancy>)
    reads slabs.Values
  {
    && m.Keys == slabs.Keys && al.Keys == slabs.Keys
    && (forall a, b | a in slabs && b in slabs && a != b :: slabs[a] != slabs[b])
    && (forall a {:trigger Holds(slabs[a], m[a], al[a])} | a in slabs :: Holds(slabs[a], m[a], al[a]))
  }

  /** One slab is well formed, its live contents are `c` and its allocation state `v`. */
  ghost predicate Holds<T>(slab: Slab<T>, c: map<nat, T>, v: Vacancy)
    reads slab
  {
    slab.Valid() && slab.Contents == c && slab.Alloc() == v
  }

  /** A well-formed slab of its own added under a new key keeps `Hold`. */
  lemma HoldPut<Q, T>(slabs: map<Q, Slab<T>>, m: map<Q, map<nat, T>>, al: map<Q, Vacancy>, q: Q, slab: Slab<T>)
    requires Hold(slabs, m, al) && q !in slabs
    requires slab.Valid() && forall a | a in slabs :: slabs[a] != slab
    ensures Hold(slabs[q := slab], m[q := slab.Contents], al[q := slab.Alloc()])
  {
    var slabs', m', al' := slabs[q := slab], m[q := slab.Contents], al[q := slab.Alloc()];
    forall a | a in slabs' ensures Holds(slabs'[a], m'[a], al'[a]) {
      if a != q {
        assert Holds(slabs[a], m[a], al[a]);
      }
    }
  }

  /** The slab under `q` is well formed and holds `m[q]`, with allocation state `al[q]`. */
  lemma HoldAt<Q, T>(slabs: map<Q, Slab<T>>, m: map<Q, map<nat, T>>, al: map<Q, Vacancy>, q: Q)
    requires Hold(slabs, m, al) && q in slabs
    ensures Holds(slabs[q], m[q], al[q])
  {
  }

  /**
   * The slab under `q` set apart from the others: the rest still hold, and
   * the slab is none of theirs, so changing it leaves them alone.
   */
  lemma HoldSplit<Q, T>(slabs: map<Q, Slab<T>>, m: map<Q, map<nat, T>>, al: map<Q, Vacancy>, q: Q)
    requires Hold(slabs, m, al) && q in slabs
    ensures Hold(slabs - {q}, m - {q}, al - {q})
    ensures slabs[q] !in (slabs - {q}).Values
    ensures Holds(slabs[q], m[q], al[q])
  {
    var rest, m', al' := slabs - {q}, m - {q}, al - {q};
    forall a | a in rest ensures Holds(rest[a], m'[a], al'[a]) {
      assert Holds(slabs[a], m[a], al[a]);
    }
  }

  /**
   * The slab under `q`, well formed again with contents `c` and allocation
   * state `v`, rejoins the rest.
   */
  lemma HoldJoin<Q, T>(slabs: map<Q, Slab<T>>, m: map<Q, map<nat, T>>, al: map<Q, Vacancy>, q: Q, c: map<nat, T>, v: Vacancy)
    requires q in slabs && Hold(slabs - {q}, m - {q}, al - {q})
    requires slabs[q] !in (slabs - {q}).Values
    requires Holds(slabs[q], c, v)
    ensures Hold(slabs, m[q := c], al[q := v])
  {
    var rest, m', al' := slabs - {q}, m[q := c], al[q := v];
    forall a ensures (a in m' <==> a in slabs) && (a in al' <==> a in slabs) {
      assert a != q ==> (a in m' <==> a in m - {q}) && (a in al' <==> a in al - {q}) && (a in slabs <==> a in rest);
    }
    assert m'.Keys == slabs.Keys && al'.Keys == slabs.Keys;
    forall a | a in slabs ensures Holds(slabs[a], m'[a], al'[a]) {
      if a != q {
        assert a in rest && rest[a] == slabs[a] && (m - {q})[a] == m'[a] && (al - {q})[a] == al'[a];
        assert Holds(rest[a], (m - {q})[a], (al - {q})[a]);
      }
    }
    forall a, b | a in slabs && b in slabs && a != b ensures slabs[a] != slabs[b] {
      if a == q {
        assert b in rest && slabs[b] == rest[b] && rest[b] in rest.Values;
      } else if b == q {
        assert a in rest && slabs[a] == rest[a] && rest[a] in rest.Values;
      } else {
        assert a in rest && b in rest && slabs[a] == rest[a] && slabs[b] == rest[b];
      }
    }
  }

  /** `f` applied to every live value of one slab. */
  function MapValues<T>(c: map<nat, T>, f: T -> T): (r: map<nat, T>)
    ensures r.Keys == c.Keys
    ensures forall s | s in c :: r[s] == f(c[s])
  {
    map s | s in c :: f(c[s])
  }

  /** `f` applied to the values under the keys `ks` of one slab; the rest kept. */
  function MapSome<T>(c: map<nat, T>, ks: seq<nat>, f: T -> T): (r: map<nat, T>)
    ensures r.Keys == c.Keys
    ensures forall s | s in c :: r[s] == if s in ks then f(c[s]) else c[s]
  {
    map s | s in c :: if s in ks then f(c[s]) else c[s]
  }

  /** A key updated twice holds the second value only. */
  lemma UpdateTwice<Q, V>(m: map<Q, V>, q: Q, a: V, b: V)
    ensures m[q := a][q := b] == m[q := b]
  {
  }

  /** Two maps with the same keys and the same value under each are one. */
  lemma SameMap<T>(c: map<nat, T>, d: map<nat, T>)
    requires c.Keys == d.Keys
    requires forall s | s in c :: c[s] == d[s]
    ensures c == d
  {
  }

  class SlabMap<Q(==), T> {
    var slabs: map<Q, Slab<T>>
    /** The live contents of each slab, by hash-map key. */
    ghost var M: map<Q, map<nat, T>>
    /** The allocation state of each slab, by hash-map key. */
    ghost var A: map<Q, Vacancy>
    /** The hash map and every slab it has held. */
    ghost var Repr: set<object>

    ghost predicate Valid()
      reads this, Repr
    {
      && this in Repr
      && (forall q | q in slabs :: slabs[q] in Repr)
      && Hold(slabs, M, A)
    }

    /** The allocation states once `q`'s slab, made empty when absent, has handed out its vacant key. */
    ghost function AfterInsert(q: Q): map<Q, Vacancy>
      reads this
    {
      A[q := Popped(OrNew(A, q))]
    }

    /** The allocation states once `key` is freed in `q`'s slab. */
    ghost function AfterRemove(q: Q, key: nat): map<Q, Vacancy>
      reads this
    {
      A[q := Pushed(OrNew(A, q), key)]
    }

    /** `HashMap::default`. */
    constructor ()
      ensures Valid()
      ensures M == map[] && A == map[]
      ensures fresh(Repr)
    {
      slabs := map[];
      M, A := map[], map[];
      Repr := {this};
    }

    /** `get(q).is_some()`. */
    function Has(q: Q): (b: bool)
      reads this, Repr
      requires Valid()
      ensures b <==> q in M
    {
      q in slabs
    }

    /**
     * `entry(q).or_default().vacant_key()`: the key the next insert into
     * `q`'s slab returns, as its allocation state fixes it; it is never live,
     * and an absent slab starts at 0.
     */
    function VacantKey(q: Q): (key: nat)
      reads this, Repr
      requires Valid()
      ensures key !in OrEmpty(M, q)
      ensures key == NextKey(OrNew(A, q))
      ensures q !in M ==> key == 0
    {
      if q in slabs then HoldAt(slabs, M, A, q); slabs[q].VacantKey() else 0
    }

    /** `get(q)?.get(key)`: the live value under `key` in `q`'s slab. */
    function Get(q: Q, key: nat): (r: Option<T>)
      reads this, Repr
      requires Valid()
      ensures r.Some? <==> q in M && key in M[q]
      ensures r.Some? ==> r.value == M[q][key]
    {
      if q in slabs then HoldAt(slabs, M, A, q); slabs[q].Get(key) else None
    }

    /** `get(q)?.iter()`: the live entries of `q`'s slab in ascending key order. */
    method Iter(q: Q) returns (r: Option<seq<(nat, T)>>)
      requires Valid()
      ensures r.Some? <==> q in M
      ensures r.Some? ==> r.value == Listing(M[q])
    {
      if q in slabs {
        HoldAt(slabs, M, A, q);
        var l := slabs[q].Iter();
        r := Some(l);
      } else {
        r := None;
      }
    }

    /** `entry(q).or_default()`: `q` gets an empty slab of its own when it has none. */
    method OrDefault(q: Q)
      requires Valid()
      modifies this
      ensures Valid()
      ensures q in slabs
      ensures M == old(M[q := OrEmpty(M, q)])
      ensures A == old(A[q := OrNew(A, q)])
      ensures fresh(Repr - old(Repr))
    {
      if q !in slabs {
        var slab := new Slab();
        HoldPut(slabs, M, A, q, slab);
        slabs, M, A, Repr := slabs[q := slab], M[q := map[]], A[q := Vacancy([], 0)], Repr + {slab};
      } else {
        assert M[q := OrEmpty(M, q)] == M && A[q := OrNew(A, q)] == A;
      }
    }

    /**
     * `entry(q).or_default().insert(value)`: `value` goes to the vacant key
     * of `q`'s slab, which is created empty first when absent; that slab's
     * free list is popped or its vector grows, and no other slab changes.
     */
    method Insert(q: Q, value: T) returns (key: nat)
      requires Valid()
      modifies Repr
      ensures Valid()
      ensures key == old(VacantKey(q))
      ensures M == old(var c: map<nat, T> := OrEmpty(M, q)[key := value]; M[q := c])
      ensures A == old(AfterInsert(q))
      ensures fresh(Repr - old(Repr))
    {
      ghost var m, al := M, A;
      OrDefault(q);
      key := Put(q, value);
      UpdateTwice(m, q, OrEmpty(m, q), OrEmpty(m, q)[key := value]);
      UpdateTwice(al, q, OrNew(al, q), Popped(OrNew(al, q)));
    }

    /** `insert(value)` on the slab `q` already has. */
    method Put(q: Q, value: T) returns (key: nat)
      requires Valid() && q in slabs
      modifies Repr
      ensures Valid()
      ensures key == old(VacantKey(q))
      ensures M == old(var c: map<nat, T> := M[q][key := value]; M[q := c])
      ensures A == old(AfterInsert(q))
      ensures Repr == old(Repr)
    {
      HoldSplit(slabs, M, A, q);
      var slab := slabs[q];
      key := slab.Insert(value);
      HoldJoin(slabs, M, A, q, slab.Contents, slab.Alloc());
      M, A := M[q := slab.Contents], A[q := slab.Alloc()];
    }

    /**
     * `get_mut(q)?.try_remove(key)`: the value under `key` in `q`'s slab,
     * taken out, with `key` pushed on that slab's free list so that it is
     * the slab's next vacant key; `None`, and nothing changed, when `q` has
     * no slab or that slot is not live.
     */
    method Remove(q: Q, key: nat) returns (r: Option<T>)
      requires Valid()
      modifies Repr
      ensures Valid()
      ensures r == old(if q in M && key in M[q] then Some(M[q][key]) else None)
      ensures M == old(if r.Some? then M[q := M[q] - {key}] else M)
      ensures A == old(if r.Some? then AfterRemove(q, key) else A)
      ensures r.Some? ==> VacantKey(q) == key
      ensures r.None? ==> unchanged(old(Repr))
      ensures Repr == old(Repr)
    {
      r := Get(q, key);
      if r.Some? {
        Free(q, key);
      }
    }

    /** `try_remove(key)` on `q`'s slab, where `key` is live. */
    method Free(q: Q, key: nat)
      requires Valid() && q in M && key in M[q]
      modifies Repr
      ensures Valid()
      ensures M == old(M[q := M[q] - {key}])
      ensures A == old(AfterRemove(q, key))
      ensures VacantKey(q) == key
      ensures Repr == old(Repr)
    {
      HoldSplit(slabs, M, A, q);
      var slab := slabs[q];
      var r := slab.TryRemove(key);
      HoldJoin(slabs, M, A, q, slab.Contents, slab.Alloc());
      M, A := M[q := slab.Contents], A[q := slab.Alloc()];
    }

    /**
     * `remove(q)`, with the removed slab then consumed by a `for` loop: its
     * live entries in ascending key order; `q` no longer has a slab.
     */
    method Take(q: Q) returns (r: Option<seq<(nat, T)>>)
      requires Valid()
      modifies this
      ensures Valid()
      ensures r == old(if q in M then Some(Listing(M[q])) else None)
      ensures M == old(M) - {q} && A == old(A) - {q}
      ensures Repr == old(Repr)
    {
      r := Iter(q);
      Forget(q);
    }

    /** `remove(q)` itself: `q`'s slab leaves the hash map. */
    method Forget(q: Q)
      requires Valid()
      modifies this
      ensures Valid()
      ensures M == old(M) - {q} && A == old(A) - {q}
      ensures Repr == old(Repr)
    {
      if q in slabs {
        HoldSplit(slabs, M, A, q);
        slabs, M, A := slabs - {q}, M - {q}, A - {q};
      } else {
        assert M - {q} == M && A - {q} == A;
      }
    }

    /**
     * `get_mut(q)?.get_mut(key)?` and a write through the reference: the
     * value seen is returned and `f` of it stored in its place; no slab's
     * allocation state changes.
     */
    method Update(q: Q, key: nat, f: T -> T) returns (r: Option<T>)
      requires Valid()
      modifies Repr
      ensures Valid()
      ensures r == old(if q in M && key in M[q] then Some(M[q][key]) else None)
      ensures M == old(if r.Some? then (var c: map<nat, T> := M[q][key := f(r.value)]; M[q := c]) else M)
      ensures A == old(A)
      ensures Repr == old(Repr)
    {
      r := Get(q, key);
      if r.Some? {
        Write(q, key, f(r.value));
      }
    }

    /** A write of `value` through `get_mut(key)` on `q`'s slab, where `key` is live. */
    method Write(q: Q, key: nat, value: T)
      requires Valid() && q in M && key in M[q]
      modifies Repr
      ensures Valid()
      ensures M == old(var c: map<nat, T> := M[q][key := value]; M[q := c])
      ensures A == old(A)
      ensures Repr == old(Repr)
    {
      HoldSplit(slabs, M, A, q);
      var slab := slabs[q];
      var seen := slab.Update(key, _ => value);
      HoldJoin(slabs, M, A, q, slab.Contents, A[q]);
      M := M[q := slab.Contents];
      assert A[q := A[q]] == A;
    }

    /**
     * `get_mut(q)?.iter_mut()`, with `f` written through every reference:
     * the values seen, in ascending key order, and `f` of each stored; no
     * slab's allocation state changes.
     */
    method UpdateAll(q: Q, f: T -> T) returns (r: Option<seq<T>>)
      requires Valid()
      modifies Repr
      ensures Valid()
      ensures r.Some? <==> old(q in M)
      ensures r.Some? ==> r.value == old(Values(Listing(M[q])))
      ensures M == old(if q in M then M[q := MapValues(M[q], f)] else M)
      ensures A == old(A)
      ensures Repr == old(Repr)
    {
      var l := Iter(q);
      if l.Some? {
        ghost var c := M[q];
        ListingCovers(c);
        UpdateEach(q, Keys(l.value), f);
        SameMap(MapSome(c, Keys(l.value), f), MapValues(c, f));
        r := Some(Values(l.value));
      } else {
        r := None;
      }
    }

    /**
     * `get_mut(key)` on `q`'s slab for each of the distinct keys `ks`, with
     * `f` written through every reference; no slab's allocation state changes.
     */
    method UpdateEach(q: Q, ks: seq<nat>, f: T -> T)
      requires Valid()
      requires Distinct(ks)
      modifies Repr
      ensures Valid()
      ensures M == old(if q in M then M[q := MapSome(M[q], ks, f)] else M)
      ensures A == old(A)
      ensures Repr == old(Repr)
    {
      if q in slabs {
        HoldSplit(slabs, M, A, q);
        slabs[q].UpdateEach(ks, f);
        SameMap(slabs[q].Contents, MapSome(M[q], ks, f));
        HoldJoin(slabs, M, A, q, slabs[q].Contents, A[q]);
        M := M[q := slabs[q].Contents];
        assert A[q := A[q]] == A;
      }
    }

    /** `clear`: every slab dropped. */
    method Clear()
      requires Valid()
      modifies this
      ensures Valid()
      ensures M == map[] && A == map[]
      ensures Repr == old(Repr)
    {
      slabs, M, A := map[], map[], map[];
    }
  }
}
