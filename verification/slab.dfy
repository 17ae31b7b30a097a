/** The failure value every ECS query returns: `None` is the only error there is. */
module Options {
  datatype Option<+T> = None | Some(value: T)
}

/**
 * Ascending key order. A slab yields its live entries in ascending slot
 * order; this module gives that order a definition that does not mention
 * slabs, so the store's iteration results can be stated over plain maps.
 */
module KeyOrder {

  /** No element occurs twice. */
  ghost predicate Distinct<T>(r: seq<T>) {
    forall i, j | 0 <= i < j < |r| :: r[i] != r[j]
  }

  /** Strictly ascending. */
  ghost predicate Increasing(r: seq<nat>) {
    forall i, j | 0 <= i < j < |r| :: r[i] < r[j]
  }

  /** The smallest element of a non-empty set of keys. */
  ghost function Least(s: set<nat>): (m: nat)
    requires s != {}
    ensures m in s
    ensures forall x | x in s :: m <= x
    decreases s
  {
    var x :| x in s;
    if s == {x} then x
    else
      var y := Least(s - {x});
      assert forall z | z in s :: z == x || z in s - {x};
      if x <= y then x else y
  }

  /** The elements of `s`, smallest first: the order of slab iteration. */
  ghost function Ascending(s: set<nat>): (r: seq<nat>)
    ensures |r| == |s|
    decreases s
  {
    if s == {} then []
    else
      var m := Least(s);
      [m] + Ascending(s - {m})
  }

  /** `Ascending(s)` ascends strictly and holds exactly the elements of `s`. */
  lemma {:induction false} AscendingSpec(s: set<nat>)
    ensures Increasing(Ascending(s))
    ensures forall x :: x in Ascending(s) <==> x in s
    decreases s
  {
    if s != {} {
      var m := Least(s);
      var rest := Ascending(s - {m});
      AscendingSpec(s - {m});
      assert Ascending(s) == [m] + rest;
      forall j | 0 <= j < |rest| ensures m < rest[j] {
        assert rest[j] in s - {m};
      }
    }
  }

  lemma HeadIsLeast(a: seq<nat>)
    requires Increasing(a) && a != []
    ensures forall x | x in a :: a[0] <= x
    ensures forall x :: x in a[1..] <==> x in a && x != a[0]
  {
    forall x | x in a[1..] ensures a[0] < x {
      var i :| 0 <= i < |a[1..]| && a[1..][i] == x;
      assert a[i + 1] == x;
    }
    forall x | x in a && x != a[0] ensures x in a[1..] {
      var i :| 0 <= i < |a| && a[i] == x;
      assert a[1..][i - 1] == x;
    }
  }

  lemma NoElementsEmpty(b: seq<nat>)
    ensures (forall x :: x !in b) ==> b == []
  {
    if b != [] {
      assert b[0] in b;
    }
  }

  /** An ascending sequence is determined by its elements. */
  lemma {:induction false} IncreasingUnique(a: seq<nat>, b: seq<nat>)
    requires Increasing(a) && Increasing(b)
    requires forall x :: x in a <==> x in b
    ensures a == b
    decreases |a|
  {
    if a == [] {
      NoElementsEmpty(b);
    } else {
      assert a[0] in b;
      HeadIsLeast(a);
      HeadIsLeast(b);
      assert b[0] in a;
      assert a[0] == b[0];
      IncreasingUnique(a[1..], b[1..]);
      assert a == [a[0]] + a[1..];
      assert b == [b[0]] + b[1..];
    }
  }

  /** The keys 0, 1 and 2 come out in that order. */
  lemma AscendingExample()
    ensures Ascending({0, 1, 2}) == [0, 1, 2]
  {
    AscendingSpec({0, 1, 2});
    IncreasingUnique(Ascending({0, 1, 2}), [0, 1, 2]);
  }

  /** The slot keys of a listing of (key, value) pairs. */
  function Keys<T>(l: seq<(nat, T)>): (r: seq<nat>)
    ensures |r| == |l|
  {
    seq(|l|, i requires 0 <= i < |l| => l[i].0)
  }

  /** The values of a listing of (key, value) pairs. */
  function Values<T>(l: seq<(nat, T)>): (r: seq<T>)
    ensures |r| == |l|
  {
    seq(|l|, i requires 0 <= i < |l| => l[i].1)
  }

  /** The entries of `m`, as (key, value) pairs in ascending key order. */
  ghost function Listing<T>(m: map<nat, T>): (r: seq<(nat, T)>)
    ensures |r| == |m|
  {
    var ks := Ascending(m.Keys);
    AscendingSpec(m.Keys);
    seq(|ks|, i requires 0 <= i < |ks| => (ks[i], m[ks[i]]))
  }

  /** The keys of a listing are the map's keys in ascending order. */
  lemma ListingKeys<T>(m: map<nat, T>)
    ensures Keys(Listing(m)) == Ascending(m.Keys)
  {
    var ks := Ascending(m.Keys);
    assert Keys(Listing(m)) == ks;
  }

  /**
   * Any listing of `m` whose keys ascend and which holds every entry of `m`
   * with its value is THE listing of `m`.
   */
  lemma ListingIs<T>(m: map<nat, T>, r: seq<(nat, T)>)
    requires Increasing(Keys(r))
    requires forall t | 0 <= t < |r| :: r[t].0 in m && r[t].1 == m[r[t].0]
    requires forall k | k in m :: k in Keys(r)
    ensures r == Listing(m)
  {
    var ks := Keys(r);
    forall x ensures x in ks <==> x in m.Keys {
      if x in ks {
        var t :| 0 <= t < |ks| && ks[t] == x;
        assert r[t].0 == x;
      }
    }
    AscendingSpec(m.Keys);
    IncreasingUnique(ks, Ascending(m.Keys));
    ListingKeys(m);
    var l := Listing(m);
    assert |l| == |r|;
    forall t | 0 <= t < |r| ensures r[t] == l[t] {
      assert Keys(l)[t] == ks[t];
    }
  }

  /** The keys of a listing ascend and cover the map. */
  lemma ListingCovers<T>(m: map<nat, T>)
    ensures Increasing(Keys(Listing(m)))
    ensures forall k | k in m :: k in Keys(Listing(m))
  {
    ListingKeys(m);
    AscendingSpec(m.Keys);
  }

  /** Every entry of `m` appears in its listing, and nothing else does. */
  lemma ListingHolds<T>(m: map<nat, T>)
    ensures forall t | 0 <= t < |Listing(m)| :: Listing(m)[t].0 in m && Listing(m)[t].1 == m[Listing(m)[t].0]
    ensures forall k | k in m :: k in Keys(Listing(m))
    ensures Increasing(Keys(Listing(m)))
  {
    ListingKeys(m);
    AscendingSpec(m.Keys);
    var l := Listing(m);
    forall t | 0 <= t < |l| ensures l[t].0 in m && l[t].1 == m[l[t].0] {
      assert l[t].0 == Keys(l)[t];
      assert Keys(l)[t] in Ascending(m.Keys);
    }
  }
}

/**
 * The `slab` crate's `Slab<T>`: a vector of entries in which every vacant
 * entry links to the next vacant one, so that insertion reuses the most
 * recently freed slot first and grows the vector only when none is free.
 */
module Slabs {
  import opened Options
  import opened KeyOrder

  datatype Entry<T> = Vacant(nextFree: nat) | Occupied(value: T)

  /**
   * Where a slab's next keys come from: its free list, head first, and the
   * length of its vector of entries.
   */
  datatype Vacancy = Vacancy(free: seq<nat>, len: nat)

  /** The key the next insert returns: the head of the free list, else the end of the vector. */
  function NextKey(v: Vacancy): nat {
    if v.free == [] then v.len else v.free[0]
  }

  /** An insert pops the head of the free list, or grows the vector by one. */
  function Popped(v: Vacancy): Vacancy {
    if v.free == [] then Vacancy([], v.len + 1) else Vacancy(v.free[1..], v.len)
  }

  /** A removal pushes the freed key on the free list. */
  function Pushed(v: Vacancy, key: nat): Vacancy {
    Vacancy([key] + v.free, v.len)
  }

  /** Entry `free[t]` is vacant and links to the next key on the free list. */
  ghost predicate Linked<T>(entries: seq<Entry<T>>, free: seq<nat>, t: nat)
    requires t < |free| && free[t] < |entries|
  {
    entries[free[t]] == Vacant(if t + 1 < |free| then free[t + 1] else |entries|)
  }

  /**
   * The occupied entries are exactly `contents`; the free list `free`
   * starts at `next`, visits distinct vacant entries, ends at `|entries|`,
   * and holds every vacant entry.
   */
  ghost predicate FreeList<T>(entries: seq<Entry<T>>, next: nat, free: seq<nat>, contents: map<nat, T>) {
    && (forall i | i in contents :: i < |entries| && entries[i] == Occupied(contents[i]))
    && (forall i | 0 <= i < |entries| && entries[i].Occupied? :: i in contents)
    && next == (if free == [] then |entries| else free[0])
    && (forall t | 0 <= t < |free| :: free[t] < |entries|)
    && (forall t | 0 <= t < |free| :: Linked(entries, free, t))
    && (forall t, u | 0 <= t < u < |free| :: free[t] != free[u])
    && (forall i | 0 <= i < |entries| && entries[i].Vacant? :: i in free)
  }

  class Slab<T> {
    var entries: seq<Entry<T>>
    /** The head of the free list: the key the next `Insert` returns. */
    var next: nat
    /** The free list, head first (a witness of its well-formedness). */
    ghost var free: seq<nat>
    /** The live entries, by key. */
    ghost var Contents: map<nat, T>

    /** The slab's fields form a well-formed free list holding `Contents`. */
    ghost predicate Valid()
      reads this
    {
      FreeList(entries, next, free, Contents)
    }

    /** The free list and the vector length, which fix every key the next inserts return. */
    ghost function Alloc(): Vacancy
      reads this
    {
      Vacancy(free, |entries|)
    }

    /** `Slab::new`. */
    constructor ()
      ensures Valid()
      ensures Contents == map[]
      ensures Alloc() == Vacancy([], 0)
    {
      entries := [];
      next := 0;
      free := [];
      Contents := map[];
    }

    /** `vacant_key`: the key the next `Insert` will return; it is never live. */
    function VacantKey(): (key: nat)
      reads this
      requires Valid()
      ensures key !in Contents
      ensures key == NextKey(Alloc())
      ensures key <= |entries|
    {
      assert free != [] ==> Linked(entries, free, 0);
      next
    }

    /** `insert`: store `value` under the vacant key and return that key. */
    method Insert(value: T) returns (key: nat)
      requires Valid()
      modifies this
      ensures Valid()
      ensures key == old(VacantKey())
      ensures Contents == old(Contents)[key := value]
      ensures Alloc() == Popped(old(Alloc()))
    {
      key := next;
      Contents := Contents[key := value];
      if key == |entries| {
        entries := entries + [Occupied(value)];
        next := key + 1;
      } else {
        assert free != [] && Linked(entries, free, 0);
        next := entries[key].nextFree;
        entries := entries[key := Occupied(value)];
        free := free[1..];
        forall t | 0 <= t < |free| ensures Linked(entries, free, t) {
          assert Linked(old(entries), old(free), t + 1);
        }
      }
    }

    /** `get`: the value under `key`, or `None` when that slot is not live. */
    function Get(key: nat): (r: Option<T>)
      reads this
      requires Valid()
      ensures r.Some? <==> key in Contents
      ensures r.Some? ==> r.value == Contents[key]
    {
      if key < |entries| && entries[key].Occupied? then Some(entries[key].value) else None
    }

    /**
     * `try_remove`: take the value out of a live slot and push the slot on
     * the free list, so the next `Insert` reuses it; on a vacant or
     * out-of-range key nothing changes and the result is `None`.
     */
    method TryRemove(key: nat) returns (r: Option<T>)
      requires Valid()
      modifies this
      ensures Valid()
      ensures r == (if key in old(Contents) then Some(old(Contents)[key]) else None)
      ensures Contents == old(Contents) - {key}
      ensures r.Some? ==> VacantKey() == key && Alloc() == Pushed(old(Alloc()), key)
      ensures r.None? ==> unchanged(this)
    {
      if key < |entries| && entries[key].Occupied? {
        r := Some(entries[key].value);
        Contents := Contents - {key};
        assert forall t | 0 <= t < |free| :: free[t] != key by {
          forall t | 0 <= t < |free| ensures free[t] != key {
            assert Linked(entries, free, t);
          }
        }
        entries := entries[key := Vacant(next)];
        free := [key] + free;
        next := key;
        forall t | 0 <= t < |free| ensures Linked(entries, free, t) {
          if t > 0 {
            assert Linked(old(entries), old(free), t - 1);
          }
        }
      } else {
        r := None;
      }
    }

    /**
     * `get_mut` followed by a write through the returned reference: the
     * value seen is returned and `f` of it is stored in its place.
     */
    method Update(key: nat, f: T -> T) returns (r: Option<T>)
      requires Valid()
      modifies this
      ensures Valid()
      ensures Alloc() == old(Alloc())
      ensures r == (if key in old(Contents) then Some(old(Contents)[key]) else None)
      ensures Contents == if r.Some? then old(Contents)[key := f(r.value)] else old(Contents)
    {
      if key < |entries| && entries[key].Occupied? {
        r := Some(entries[key].value);
        entries := entries[key := Occupied(f(r.value))];
        Contents := Contents[key := f(r.value)];
        forall t | 0 <= t < |free| ensures Linked(entries, free, t) {
          assert Linked(old(entries), old(free), t);
        }
      } else {
        r := None;
      }
    }

    /** `clear`: drop every entry and restart allocation at key 0. */
    method Clear()
      modifies this
      ensures Valid()
      ensures Contents == map[]
      ensures Alloc() == Vacancy([], 0)
    {
      entries := [];
      next := 0;
      free := [];
      Contents := map[];
    }

    /** `iter`: the live (key, value) pairs in ascending key order. */
    method Iter() returns (r: seq<(nat, T)>)
      requires Valid()
      ensures r == Listing(Contents)
    {
      r := [];
      var i := 0;
      while i < |entries|
        invariant 0 <= i <= |entries|
        invariant Increasing(Keys(r))
        invariant forall t | 0 <= t < |r| :: r[t].0 < i && r[t].0 in Contents && r[t].1 == Contents[r[t].0]
        invariant forall k | k in Contents && k < i :: k in Keys(r)
      {
        if entries[i].Occupied? {
          assert Keys(r + [(i, entries[i].value)]) == Keys(r) + [i];
          r := r + [(i, entries[i].value)];
        }
        i := i + 1;
      }
      ListingIs(Contents, r);
    }

    /**
     * `iter_mut` with `f` applied through each yielded reference: returns
     * the values seen, in ascending key order, and stores `f` of each.
     */
    method IterMut(f: T -> T) returns (r: seq<T>)
      requires Valid()
      modifies this
      ensures Valid()
      ensures Alloc() == old(Alloc())
      ensures r == Values(Listing(old(Contents)))
      ensures Contents.Keys == old(Contents).Keys
      ensures forall k | k in old(Contents) :: Contents[k] == f(old(Contents)[k])
    {
      ghost var orig := Contents;
      var listing := Iter();
      r := Values(listing);
      var ks := Keys(listing);
      ListingCovers(orig);
      UpdateEach(ks, f);
    }

    /** `get_mut` on each of the distinct keys `ks` in turn, storing `f` of each live value. */
    method UpdateEach(ks: seq<nat>, f: T -> T)
      requires Valid()
      requires Distinct(ks)
      modifies this
      ensures Valid()
      ensures Alloc() == old(Alloc())
      ensures Contents.Keys == old(Contents).Keys
      ensures forall k | k in old(Contents) :: Contents[k] == if k in ks then f(old(Contents)[k]) else old(Contents)[k]
    {
      ghost var done: set<nat> := {};
      var i := 0;
      while i < |ks|
        invariant 0 <= i <= |ks|
        invariant Valid() && Alloc() == old(Alloc())
        invariant Contents.Keys == old(Contents).Keys
        invariant forall k | k in old(Contents) :: Contents[k] == if k in done then f(old(Contents)[k]) else old(Contents)[k]
        invariant forall t | 0 <= t < i :: ks[t] in done
        invariant forall t | i <= t < |ks| :: ks[t] !in done
        invariant forall k | k in done :: k in ks
      {
        var k := ks[i];
        var seen := Update(k, f);
        done := done + {k};
        i := i + 1;
      }
    }
  }

  /**
   * A new slab hands out the keys 0, 1 and 2 in turn, and iteration yields
   * them in that order.
   */
  method FreshKeysExample() returns (slab: Slab<int>, keys: seq<nat>, listed: seq<(nat, int)>)
    ensures keys == [0, 1, 2]
    ensures listed == [(0, 10), (1, 11), (2, 12)]
    ensures fresh(slab) && slab.Valid()
    ensures slab.Contents == map[0 := 10][1 := 11][2 := 12] && slab.Alloc() == Vacancy([], 3)
  {
    slab := new Slab<int>();
    var k0 := slab.Insert(10);
    var k1 := slab.Insert(11);
    var k2 := slab.Insert(12);
    keys := [k0, k1, k2];
    listed := slab.Iter();
    assert slab.Contents == map[0 := 10][1 := 11][2 := 12];
    ExampleListing(slab.Contents);
  }

  /** Freeing 0 and then 1 pushes each on the free list: 1 is on top. */
  method FreedKeysExample() returns (slab: Slab<int>, removed: seq<Option<int>>)
    ensures removed == [Some(10), Some(11)]
    ensures fresh(slab) && slab.Valid()
    ensures slab.Contents == map[2 := 12] && slab.Alloc() == Vacancy([1, 0], 3)
  {
    var keys, listed;
    slab, keys, listed := FreshKeysExample();
    var x := slab.TryRemove(0);
    var y := slab.TryRemove(1);
    removed := [x, y];
  }

  /**
   * Freed keys are reused most recently freed first: after freeing 0 and
   * then 1, the next two inserts get 1 and then 0. Iteration still goes by
   * key, not by insertion.
   */
  method ReusedKeysExample() returns (keys: seq<nat>, listed: seq<(nat, int)>)
    ensures keys == [1, 0]
    ensures listed == [(0, 21), (1, 20), (2, 12)]
  {
    var slab, _ := FreedKeysExample();
    var j0 := slab.Insert(20);
    assert j0 == 1 && slab.Alloc() == Vacancy([0], 3);
    var j1 := slab.Insert(21);
    assert j1 == 0;
    keys := [j0, j1];
    listed := slab.Iter();
    ExampleListing(slab.Contents);
  }

  /** The listing of a slab whose live keys are 0, 1 and 2. */
  lemma ExampleListing<T>(m: map<nat, T>)
    requires m.Keys == {0, 1, 2}
    ensures Listing(m) == [(0, m[0]), (1, m[1]), (2, m[2])]
  {
    var want: seq<(nat, T)> := [(0, m[0]), (1, m[1]), (2, m[2])];
    assert Keys(want) == [0, 1, 2];
    ListingIs(m, want);
  }
}
