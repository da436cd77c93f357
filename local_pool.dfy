/**
 * `_LocalVariablesPool` (common/base_cpp/tlscont.h): an ordered pool of
 * type-erased slots reused by call paths that acquire the same types in the
 * same order, with a size fingerprint guarding against order drift; its
 * lease `_LocalVariablesPoolAutoRelease`; and the `CP_DEF` wiring that draws
 * such a pool from a shared `_ReusableVariablesPool`.
 *
 * The parallel arrays `data` and `destructors` become one sequence of
 * optional slots (the storage and the type whose destructor owns it);
 * `type_hash` stays a parallel sequence.
 */
module LocalPool {
  import opened Wrappers
  import opened ReusablePool

  /** A C++ type as the pool sees it: a name and its `sizeof`. */
  datatype TypeTag = TypeTag(name: string, size: nat)

  /** `hash<T>()` is `sizeof(T)`: it depends on the size alone, so distinct
      types of one size share it. */
  function Hash(t: TypeTag): nat {
    t.size
  }

  /** Two types get the same fingerprint exactly when they have the same size. */
  lemma HashIsSize(a: TypeTag, b: TypeTag)
    ensures Hash(a) == Hash(b) <==> a.size == b.size
  {
  }

  /** The fingerprint does not identify a type: distinct types can share it. */
  lemma DistinctTypesShareHash()
    ensures exists a: TypeTag, b: TypeTag :: a != b && Hash(a) == Hash(b)
  {
    var a, b := TypeTag("A", 4), TypeTag("B", 4);
    assert a != b && Hash(a) == Hash(b);
  }

  /** The block `malloc` returned for a slot, with the object built in it.
      The pool only hands out the reference; what lives in it is the caller's. */
  class Storage {
    constructor () {}
  }

  /** An occupied slot: the type constructed in it and its storage. */
  datatype Slot = Slot(tag: TypeTag, obj: Storage)

  /** The pool's state: `data`/`destructors` as `data`, `type_hash` as
      `hashes`, and the cursor `index`. */
  datatype SlotPool = SlotPool(data: seq<Option<Slot>>, hashes: seq<nat>, index: nat)

  const OrderError := "VariablesPool: invalid initialization order"

  /** A new or rewound pool. */
  const Fresh := SlotPool([], [], 0)

  /** The cursor never passes the end of the arrays; each recorded
      fingerprint is that of the slot's type, and 0 for an empty slot. */
  predicate Consistent(p: SlotPool) {
    |p.hashes| == |p.data| && p.index <= |p.data| &&
    forall i :: 0 <= i < |p.data| ==>
      p.hashes[i] == (if p.data[i].Some? then Hash(p.data[i].value.tag) else 0)
  }

  /** `Array::expandFill(n, fill)`: grow to at least `n` cells, new cells set to `fill`. */
  function Expanded<X>(s: seq<X>, n: nat, fill: X): (r: seq<X>)
    ensures |r| == if |s| < n then n else |s|
    ensures forall i :: 0 <= i < |s| ==> r[i] == s[i]
    ensures forall i :: |s| <= i < |r| ==> r[i] == fill
  {
    if n <= |s| then s else s + seq(n - |s|, _ => fill)
  }

  /** The slot under the cursor exists and is filled. */
  predicate Occupied(p: SlotPool) {
    p.index < |p.data| && p.data[p.index].Some?
  }

  /** The slot under the cursor was built for a type of another size. */
  predicate Mismatch(p: SlotPool, tag: TypeTag) {
    Occupied(p) && p.index < |p.hashes| && p.hashes[p.index] != Hash(tag)
  }

  /** `getVacant<T>()` for the type `tag`; `made` is the storage `malloc` and
      placement `new` would produce if the slot is empty.
      Fails with the order error exactly when the slot under the cursor is
      filled with another fingerprint, and then changes nothing. Otherwise
      the cursor moves on by one, the slot it passed holds a type of this
      fingerprint, an already filled slot hands back its own storage, and
      no filled slot is ever touched or removed. */
  function GetVacantSpec(p: SlotPool, tag: TypeTag, made: Storage): (r: (SlotPool, Result<Storage, string>))
    requires Consistent(p)
    ensures Consistent(r.0)
    ensures r.1.Err? <==> Mismatch(p, tag)
    ensures r.1.Err? ==> r.1.error == OrderError && r.0 == p
    ensures r.1.Ok? ==>
              r.0.index == p.index + 1 && p.index < |r.0.data| && r.0.data[p.index].Some? &&
              Hash(r.0.data[p.index].value.tag) == Hash(tag) &&
              r.1.value == r.0.data[p.index].value.obj
    ensures Occupied(p) ==> r.0.data == p.data
    ensures !Occupied(p) ==> r.1 == Ok(made) && r.0.data[p.index] == Some(Slot(tag, made))
    ensures |r.0.data| >= |p.data|
    ensures forall i :: 0 <= i < |p.data| && (i != p.index || p.data[i].Some?) ==> r.0.data[i] == p.data[i]
  {
    var data := Expanded(p.data, p.index + 1, None);
    var hashes := Expanded(p.hashes, p.index + 1, 0);
    var empty := data[p.index].None?;
    var data' := if empty then data[p.index := Some(Slot(tag, made))] else data;
    var hashes' := if empty then hashes[p.index := Hash(tag)] else hashes;
    if hashes'[p.index] != Hash(tag) then
      (SlotPool(data', hashes', p.index), Err(OrderError))
    else
      (SlotPool(data', hashes', p.index + 1), Ok(data'[p.index].value.obj))
  }

  /** `reset()`: rewind the cursor; slots and fingerprints stay. */
  function Reset(p: SlotPool): (r: SlotPool)
    ensures r.data == p.data && r.hashes == p.hashes && r.index == 0
    ensures Consistent(p) ==> Consistent(r)
  {
    p.(index := 0)
  }

  /** A call path acquiring `tags` in order, `made[i]` standing for the storage
      the i-th call would construct. Stops at the first order error. */
  function Acquire(p: SlotPool, tags: seq<TypeTag>, made: seq<Storage>): (r: (SlotPool, Result<seq<Storage>, string>))
    requires Consistent(p) && |made| == |tags|
    ensures Consistent(r.0)
    ensures r.1.Ok? ==> |r.1.value| == |tags|
    decreases |tags|
  {
    if tags == [] then (p, Ok([]))
    else
      var (p1, r1) := GetVacantSpec(p, tags[0], made[0]);
      match r1
      case Err(e) => (p1, Err(e))
      case Ok(obj) =>
        var (p2, rs) := Acquire(p1, tags[1..], made[1..]);
        (p2, if rs.Ok? then Ok([obj] + rs.value) else rs)
  }

  /** A run never shrinks the pool and never touches a filled slot. */
  lemma {:induction false} AcquireKeepsFilled(p: SlotPool, tags: seq<TypeTag>, made: seq<Storage>)
    requires Consistent(p) && |made| == |tags|
    ensures |Acquire(p, tags, made).0.data| >= |p.data|
    ensures forall i :: 0 <= i < |p.data| && p.data[i].Some? ==> Acquire(p, tags, made).0.data[i] == p.data[i]
    decreases |tags|
  {
    if tags != [] {
      var (p1, r1) := GetVacantSpec(p, tags[0], made[0]);
      if r1.Ok? {
        AcquireKeepsFilled(p1, tags[1..], made[1..]);
      }
    }
  }

  /** A successful run from cursor `p.index` ends with the cursor advanced
      by the number of acquisitions. */
  lemma {:induction false} AcquireAdvances(p: SlotPool, tags: seq<TypeTag>, made: seq<Storage>)
    requires Consistent(p) && |made| == |tags|
    requires Acquire(p, tags, made).1.Ok?
    ensures Acquire(p, tags, made).0.index == p.index + |tags|
    decreases |tags|
  {
    if tags != [] {
      var (p1, r1) := GetVacantSpec(p, tags[0], made[0]);
      AcquireAdvances(p1, tags[1..], made[1..]);
    }
  }

  /** Replaying, from the same cursor position over the slots a successful
      run left behind, any sequence of types with the same fingerprints
      hands back the same storage in the same order, allocates nothing and
      leaves the pool exactly as the first run did. */
  lemma {:induction false} ReplayFrom(p: SlotPool, q: SlotPool, tags: seq<TypeTag>, tags2: seq<TypeTag>,
                                      made: seq<Storage>, made2: seq<Storage>)
    requires Consistent(p) && |made| == |tags|
    requires Acquire(p, tags, made).1.Ok?
    requires q.data == Acquire(p, tags, made).0.data && q.hashes == Acquire(p, tags, made).0.hashes
    requires q.index == p.index
    requires |tags2| == |tags| && |made2| == |tags|
    requires forall i :: 0 <= i < |tags| ==> Hash(tags2[i]) == Hash(tags[i])
    ensures Consistent(q)
    ensures Acquire(q, tags2, made2) == Acquire(p, tags, made)
    decreases |tags|
  {
    if tags != [] {
      var (p1, r1) := GetVacantSpec(p, tags[0], made[0]);
      var pf := Acquire(p, tags, made).0;
      AcquireKeepsFilled(p1, tags[1..], made[1..]);
      var k := p.index;
      assert pf.data[k] == p1.data[k];
      assert Occupied(q) && !Mismatch(q, tags2[0]);
      var (q1, s1) := GetVacantSpec(q, tags2[0], made2[0]);
      assert q1 == q.(index := k + 1) && s1 == r1;
      assert forall i :: 0 <= i < |tags| - 1 ==> Hash(tags2[1..][i]) == Hash(tags[1..][i]);
      ReplayFrom(p1, q1, tags[1..], tags2[1..], made[1..], made2[1..]);
    }
  }

  /** The reuse promise of the pool: acquire `tags` from a rewound pool,
      `reset()`, acquire them again: the same storage comes back in the same
      order, nothing is allocated and the pool ends in the same state. */
  lemma ReplayAfterReset(p: SlotPool, tags: seq<TypeTag>, made: seq<Storage>, made2: seq<Storage>)
    requires Consistent(p) && p.index == 0 && |made| == |tags| && |made2| == |tags|
    requires Acquire(p, tags, made).1.Ok?
    ensures Acquire(Reset(Acquire(p, tags, made).0), tags, made2) == Acquire(p, tags, made)
  {
    ReplayFrom(p, Reset(Acquire(p, tags, made).0), tags, tags, made, made2);
  }

  /** The fingerprint is only a size: after a reset, a call path that asks
      for a different type of the same size where the first run built its
      slot is not detected, and receives the other type's storage. */
  lemma SameSizeGoesUndetected(p: SlotPool, tags: seq<TypeTag>, tags2: seq<TypeTag>, made: seq<Storage>, made2: seq<Storage>)
    requires Consistent(p) && p.index == 0 && |made| == |tags| && |made2| == |tags|
    requires Acquire(p, tags, made).1.Ok?
    requires |tags2| == |tags| && forall i :: 0 <= i < |tags| ==> tags2[i].size == tags[i].size
    ensures Acquire(Reset(Acquire(p, tags, made).0), tags2, made2).1 == Acquire(p, tags, made).1
  {
    ReplayFrom(p, Reset(Acquire(p, tags, made).0), tags, tags2, made, made2);
  }

  /** A call path that drifts: it agrees with an earlier successful run for
      `j` acquisitions and then asks for a type of another size than the one
      the run built at position `j`. Replaying it over the slots that run left
      behind fails with the order error. */
  lemma {:induction false} DivergeFrom(p: SlotPool, q: SlotPool, tags: seq<TypeTag>, j: nat, other: TypeTag,
                                       made: seq<Storage>, made2: seq<Storage>)
    requires Consistent(p) && |made| == |tags|
    requires Acquire(p, tags, made).1.Ok?
    requires q.data == Acquire(p, tags, made).0.data && q.hashes == Acquire(p, tags, made).0.hashes
    requires q.index == p.index
    requires j < |tags| && Hash(other) != Hash(tags[j]) && |made2| == j + 1
    ensures Consistent(q)
    ensures Acquire(q, tags[..j] + [other], made2).1 == Err(OrderError)
    decreases j
  {
    var (p1, r1) := GetVacantSpec(p, tags[0], made[0]);
    var pf := Acquire(p, tags, made).0;
    AcquireKeepsFilled(p1, tags[1..], made[1..]);
    var k := p.index;
    assert pf.data[k] == p1.data[k];
    var t := tags[..j] + [other];
    if j == 0 {
      assert t == [other];
      assert Mismatch(q, other);
    } else {
      assert Occupied(q) && !Mismatch(q, t[0]);
      var (q1, s1) := GetVacantSpec(q, t[0], made2[0]);
      assert q1 == q.(index := k + 1);
      assert t[1..] == tags[1..][..j - 1] + [other];
      DivergeFrom(p1, q1, tags[1..], j - 1, other, made[1..], made2[1..]);
    }
  }

  /** The order check after a reset: acquiring the first `j` types of an
      earlier run and then a type of another size than the run's `j`-th
      raises "invalid initialization order". */
  lemma DivergeAfterReset(p: SlotPool, tags: seq<TypeTag>, j: nat, other: TypeTag, made: seq<Storage>, made2: seq<Storage>)
    requires Consistent(p) && p.index == 0 && |made| == |tags|
    requires Acquire(p, tags, made).1.Ok?
    requires j < |tags| && Hash(other) != Hash(tags[j]) && |made2| == j + 1
    ensures Acquire(Reset(Acquire(p, tags, made).0), tags[..j] + [other], made2).1 == Err(OrderError)
  {
    DivergeFrom(p, Reset(Acquire(p, tags, made).0), tags, j, other, made, made2);
  }

  /** `_LocalVariablesPool`, proved against `GetVacantSpec` and `Reset`.
      Its destructor (destroy and free every slot) is left out. */
  class LocalVariablesPool {
    var data: seq<Option<Slot>>
    var typeHash: seq<nat>
    var index: nat

    ghost function State(): SlotPool
      reads this
    {
      SlotPool(data, typeHash, index)
    }

    ghost predicate Valid()
      reads this
    {
      Consistent(State())
    }

    constructor ()
      ensures Valid() && State() == Fresh
    {
      data := [];
      typeHash := [];
      new;
      Reset();
    }

    method GetVacant(tag: TypeTag) returns (r: Result<Storage, string>)
      requires Valid()
      modifies this
      ensures Valid()
      ensures r.Err? <==> Mismatch(old(State()), tag)
      ensures r.Err? ==> r.error == OrderError && State() == old(State())
      ensures r.Ok? ==> (State(), r) == GetVacantSpec(old(State()), tag, r.value)
      ensures r.Ok? && !Occupied(old(State())) ==> fresh(r.value)
    {
      ghost var p := State();
      data := Expanded(data, index + 1, None);
      typeHash := Expanded(typeHash, index + 1, 0);
      if data[index].None? {
        var block := new Storage();
        data := data[index := Some(Slot(tag, block))];
        typeHash := typeHash[index := Hash(tag)];
      }
      if typeHash[index] != Hash(tag) {
        return Err(OrderError);
      }
      r := Ok(data[index].value.obj);
      index := index + 1;
    }

    method Reset()
      modifies this
      ensures data == old(data) && typeHash == old(typeHash) && index == 0
    {
      index := 0;
    }
  }

  /** `_LocalVariablesPoolAutoRelease`: a lease on a `_LocalVariablesPool`
      drawn from a shared pool. Its destructor rewinds the leased pool and
      then, as the base-class destructor, releases its index. */
  class LocalVariablesPoolAutoRelease {
    const lease: ReusableVariablesAutoRelease<LocalVariablesPool>

    constructor ()
      ensures fresh(lease) && lease.idx == -1 && lease.pool == null
    {
      lease := new ReusableVariablesAutoRelease();
    }

    /** What `Finish` may change: the shared pool and the leased local pool. */
    ghost function Footprint(): set<object>
      reads this, lease, lease.pool
    {
      if lease.pool == null then {}
      else if 0 <= lease.idx < |lease.pool.objects| then {lease.pool, lease.pool.objects[lease.idx]}
      else {lease.pool}
    }

    method Finish()
      requires lease.Holds()
      modifies Footprint()
      ensures lease.pool != null && old(lease.pool.isValid) ==>
                var shared := lease.pool;
                var local := old(shared.objects)[lease.idx];
                shared.Valid() && shared.isValid && shared.objects == old(shared.objects) &&
                shared.State() == Released(old(shared.State()), lease.idx) &&
                local.index == 0 && local.data == old(local.data) && local.typeHash == old(local.typeHash)
      ensures lease.pool != null && !old(lease.pool.isValid) ==> unchanged(old(Footprint()))
    {
      var shared := lease.pool;
      if shared == null {
        return;
      }
      if shared.isValid {
        var local := shared.GetByIndex(lease.idx);
        local.Reset();
      }
      lease.Finish();
    }
  }

  /** `CP_DEF(cls)::_getLocalPool`: take a local pool from the class's shared
      pool and bind the caller's auto-release to it. When the shared pool
      has a vacant index, the very local pool stored there comes back;
      otherwise a new, empty one is appended. Every local pool the shared
      pool owns stays valid, so the result can serve `GetVacant` at once. */
  method GetLocalPool(shared: ReusableVariablesPool<LocalVariablesPool>, autoRelease: LocalVariablesPoolAutoRelease)
    returns (local: LocalVariablesPool)
    requires shared.Valid()
    requires forall o :: o in shared.objects ==> o.Valid()
    modifies shared, autoRelease.lease
    ensures shared.isValid == old(shared.isValid)
    ensures autoRelease.lease.pool == shared && autoRelease.lease.Holds()
    ensures (shared.State(), autoRelease.lease.idx) == Acquired(old(shared.State()))
    ensures shared.objects == if old(shared.vacant) != [] then old(shared.objects) else old(shared.objects) + [local]
    ensures local == shared.objects[autoRelease.lease.idx]
    ensures old(shared.vacant) == [] ==> fresh(local) && local.State() == Fresh
    ensures local.Valid() && forall o :: o in shared.objects ==> o.Valid()
  {
    var made := new LocalVariablesPool();
    var idx;
    idx, local := shared.GetVacant(made);
    autoRelease.lease.Init(idx, shared);
  }
}
