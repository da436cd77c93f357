/**
 * `_ReusableVariablesPool<T>` and its lease `_ReusableVariablesAutoRelease<T>`
 * (common/base_cpp/tlscont.h): a growable array of objects plus a stack of
 * vacant indices, and a scoped record that gives one index back.
 *
 * The pool's bookkeeping is first stated on values (PoolState, Acquired,
 * Released) and proved there (partition of the indices, last-in first-out
 * reuse, the array never outgrows the peak number of leases); the class
 * ReusableVariablesPool is then proved against those functions.
 * The pool's lock is left out: every operation is one atomic step.
 */
module ReusablePool {

  /** The bookkeeping of a pool: how many objects `_objects` holds and the
      stack `_vacant_indices`, whose top is its last element. */
  datatype PoolState = PoolState(size: nat, vacant: seq<nat>)

  /** A freshly constructed pool. */
  const Empty := PoolState(0, [])

  function Max(a: nat, b: nat): nat { if a < b then b else a }

  predicate NoDuplicates(v: seq<nat>) {
    forall i, j :: 0 <= i < j < |v| ==> v[i] != v[j]
  }

  function Elements(v: seq<nat>): set<nat> { set x | x in v }

  /** The indices `[0, n)` of an object array of size `n`. */
  function Range(n: nat): (r: set<nat>)
    ensures forall i: nat :: i in r <==> i < n
  {
    if n == 0 then {} else Range(n - 1) + {n - 1}
  }

  /** The stack never holds an index twice and only holds indices of existing objects. */
  predicate WellFormed(s: PoolState) {
    NoDuplicates(s.vacant) && forall i :: 0 <= i < |s.vacant| ==> s.vacant[i] < s.size
  }

  /** The indices currently handed out: those of existing objects that are not vacant. */
  function Leased(s: PoolState): set<nat> {
    set i: nat | i < s.size && i !in s.vacant
  }

  /** `getVacant`: pop the top vacant index if there is one, otherwise append
      one object and hand out the new last index. The returned index was
      not leased before and is leased afterwards; nothing else changes hands. */
  function Acquired(s: PoolState): (r: (PoolState, nat))
    requires WellFormed(s)
    ensures WellFormed(r.0)
    ensures r.1 < r.0.size && r.1 !in Leased(s)
    ensures Leased(r.0) == Leased(s) + {r.1}
  {
    if |s.vacant| != 0 then
      var n := |s.vacant| - 1;
      assert s.vacant == s.vacant[..n] + [s.vacant[n]];
      (PoolState(s.size, s.vacant[..n]), s.vacant[n])
    else
      (PoolState(s.size + 1, s.vacant), s.size)
  }

  /** `release(idx)`: push `idx` back. The caller must hand back an index it
      holds from this very pool; the object array keeps its size and exactly
      `idx` stops being leased. */
  function Released(s: PoolState, idx: nat): (r: PoolState)
    requires WellFormed(s) && idx in Leased(s)
    ensures WellFormed(r) && r.size == s.size
    ensures Leased(r) == Leased(s) - {idx}
  {
    PoolState(s.size, s.vacant + [idx])
  }

  lemma {:induction false} RangeSize(n: nat)
    ensures |Range(n)| == n
  {
    if n > 0 {
      RangeSize(n - 1);
      assert Range(n) == Range(n - 1) + {n - 1};
    }
  }

  lemma {:induction false} DistinctElements(v: seq<nat>)
    requires NoDuplicates(v)
    ensures |Elements(v)| == |v|
  {
    if v != [] {
      var w := v[..|v| - 1];
      DistinctElements(w);
      assert v == w + [v[|v| - 1]];
      assert Elements(v) == Elements(w) + {v[|v| - 1]};
    }
  }

  /** Every index of the object array is either vacant or leased, never both,
      so the vacant and the leased indices together count the objects. */
  lemma Partition(s: PoolState)
    requires WellFormed(s)
    ensures Elements(s.vacant) * Leased(s) == {}
    ensures Elements(s.vacant) + Leased(s) == Range(s.size)
    ensures |Leased(s)| + |s.vacant| == s.size
  {
    assert Elements(s.vacant) + Leased(s) == Range(s.size);
    RangeSize(s.size);
    DistinctElements(s.vacant);
  }

  /** Last in, first out: an index just released is the next one handed out,
      and the pool is back where it was. */
  lemma ReleaseThenAcquire(s: PoolState, idx: nat)
    requires WellFormed(s) && idx in Leased(s)
    ensures Acquired(Released(s, idx)) == (s, idx)
  {
  }

  /** Acquiring and giving the index straight back restores the pool when an
      index was vacant; on an empty stack the pool keeps the one new object,
      now vacant. */
  lemma AcquireThenRelease(s: PoolState)
    requires WellFormed(s)
    ensures var (s1, idx) := Acquired(s);
            Released(s1, idx) ==
              if s.vacant != [] then s else PoolState(s.size + 1, [s.size])
  {
  }

  /** One step of a client: `getVacant`, or `release` of index `idx`. */
  datatype Op = Get | Put(idx: nat)

  /** Disciplined use: a `release` hands back an index leased at that moment. */
  predicate Allowed(s: PoolState, op: Op) {
    op.Put? ==> op.idx in Leased(s)
  }

  function Step(s: PoolState, op: Op): (r: PoolState)
    requires WellFormed(s) && Allowed(s, op)
    ensures WellFormed(r)
  {
    match op
    case Get => Acquired(s).0
    case Put(i) => Released(s, i)
  }

  /** Every step of `ops`, run from `s`, is allowed. */
  predicate Disciplined(s: PoolState, ops: seq<Op>)
    requires WellFormed(s)
    decreases |ops|
  {
    ops == [] || (Allowed(s, ops[0]) && Disciplined(Step(s, ops[0]), ops[1..]))
  }

  function Run(s: PoolState, ops: seq<Op>): (r: PoolState)
    requires WellFormed(s) && Disciplined(s, ops)
    ensures WellFormed(r)
    decreases |ops|
  {
    if ops == [] then s else Run(Step(s, ops[0]), ops[1..])
  }

  /** The largest number of indices held at once after any step of `ops`. */
  function PeakLeased(s: PoolState, ops: seq<Op>): nat
    requires WellFormed(s) && Disciplined(s, ops)
    decreases |ops|
  {
    if ops == [] then 0
    else
      var s1 := Step(s, ops[0]);
      Max(|Leased(s1)|, PeakLeased(s1, ops[1..]))
  }

  /** The object array grows only when every object is leased, so after any
      disciplined run its size is the larger of its starting size and the
      peak number of indices held at once. */
  lemma {:induction false} SizeIsPeak(s: PoolState, ops: seq<Op>)
    requires WellFormed(s) && Disciplined(s, ops)
    ensures Run(s, ops).size == Max(s.size, PeakLeased(s, ops))
    decreases |ops|
  {
    if ops != [] {
      var s1 := Step(s, ops[0]);
      Partition(s1);
      if ops[0].Get? && s.vacant == [] {
        assert |Leased(s1)| == s1.size == s.size + 1;
      } else {
        assert |Leased(s1)| <= s1.size == s.size;
      }
      SizeIsPeak(s1, ops[1..]);
    }
  }

  /** From a fresh pool, the number of objects ever created is exactly the
      peak number of simultaneously held leases, and the indices are still
      partitioned into vacant and leased. */
  lemma FromEmpty(ops: seq<Op>)
    requires Disciplined(Empty, ops)
    ensures Run(Empty, ops).size == PeakLeased(Empty, ops)
    ensures Elements(Run(Empty, ops).vacant) + Leased(Run(Empty, ops)) == Range(Run(Empty, ops).size)
    ensures Elements(Run(Empty, ops).vacant) * Leased(Run(Empty, ops)) == {}
  {
    SizeIsPeak(Empty, ops);
    Partition(Run(Empty, ops));
  }

  /** `_ReusableVariablesPool<T>`. Dafny cannot construct a value of a type
      parameter, so `GetVacant` receives the object that `new T` would give;
      it is stored only when the pool has to grow. */
  class ReusableVariablesPool<T> {
    var objects: seq<T>
    var vacant: seq<nat>
    var isValid: bool

    ghost function State(): PoolState
      reads this
    {
      PoolState(|objects|, vacant)
    }

    ghost predicate Valid()
      reads this
    {
      WellFormed(State())
    }

    constructor ()
      ensures Valid() && isValid
      ensures objects == [] && vacant == []
    {
      objects := [];
      vacant := [];
      isValid := true;
    }

    /** The destructor: only the liveness flag is observable afterwards. */
    method Destroy()
      modifies this
      ensures !isValid && objects == old(objects) && vacant == old(vacant)
    {
      isValid := false;
    }

    method GetVacant(made: T) returns (idx: nat, obj: T)
      requires Valid()
      modifies this
      ensures Valid() && isValid == old(isValid)
      ensures (State(), idx) == Acquired(old(State()))
      ensures objects == if old(vacant) != [] then old(objects) else old(objects) + [made]
      ensures idx < |objects| && obj == objects[idx]
    {
      if |vacant| != 0 {
        idx := vacant[|vacant| - 1];
        vacant := vacant[..|vacant| - 1];
        return idx, objects[idx];
      }
      objects := objects + [made];
      idx := |objects| - 1;
      return idx, objects[idx];
    }

    method Release(idx: nat)
      requires Valid() && idx in Leased(State())
      modifies this
      ensures Valid() && isValid == old(isValid) && objects == old(objects)
      ensures State() == Released(old(State()), idx)
    {
      vacant := vacant + [idx];
    }

    /** Direct access to an object by index; it changes nothing. */
    method GetByIndex(idx: nat) returns (obj: T)
      requires idx < |objects|
      ensures obj == objects[idx]
    {
      obj := objects[idx];
    }
  }

  /** `_ReusableVariablesAutoRelease<T>`: a lease `(idx, pool)`. Its C++
      destructor is the explicit method `Finish`. */
  class ReusableVariablesAutoRelease<T> {
    var idx: int
    var pool: ReusableVariablesPool?<T>

    constructor ()
      ensures idx == -1 && pool == null
    {
      idx := -1;
      pool := null;
    }

    method Init(idx: int, pool: ReusableVariablesPool?<T>)
      modifies this
      ensures this.idx == idx && this.pool == pool
    {
      this.idx := idx;
      this.pool := pool;
    }

    /** The lease holds its index when it was initialised and its pool is alive. */
    ghost predicate Holds()
      reads this, pool
    {
      pool != null && pool.isValid ==> pool.Valid() && 0 <= idx && idx in Leased(pool.State())
    }

    /** Nothing happens when the lease was never initialised or its pool has
        already been destroyed; otherwise exactly one `release(idx)`. */
    method Finish()
      requires Holds()
      modifies pool
      ensures pool != null && old(pool.isValid) ==>
                pool.Valid() && pool.isValid && pool.objects == old(pool.objects) &&
                pool.State() == Released(old(pool.State()), idx)
      ensures pool != null && !old(pool.isValid) ==> unchanged(pool)
    {
      if pool == null {
        return;
      }
      if pool.isValid {
        pool.Release(idx);
      }
    }
  }

  /** `QS_DEF`: take an object from a shared pool and bind a new lease to it. */
  method QuasiStatic<T>(pool: ReusableVariablesPool<T>, made: T) returns (obj: T, lease: ReusableVariablesAutoRelease<T>)
    requires pool.Valid()
    modifies pool
    ensures fresh(lease) && lease.pool == pool && lease.Holds()
    ensures pool.isValid == old(pool.isValid)
    ensures (pool.State(), lease.idx) == Acquired(old(pool.State()))
    ensures pool.objects == if old(pool.vacant) != [] then old(pool.objects) else old(pool.objects) + [made]
    ensures obj == pool.objects[lease.idx]
  {
    var idx;
    idx, obj := pool.GetVacant(made);
    lease := new ReusableVariablesAutoRelease();
    lease.Init(idx, pool);
  }
}
