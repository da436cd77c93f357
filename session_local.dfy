/**
 * `_SessionLocalContainer<T>` (common/base_cpp/tlscont.h): one lazily
 * constructed `T` per session id, in a map from `qword` to an owning
 * pointer that may be null. The container's lock is left out.
 */
module SessionLocal {
  import opened Wrappers

  newtype qword = x: int | 0 <= x < 0x1_0000_0000_0000_0000

  /** `getLocalCopy(id)` on the map: `findOrInsert(id)`, then construct a `T`
      (the value `made`) when the entry is missing or null.
      Afterwards `id` owns an object, which is the one returned; an object
      already owned by `id` is kept and returned; every other entry stays as
      it was, so no entry ever disappears. */
  function FindOrInsert<T>(m: map<qword, Option<T>>, id: qword, made: T): (r: (map<qword, Option<T>>, T))
    ensures r.0.Keys == m.Keys + {id}
    ensures r.0[id] == Some(r.1)
    ensures id in m && m[id].Some? ==> r.1 == m[id].value
    ensures id !in m || m[id].None? ==> r.1 == made
    ensures forall k :: k in m && k != id ==> r.0[k] == m[k]
  {
    if id in m && m[id].Some? then (m, m[id].value)
    else (m[id := Some(made)], made)
  }

  /** A second call with the same id returns the same object and changes nothing. */
  lemma SecondCallSameObject<T>(m: map<qword, Option<T>>, id: qword, made: T, made2: T)
    ensures var (m1, obj) := FindOrInsert(m, id, made);
            FindOrInsert(m1, id, made2) == (m1, obj)
  {
  }

  /** A sequence of `getLocalCopy` calls with ids `ids`, the i-th constructing
      `made[i]` if it must; the map afterwards and the objects handed out. */
  function Calls<T>(m: map<qword, Option<T>>, ids: seq<qword>, made: seq<T>): (r: (map<qword, Option<T>>, seq<T>))
    requires |made| == |ids|
    ensures |r.1| == |ids|
    decreases |ids|
  {
    if ids == [] then (m, [])
    else
      var (m1, obj) := FindOrInsert(m, ids[0], made[0]);
      var (m2, objs) := Calls(m1, ids[1..], made[1..]);
      (m2, [obj] + objs)
  }

  /** Over any sequence of calls no entry is removed, an object once owned by
      an id stays owned by it, and every call hands out the object its id owns
      at the end. */
  lemma {:induction false} CallsAreStable<T>(m: map<qword, Option<T>>, ids: seq<qword>, made: seq<T>)
    requires |made| == |ids|
    ensures m.Keys <= Calls(m, ids, made).0.Keys
    ensures forall k :: k in m && m[k].Some? ==> Calls(m, ids, made).0[k] == m[k]
    ensures forall i :: 0 <= i < |ids| ==>
              ids[i] in Calls(m, ids, made).0 && Calls(m, ids, made).0[ids[i]] == Some(Calls(m, ids, made).1[i])
    decreases |ids|
  {
    if ids != [] {
      var (m1, obj) := FindOrInsert(m, ids[0], made[0]);
      CallsAreStable(m1, ids[1..], made[1..]);
      var (m2, objs) := Calls(m1, ids[1..], made[1..]);
      assert Calls(m, ids, made) == (m2, [obj] + objs);
      forall i | 0 <= i < |ids|
        ensures ids[i] in m2 && m2[ids[i]] == Some(([obj] + objs)[i])
      {
        if i > 0 {
          assert ids[i] == ids[1..][i - 1];
        }
      }
    }
  }

  /** The container. `GetLocalCopy` receives the object `new T` would give;
      it is stored only when the id has no object yet. */
  class SessionLocalContainer<T> {
    var entries: map<qword, Option<T>>

    constructor ()
      ensures entries == map[]
    {
      entries := map[];
    }

    method GetLocalCopy(id: qword, made: T) returns (obj: T)
      modifies this
      ensures (entries, obj) == FindOrInsert(old(entries), id, made)
    {
      if id !in entries || entries[id].None? {
        entries := entries[id := Some(made)];
      }
      obj := entries[id].value;
    }

    /** `getLocalCopy()` without an id: the calling thread's session id,
        which the session-id manager would supply, is passed in. */
    method GetCurrentLocalCopy(currentSessionId: qword, made: T) returns (obj: T)
      modifies this
      ensures (entries, obj) == FindOrInsert(old(entries), currentSessionId, made)
    {
      obj := GetLocalCopy(currentSessionId, made);
    }
  }
}
