/**
  The `Enviroment` capability and its in-memory implementation `FakeEnv` (`src/env.rs`).

  On Unix an `OsString` is an arbitrary byte sequence, so keys and values are `Bytes`. `get`
  takes `&self` and `set` takes `&mut self`; as values, `Get` returns no environment and `Set`
  returns the updated one.
*/
module Env {

  import opened Wrappers
  import opened Utf8

  datatype FakeEnv = FakeEnv(vars: map<Bytes, Bytes>) {

    /** A clone of the value stored under `key`: present exactly for the keys that are set. */
    function Get(key: Bytes): (r: Option<Bytes>)
      ensures r.Some? <==> key in vars
      ensures r.Some? ==> r.value == vars[key]
    {
      if key in vars then Some(vars[key]) else None
    }

    /** `HashMap::insert`: binds `key` to `value`, replacing any earlier binding. */
    function Set(key: Bytes, value: Bytes): (e: FakeEnv)
      ensures e.Get(key) == Some(value)
      ensures forall k :: k != key ==> e.Get(k) == Get(k)
      ensures e.vars.Keys == vars.Keys + {key}
    {
      FakeEnv(vars[key := value])
    }
  }

  /** `FakeEnv::default()`: no variable is set. */
  function Empty(): (e: FakeEnv)
    ensures forall k :: e.Get(k) == None
  {
    FakeEnv(map[])
  }

  /** A second `set` of the same key overwrites the first. */
  lemma SetOverwrites(e: FakeEnv, key: Bytes, first: Bytes, second: Bytes)
    ensures e.Set(key, first).Set(key, second) == e.Set(key, second)
    ensures e.Set(key, first).Set(key, second).Get(key) == Some(second)
  {
  }
}
