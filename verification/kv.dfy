/** What every engine promises: SET inserts an absent key, MOD replaces and DEL removes a present one. */
module Kv {
  import opened Bytes

  datatype Option<+T> = None | Some(value: T)

  type Store = map<Str, Str>

  function Lookup(m: Store, key: Option<Str>): Option<Str> {
    if key.Some? && key.value in m then Some(m[key.value]) else None
  }

  function AfterSet(m: Store, k: Str, v: Str): Store { if k in m then m else m[k := v] }

  function AfterMod(m: Store, k: Str, v: Str): Store { if k in m then m[k := v] else m }

  function AfterDel(m: Store, k: Str): Store { m - {k} }
}
