/**
 * The keyed-store contract of `Object` (src/object/object.rs): `get`,
 * `get_mut` and `add` on a name-keyed map. Every `Object` impl in the
 * program is a `HashMap<String, T>` field, so the contract is stated once
 * here over `map<string, V>` and each impl delegates to it.
 */
module Store {
  import opened Wrappers

  /** `get`: the entry stored under `name`, or `None` when nothing is. */
  function Get<V>(m: map<string, V>, name: string): (r: Option<V>)
    ensures r.Some? <==> name in m
    ensures r.Some? ==> r.value == m[name]
  {
    if name in m then Some(m[name]) else None
  }

  /**
   * `get_mut` followed by a write through the returned reference: `None`
   * when `name` is undeclared, otherwise the map with only that entry
   * replaced by `edit` of it.
   */
  function GetMut<V>(m: map<string, V>, name: string, edit: V -> V): (r: Option<map<string, V>>)
    ensures r.None? <==> name !in m
    ensures r.Some? ==> r.value.Keys == m.Keys && r.value[name] == edit(m[name])
    ensures r.Some? ==> forall k :: k in m && k != name ==> r.value[k] == m[k]
  {
    if name in m then Some(m[name := edit(m[name])]) else None
  }

  /** `add`: insert `value` under `name`, replacing any earlier entry. */
  function Add<V>(m: map<string, V>, name: string, value: V): (r: map<string, V>)
    ensures r.Keys == m.Keys + {name}
    ensures Get(r, name) == Some(value)
    ensures forall k :: k != name ==> Get(r, k) == Get(m, k)
  {
    m[name := value]
  }

  /** A later `add` under the same name wins: the earlier value is gone. */
  lemma AddOverwrites<V>(m: map<string, V>, name: string, v1: V, v2: V)
    ensures Add(Add(m, name, v1), name, v2) == Add(m, name, v2)
  {
  }

  /** Adds under different names commute. */
  lemma AddCommutes<V>(m: map<string, V>, n1: string, v1: V, n2: string, v2: V)
    requires n1 != n2
    ensures Add(Add(m, n1, v1), n2, v2) == Add(Add(m, n2, v2), n1, v1)
  {
  }

  /** No element occurs twice in `order`. */
  ghost predicate Distinct<K>(order: seq<K>) {
    forall i, j :: 0 <= i < j < |order| ==> order[i] != order[j]
  }

  /**
   * `order` is one iteration order of a `HashMap` with key set `keys`:
   * every key exactly once. Which order is left open.
   */
  ghost predicate Enumerates<K(!new)>(order: seq<K>, keys: set<K>) {
    Distinct(order) && forall k :: k in order <==> k in keys
  }
}
