/** The two nested maps the component keeps, `inputs` and `validationErrors`:
    function name to slot key to text or error. These are the updates its
    handlers make with object spreads, each stated pointwise. */
module FieldState {
  import opened Wrappers
  import opened Values

  type Table<V> = map<string, map<Key, V>>

  /** `m[f] || {}` */
  function Row<V>(m: Table<V>, f: string): map<Key, V> {
    if f in m then m[f] else map[]
  }

  /** What a reader sees at slot (f, k): `m[f]?.[k]`. */
  function At<V>(m: Table<V>, f: string, k: Key): Option<V> {
    if f in m && k in m[f] then Some(m[f][k]) else None
  }

  /** `{ ...m, [f]: { ...m[f], [k]: v } }` */
  function Put<V>(m: Table<V>, f: string, k: Key, v: V): (r: Table<V>)
    ensures f in r
    ensures forall g, j :: At(r, g, j) == if g == f && j == k then Some(v) else At(m, g, j)
  {
    m[f := Row(m, f)[k := v]]
  }

  /** A copy of `m[f] || {}` with key `k` deleted, stored back at `f`. */
  function Delete<V>(m: Table<V>, f: string, k: Key): (r: Table<V>)
    ensures f in r
    ensures forall g, j :: At(r, g, j) == if g == f && j == k then None else At(m, g, j)
  {
    m[f := Row(m, f) - {k}]
  }

  /** The error-map update of a live edit: set slot (f, k) to the error, or
      remove it when there is none. */
  function ApplyEdit<V>(m: Table<V>, f: string, k: Key, e: Option<V>): (r: Table<V>)
    ensures f in r
    ensures forall g, j :: At(r, g, j) == if g == f && j == k then e else At(m, g, j)
  {
    match e
    case Some(v) => Put(m, f, k, v)
    case None => Delete(m, f, k)
  }

  /** `{ ...m, [f]: {} }` */
  function ClearRow<V>(m: Table<V>, f: string): (r: Table<V>)
    ensures f in r && r[f] == map[]
    ensures forall g, j :: At(r, g, j) == if g == f then None else At(m, g, j)
  {
    m[f := map[]]
  }

  /** `{ ...m, [f]: undefined }`. The key stays with the value `undefined`;
      every reader treats that exactly like a missing row, so the row is
      removed here. */
  function DropRow<V>(m: Table<V>, f: string): (r: Table<V>)
    ensures f !in r
    ensures forall g, j :: At(r, g, j) == if g == f then None else At(m, g, j)
  {
    m - {f}
  }
}
