/**
 The key-value store the counter talks to, reduced to the state it holds and
 the replies the counter reads: one hash per key, whose fields are bucket
 indices and whose values are decimal strings, plus the expiry last set on
 the key.
 */
module Stores {
  import opened Wrappers
  import opened GoInt

  /** The value of a hash field: a decimal integer, or text that `strconv.ParseInt` rejects. */
  datatype Cell = Num(n: int) | Garbage

  /** One hash-valued key: its fields by bucket index, and the expiry last set on it, in nanoseconds. */
  datatype Entry = Entry(fields: map<int, Cell>, ttl: int)

  type Store = map<string, Entry>

  /**
   A store call that failed: a round trip or transaction that did not
   complete (with the reason the client reported), or the store refusing to
   increment a field that does not hold an int64 below the maximum.
   */
  datatype StoreError = Failed(reason: string) | NotAnInteger

  /** Go's `(value, error)` pair: the value is the zero default whenever the error is set. */
  datatype Reply<T> = Reply(value: T, err: Option<StoreError>)

  /** The store after a write, and the error the write reported. */
  datatype Effect = Effect(store: Store, err: Option<StoreError>)

  /** The field `f` of the hash at `key`, absent when either is missing. */
  function Field(s: Store, key: string, f: int): (c: Option<Cell>)
    ensures c.Some? <==> key in s && f in s[key].fields
  {
    if key in s && f in s[key].fields then Some(s[key].fields[f]) else None
  }

  /**
   What `histogram` makes of one field of the batch read: the parsed int64,
   or 0 when the field is absent (nil reply, empty string) or does not parse.
   */
  function ReadCount(c: Option<Cell>): (v: int)
    ensures InInt64(v)
    ensures c == None || c == Some(Garbage) ==> v == 0
    ensures c.Some? && c.value.Num? && InInt64(c.value.n) ==> v == c.value.n
    ensures c.Some? && c.value.Num? && !InInt64(c.value.n) ==> v == 0
  {
    match c
    case Some(Num(n)) => if InInt64(n) then n else 0
    case _ => 0
  }

  /** Whether HINCRBY by one succeeds on this field: absent, or an int64 below the maximum. */
  predicate Incrementable(c: Option<Cell>) {
    c.None? || (c.value.Num? && InInt64(c.value.n) && c.value.n < Int64Max)
  }

  /** Every integer stored anywhere is non-negative. */
  ghost predicate NonNegative(s: Store) {
    forall k, f :: k in s && f in s[k].fields && s[k].fields[f].Num? ==> s[k].fields[f].n >= 0
  }
}
