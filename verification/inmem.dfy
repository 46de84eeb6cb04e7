/** The in-memory key-value store of package `inmem`.

    Every operation holds the store's mutex for its whole duration, so each
    one is atomic and any run of them is some sequence of single steps; the
    store is modelled as an immutable map with one function per operation. */
module Inmem {
  import opened Wire

  /** A store mapping string keys to values of any type `V`. */
  datatype Store<V> = Store(entries: map<Bytes, V>)

  /** What `Get` returns: the stored value, or `ErrNotFound` (with a nil value). */
  datatype GetResult<V> = Found(value: V) | ErrNotFound

  /** A store with its map allocated and no entries. */
  function Empty<V>(): (s: Store<V>)
    ensures forall k :: k !in s.entries
  {
    Store(map[])
  }

  /** `Store.Get`: the value stored under `key`, or `ErrNotFound` when
      there is none. It takes the store by value and returns no new store,
      so it cannot change it. */
  function Get<V>(s: Store<V>, key: Bytes): (r: GetResult<V>)
    ensures r.ErrNotFound? <==> key !in s.entries
    ensures r.Found? ==> key in s.entries && r.value == s.entries[key]
  {
    if key in s.entries then Found(s.entries[key]) else ErrNotFound
  }

  /** `Store.Set`: afterwards `key` reads back as `val` and every other key
      reads as before. Its error result is always nil. */
  function Set<V>(s: Store<V>, key: Bytes, val: V): (s': Store<V>)
    ensures Get(s', key) == Found(val)
    ensures forall k :: k != key ==> Get(s', k) == Get(s, k)
    ensures s'.entries.Keys == s.entries.Keys + {key}
  {
    Store(s.entries[key := val])
  }

  /** A second `Set` of the same key replaces the first entirely. */
  lemma SetOverwrites<V>(s: Store<V>, key: Bytes, v1: V, v2: V)
    ensures Set(Set(s, key, v1), key, v2) == Set(s, key, v2)
  {
  }

  /** The store after the writes `writes`, applied in order. */
  function Replay<V>(s: Store<V>, writes: seq<(Bytes, V)>): Store<V> {
    if |writes| == 0 then s
    else
      var last := writes[|writes| - 1];
      Set(Replay(s, writes[..|writes| - 1]), last.0, last.1)
  }

  /** The value of the last write to `key` in `writes`, if any. */
  function LastWrite<V>(writes: seq<(Bytes, V)>, key: Bytes): GetResult<V> {
    if |writes| == 0 then ErrNotFound
    else if writes[|writes| - 1].0 == key then Found(writes[|writes| - 1].1)
    else LastWrite(writes[..|writes| - 1], key)
  }

  /** After any sequence of writes, `Get` returns the last value written to
      the key, or what the store held before if the key was never written. */
  lemma {:induction false} GetAfterWrites<V>(s: Store<V>, writes: seq<(Bytes, V)>, key: Bytes)
    ensures Get(Replay(s, writes), key) ==
            (if LastWrite(writes, key).Found? then LastWrite(writes, key) else Get(s, key))
  {
    if |writes| > 0 {
      GetAfterWrites(s, writes[..|writes| - 1], key);
    }
  }

  /** A key no write ever touched is not found in a store that started empty. */
  lemma NeverSetIsNotFound<V>(writes: seq<(Bytes, V)>, key: Bytes)
    requires forall i :: 0 <= i < |writes| ==> writes[i].0 != key
    ensures Get(Replay(Empty(), writes), key) == ErrNotFound
  {
    GetAfterWrites(Empty(), writes, key);
    NoWriteNoLast(writes, key);
  }

  lemma {:induction false} NoWriteNoLast<V>(writes: seq<(Bytes, V)>, key: Bytes)
    requires forall i :: 0 <= i < |writes| ==> writes[i].0 != key
    ensures LastWrite(writes, key) == ErrNotFound
  {
    if |writes| > 0 {
      NoWriteNoLast(writes[..|writes| - 1], key);
    }
  }
}
