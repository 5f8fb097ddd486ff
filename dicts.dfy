/** Python's insertion-ordered `dict` with string keys: the order of `keys` is
    the order `json.dump` writes and `items()` visits. */
module Dicts {
  import opened Seqs

  datatype Dict<V> = Dict(keys: seq<string>, entries: map<string, V>) {

    /** Keys are listed once each, and exactly the keys that map are listed. */
    ghost predicate Valid() {
      Distinct(keys) && forall k :: k in entries <==> k in keys
    }

    /** A dict is falsy in Python exactly when it is empty. */
    predicate IsEmpty() {
      keys == []
    }

    /** `d[k] = v`: an existing key keeps its position, a new one goes last. */
    function Put(k: string, v: V): (d: Dict<V>)
      ensures Valid() ==> d.Valid()
      ensures k in d.entries && d.entries[k] == v
      ensures forall j :: j != k ==> (j in d.entries <==> j in entries)
      ensures forall j :: j != k && j in entries ==> d.entries[j] == entries[j]
      ensures d.keys == if k in entries then keys else keys + [k]
    {
      if k in entries then Dict(keys, entries[k := v]) else Dict(keys + [k], entries[k := v])
    }
  }

  function EmptyDict<V>(): (d: Dict<V>)
    ensures d.Valid() && d.IsEmpty() && d.entries == map[]
  {
    Dict([], map[])
  }

  /** Assigning a key the value it already has changes nothing. */
  lemma PutSame<V>(d: Dict<V>, k: string)
    requires k in d.entries
    ensures d.Put(k, d.entries[k]) == d
  {
    assert d.entries[k := d.entries[k]] == d.entries;
  }

  /** For a well-formed dict, being empty and mapping nothing are the same. */
  lemma EmptyIffNoEntries<V>(d: Dict<V>)
    requires d.Valid()
    ensures d.IsEmpty() <==> d.entries == map[]
  {
    if !d.IsEmpty() {
      assert d.keys[0] in d.entries;
    }
  }
}
