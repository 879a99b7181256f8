/**
  A Python `dict` with string keys: a finite map that remembers the order in which its keys
  were first inserted. Assigning to a key that is already present keeps its
  position; assigning to a new key appends it; deleting a key removes it.
*/
module OrderedMaps {
  import opened Wrappers

  datatype OMap<V> = OMap(keys: seq<string>, entries: map<string, V>) {

    /** Keys are listed once each, and exactly the keys of the map are listed. */
    ghost predicate Valid() {
      && (forall i, j | 0 <= i < j < |keys| :: keys[i] != keys[j])
      && (forall k :: k in entries <==> k in keys)
    }

    predicate Has(k: string) {
      k in entries
    }

    function Get(k: string): (r: Option<V>)
      ensures r.Some? <==> k in entries
      ensures r.Some? ==> r.value == entries[k]
    {
      if k in entries then Some(entries[k]) else None
    }

    /** `d[k] = v` */
    function Put(k: string, v: V): (r: OMap<V>)
      requires Valid()
      ensures r.Valid()
      ensures r.entries == entries[k := v]
      ensures k in entries ==> r.keys == keys
      ensures k !in entries ==> r.keys == keys + [k]
    {
      if k in entries then OMap(keys, entries[k := v]) else OMap(keys + [k], entries[k := v])
    }

    /** `del d[k]` (a key that is absent leaves the map as it is) */
    function Remove(k: string): (r: OMap<V>)
      requires Valid()
      ensures r.Valid()
      ensures r.entries == entries - {k}
      ensures k !in entries ==> r == this
    {
      if k in entries then OMap(Without(keys, k), entries - {k}) else this
    }

    /** `d.values()`, in insertion order */
    function Values(): (vs: seq<V>)
      requires Valid()
      ensures |vs| == |keys|
      ensures forall i | 0 <= i < |keys| :: vs[i] == entries[keys[i]]
    {
      seq(|keys|, i requires 0 <= i < |keys| => entries[keys[i]])
    }
  }

  function Empty<V>(): (r: OMap<V>)
    ensures r.Valid() && r.entries == map[]
  {
    OMap([], map[])
  }

  /** The sequence `s` with every occurrence of `x` left out, order kept. */
  function Without(s: seq<string>, x: string): (r: seq<string>)
    ensures forall y :: y in r <==> y in s && y != x
    ensures (forall i, j | 0 <= i < j < |s| :: s[i] != s[j]) ==>
              (forall i, j | 0 <= i < j < |r| :: r[i] != r[j])
  {
    if s == [] then []
    else if s[0] == x then Without(s[1..], x)
    else
      var rest := Without(s[1..], x);
      assert (forall i, j | 0 <= i < j < |s| :: s[i] != s[j]) ==> s[0] !in s[1..];
      [s[0]] + rest
  }

  /** A map in the same key order with every value passed through `f`. */
  function MapValues<V, W>(m: OMap<V>, f: V -> W): (r: OMap<W>)
    requires m.Valid()
    ensures r.Valid() && r.keys == m.keys
    ensures r.entries.Keys == m.entries.Keys
    ensures forall k | k in m.entries :: r.entries[k] == f(m.entries[k])
  {
    OMap(m.keys, map k | k in m.entries :: f(m.entries[k]))
  }
}
