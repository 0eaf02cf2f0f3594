/**
 * The `IndexMap<String, V>` of the indexmap crate, as the sections use it: a
 * map that remembers insertion order. `insert` of a new key appends an
 * entry; `insert` of a key already present replaces its value and keeps the
 * entry where it was.
 */
module IndexMaps {
  import opened Wrappers

  /** Position of key k in ks, or None when k is absent (searched from the end). */
  function IndexOfKey(ks: seq<string>, k: string): (r: Option<nat>)
    ensures r.Some? ==> r.value < |ks| && ks[r.value] == k
    ensures r.None? <==> k !in ks
  {
    if ks == [] then None
    else if ks[|ks| - 1] == k then Some(|ks| - 1)
    else
      assert ks == ks[..|ks| - 1] + [ks[|ks| - 1]];
      IndexOfKey(ks[..|ks| - 1], k)
  }

  ghost predicate Distinct(ks: seq<string>) {
    forall i, j :: 0 <= i < j < |ks| ==> ks[i] != ks[j]
  }

  /** In a sequence without repeats a key has one position: the one IndexOfKey finds. */
  lemma IndexOfDistinct(ks: seq<string>, i: nat)
    requires Distinct(ks) && i < |ks|
    ensures IndexOfKey(ks, ks[i]) == Some(i)
  {
  }

  datatype IndexMap<V> = IndexMap(entries: seq<(string, V)>)
  {
    /** The keys, in entry order. */
    function Keys(): (ks: seq<string>)
      ensures |ks| == |entries|
      ensures forall i :: 0 <= i < |entries| ==> ks[i] == entries[i].0
    {
      seq(|entries|, i requires 0 <= i < |entries| => entries[i].0)
    }

    /** Every key has at most one entry. */
    ghost predicate Valid() {
      Distinct(Keys())
    }

    function IndexOf(k: string): Option<nat> {
      IndexOfKey(Keys(), k)
    }

    /** `get`: the value stored under k. */
    function Get(k: string): (r: Option<V>)
      ensures r.Some? <==> k in Keys()
    {
      match IndexOf(k)
      case Some(j) => Some(entries[j].1)
      case None => None
    }

    /**
     * `insert(k, v)`: afterwards k yields v and every other key what it
     * yielded before; a key already present keeps its position, a new key
     * is appended at the end.
     */
    function Insert(k: string, v: V): (r: IndexMap<V>)
      ensures r.Get(k) == Some(v)
      ensures forall k' :: k' != k ==> r.Get(k') == Get(k')
      ensures k in Keys() ==> r.Keys() == Keys()
      ensures k in Keys() ==> r.IndexOf(k) == IndexOf(k)
      ensures k !in Keys() ==> r.Keys() == Keys() + [k]
      ensures Valid() ==> r.Valid()
    {
      match IndexOf(k)
      case Some(j) =>
        var r := IndexMap(entries[j := (k, v)]);
        assert r.Keys() == Keys();
        r
      case None =>
        var r := IndexMap(entries + [(k, v)]);
        assert r.Keys() == Keys() + [k];
        assert r.Keys()[..|entries|] == Keys();
        r
    }

    /**
     * The value at position i replaced (a write through `iter_mut` while
     * enumerating the entries); keys and all other entries are unchanged.
     */
    function UpdateAt(i: nat, v: V): (r: IndexMap<V>)
      requires i < |entries|
      ensures |r.entries| == |entries| && r.entries[i] == (entries[i].0, v)
      ensures forall j :: 0 <= j < |entries| && j != i ==> r.entries[j] == entries[j]
      ensures r.Keys() == Keys()
    {
      var r := IndexMap(entries[i := (entries[i].0, v)]);
      assert r.Keys() == Keys();
      r
    }
  }

  /** `IndexMap::new()`: no entries. */
  function Empty<V>(): (m: IndexMap<V>)
    ensures m.Valid() && m.Keys() == []
    ensures forall k :: m.Get(k) == None
  {
    IndexMap([])
  }

  /** In a valid map the key at position i yields the value at position i. */
  lemma GetAt<V>(m: IndexMap<V>, i: nat)
    requires m.Valid() && i < |m.entries|
    ensures m.IndexOf(m.entries[i].0) == Some(i)
    ensures m.Get(m.entries[i].0) == Some(m.entries[i].1)
  {
    IndexOfDistinct(m.Keys(), i);
  }

  /** Every entry is stored under the key its value names. */
  ghost predicate KeyedBy<V>(m: IndexMap<V>, key: V -> string) {
    forall i :: 0 <= i < |m.entries| ==> key(m.entries[i].1) == m.entries[i].0
  }

  /** Inserting a value under its own key keeps every entry keyed by its value. */
  lemma InsertKeyedBy<V>(m: IndexMap<V>, v: V, key: V -> string)
    requires KeyedBy(m, key)
    ensures KeyedBy(m.Insert(key(v), v), key)
  {
  }

  /** Inserts applied one after the other, in sequence order. */
  function InsertAll<V>(m: IndexMap<V>, kvs: seq<(string, V)>): IndexMap<V>
  {
    if kvs == [] then m
    else
      var last := kvs[|kvs| - 1];
      InsertAll(m, kvs[..|kvs| - 1]).Insert(last.0, last.1)
  }

  /** The value of the last pair in kvs whose key is k. */
  function LastValue<V>(kvs: seq<(string, V)>, k: string): Option<V>
  {
    if kvs == [] then None
    else if kvs[|kvs| - 1].0 == k then Some(kvs[|kvs| - 1].1)
    else LastValue(kvs[..|kvs| - 1], k)
  }

  /**
   * After a run of inserts the later duplicate wins: a key yields the value
   * of its last insert, or what it yielded before when it was never inserted.
   */
  lemma {:induction false} InsertAllGet<V>(m: IndexMap<V>, kvs: seq<(string, V)>, k: string)
    ensures InsertAll(m, kvs).Get(k) == if LastValue(kvs, k).Some? then LastValue(kvs, k) else m.Get(k)
  {
    if kvs != [] {
      InsertAllGet(m, kvs[..|kvs| - 1], k);
    }
  }

  /** The keys of a sequence of pairs, in order. */
  function KeysOf<V>(kvs: seq<(string, V)>): seq<string>
  {
    IndexMap(kvs).Keys()
  }

  /**
   * A run of inserts never moves a key: the keys before are a prefix of the
   * keys after, and the map stays valid.
   */
  lemma {:induction false} InsertAllKeepsPositions<V>(m: IndexMap<V>, kvs: seq<(string, V)>)
    requires m.Valid()
    ensures InsertAll(m, kvs).Valid()
    ensures |m.Keys()| <= |InsertAll(m, kvs).Keys()|
    ensures InsertAll(m, kvs).Keys()[..|m.Keys()|] == m.Keys()
  {
    if kvs != [] {
      var init := kvs[..|kvs| - 1];
      InsertAllKeepsPositions(m, init);
      var p := InsertAll(m, init);
      assert p.Keys()[..|m.Keys()|] == m.Keys();
    }
  }

  /** The keys after a run of inserts are the keys before plus the keys inserted. */
  lemma {:induction false} InsertAllKeys<V>(m: IndexMap<V>, kvs: seq<(string, V)>, k: string)
    ensures k in InsertAll(m, kvs).Keys() <==> k in m.Keys() || k in KeysOf(kvs)
  {
    if kvs != [] {
      var init := kvs[..|kvs| - 1];
      var last := kvs[|kvs| - 1];
      var p := InsertAll(m, init);
      assert InsertAll(m, kvs) == p.Insert(last.0, last.1);
      assert k in p.Keys() <==> k in m.Keys() || k in KeysOf(init) by {
        InsertAllKeys(m, init, k);
      }
      assert k in p.Insert(last.0, last.1).Keys() <==> k in p.Keys() || k == last.0;
      assert k in KeysOf(kvs) <==> k in KeysOf(init) || k == last.0 by {
        KeysOfSnoc(kvs);
      }
    }
  }

  lemma {:induction false} KeysOfSnoc<V>(kvs: seq<(string, V)>)
    requires kvs != []
    ensures KeysOf(kvs) == KeysOf(kvs[..|kvs| - 1]) + [kvs[|kvs| - 1].0]
  {
    assert KeysOf(kvs) == KeysOf(kvs[..|kvs| - 1]) + [kvs[|kvs| - 1].0];
  }
}
