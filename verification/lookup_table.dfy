/** `ThreadsafeLookupTable`: a hash map made of a fixed number of buckets,
    each an unordered list of key/value entries. The per-bucket reader/writer
    locks are not modelled. The hash is a function parameter: the source
    stores a `std::hash<Key>` whatever `Hash` it is given, and any hash
    function will do for the properties below. */
module LookupTableModel {

  /** The index of the first entry of `data` whose key is `key`, or `|data|`
      when there is none (the `end()` iterator of `std::find_if`). */
  function FindEntry<K(==), V>(data: seq<(K, V)>, key: K): (r: nat)
    ensures r <= |data|
    ensures r < |data| ==> data[r].0 == key
    ensures forall j :: 0 <= j < r ==> data[j].0 != key
  {
    if data == [] then 0
    else if data[0].0 == key then 0
    else 1 + FindEntry(data[1..], key)
  }

  /** No key occurs in two entries. */
  predicate KeysDistinct<K(==), V>(data: seq<(K, V)>)
  {
    forall i, j :: 0 <= i < j < |data| ==> data[i].0 != data[j].0
  }

  /** The map an entry list denotes: the entries stored one after another,
      a later one overriding an earlier one with the same key. */
  function AsMap<K(==), V>(data: seq<(K, V)>): map<K, V>
  {
    if data == [] then map[]
    else AsMap(data[..|data| - 1])[data[|data| - 1].0 := data[|data| - 1].1]
  }

  /** A key is in the denoted map exactly when some entry has it. */
  lemma {:induction false} AsMapKeys<K, V>(data: seq<(K, V)>, key: K)
    ensures key in AsMap(data) <==> exists j :: 0 <= j < |data| && data[j].0 == key
    decreases |data|
  {
    if data != [] {
      var init := data[..|data| - 1];
      AsMapKeys(init, key);
      if key in AsMap(init) {
        var j :| 0 <= j < |init| && init[j].0 == key;
        assert data[j].0 == key;
      }
      if exists j :: 0 <= j < |data| && data[j].0 == key {
        var j :| 0 <= j < |data| && data[j].0 == key;
        if j < |init| {
          assert init[j].0 == key;
        }
      }
    }
  }

  /** With distinct keys, every entry's value is the one the map holds. */
  lemma {:induction false} AsMapAt<K, V>(data: seq<(K, V)>, j: nat)
    requires KeysDistinct(data) && j < |data|
    ensures data[j].0 in AsMap(data) && AsMap(data)[data[j].0] == data[j].1
    decreases |data|
  {
    var init := data[..|data| - 1];
    if j < |init| {
      assert init[j] == data[j];
      AsMapAt(init, j);
    }
  }

  /** Looking a key up in the list and in the map agree: the key is present
      exactly when `FindEntry` finds it, with the value of that entry. */
  lemma AsMapLookup<K, V>(data: seq<(K, V)>, key: K)
    requires KeysDistinct(data)
    ensures key in AsMap(data) <==> FindEntry(data, key) < |data|
    ensures FindEntry(data, key) < |data| ==> AsMap(data)[key] == data[FindEntry(data, key)].1
  {
    AsMapKeys(data, key);
    var r := FindEntry(data, key);
    if r < |data| {
      AsMapAt(data, r);
    }
  }

  /** Overwriting the value of entry `i` overwrites that key in the map and
      keeps the keys distinct. */
  lemma {:induction false} AsMapUpdate<K, V>(data: seq<(K, V)>, i: nat, v: V)
    requires KeysDistinct(data) && i < |data|
    ensures KeysDistinct(data[i := (data[i].0, v)])
    ensures AsMap(data[i := (data[i].0, v)]) == AsMap(data)[data[i].0 := v]
    decreases |data|
  {
    var d := data[i := (data[i].0, v)];
    var init := data[..|data| - 1];
    if i < |init| {
      AsMapUpdate(init, i, v);
      assert d[..|d| - 1] == init[i := (init[i].0, v)];
    } else {
      assert d[..|d| - 1] == init;
    }
  }

  /** Appending an entry whose key is absent adds that key to the map and
      keeps the keys distinct. */
  lemma AsMapAppend<K, V>(data: seq<(K, V)>, key: K, v: V)
    requires KeysDistinct(data) && key !in AsMap(data)
    ensures KeysDistinct(data + [(key, v)])
    ensures AsMap(data + [(key, v)]) == AsMap(data)[key := v]
  {
    var d := data + [(key, v)];
    assert d[..|d| - 1] == data;
    forall j | 0 <= j < |data|
      ensures data[j].0 != key
    {
      AsMapAt(data, j);
    }
  }

  /** Erasing an entry keeps the remaining keys distinct. */
  lemma EraseDistinct<K, V>(data: seq<(K, V)>, i: nat)
    requires KeysDistinct(data) && i < |data|
    ensures KeysDistinct(data[..i] + data[i + 1..])
  {
    var d := data[..i] + data[i + 1..];
    forall a, b | 0 <= a < b < |d|
      ensures d[a].0 != d[b].0
    {
      var a0 := if a < i then a else a + 1;
      var b0 := if b < i then b else b + 1;
      assert d[a] == data[a0] && d[b] == data[b0];
    }
  }

  /** Erasing entry `i` removes exactly its key from the map. */
  lemma {:induction false} AsMapErase<K, V>(data: seq<(K, V)>, i: nat)
    requires KeysDistinct(data) && i < |data|
    ensures AsMap(data[..i] + data[i + 1..]) == AsMap(data) - {data[i].0}
    decreases |data|
  {
    var d := data[..i] + data[i + 1..];
    var init := data[..|data| - 1];
    var key := data[i].0;
    if i == |data| - 1 {
      assert d == init;
      AsMapKeys(init, key);
    } else {
      var initD := init[..i] + init[i + 1..];
      AsMapErase(init, i);
      assert d[..|d| - 1] == initD;
      assert d[|d| - 1] == data[|data| - 1];
      assert data[|data| - 1].0 != key;
    }
  }

  /** The pairs of `m` whose hash, modulo `n`, is `i`: what bucket `i` of
      `n` holds. */
  function Part<K, V>(m: map<K, V>, hash: K -> nat, n: nat, i: nat): map<K, V>
    requires n > 0
  {
    map k | k in m && hash(k) % n == i :: m[k]
  }

  /** The pairs of `m` held by the buckets before `i`. */
  function Below<K, V>(m: map<K, V>, hash: K -> nat, n: nat, i: nat): map<K, V>
    requires n > 0
  {
    map k | k in m && hash(k) % n < i :: m[k]
  }

  /** Storing a pair changes only the part of the bucket its key selects. */
  lemma PartPut<K, V>(m: map<K, V>, hash: K -> nat, n: nat, i: nat, key: K, v: V)
    requires n > 0
    ensures Part(m[key := v], hash, n, i)
         == if hash(key) % n == i then Part(m, hash, n, i)[key := v] else Part(m, hash, n, i)
  {
  }

  /** Dropping a key changes only the part of the bucket it selects. */
  lemma PartDrop<K, V>(m: map<K, V>, hash: K -> nat, n: nat, i: nat, key: K)
    requires n > 0
    ensures Part(m - {key}, hash, n, i)
         == if hash(key) % n == i then Part(m, hash, n, i) - {key} else Part(m, hash, n, i)
  {
  }

  /** The buckets before `i + 1` are those before `i` and bucket `i`, and
      the buckets before `n` hold everything. */
  lemma BelowStep<K, V>(m: map<K, V>, hash: K -> nat, n: nat, i: nat)
    requires n > 0
    ensures Below(m, hash, n, i) + Part(m, hash, n, i) == Below(m, hash, n, i + 1)
    ensures Below(m, hash, n, n) == m
  {
  }

  /** A bucket: a list of entries with distinct keys. */
  class Bucket<K(==), V> {
    var data: seq<(K, V)>

    ghost predicate Valid()
      reads this
    {
      KeysDistinct(data)
    }

    constructor ()
      ensures data == []
    {
      data := [];
    }

    /** `FindEntryFor`: a front-to-back scan for the entry with `key`. */
    method FindEntryFor(key: K) returns (idx: nat)
      ensures idx == FindEntry(data, key)
    {
      idx := 0;
      while idx < |data| && data[idx].0 != key
        invariant idx <= |data|
        invariant forall j :: 0 <= j < idx ==> data[j].0 != key
      {
        idx := idx + 1;
      }
    }

    /** `ValueFor`: the value stored for `key`, or `defaultValue`. */
    method ValueFor(key: K, defaultValue: V) returns (v: V)
      requires Valid()
      ensures v == if key in AsMap(data) then AsMap(data)[key] else defaultValue
    {
      var idx := FindEntryFor(key);
      AsMapLookup(data, key);
      v := if idx == |data| then defaultValue else data[idx].1;
    }

    /** `AddOrUpdate`: the entry with `key` gets `val` in place, or a new
        entry is appended at the back. */
    method AddOrUpdate(key: K, val: V)
      requires Valid()
      modifies this
      ensures Valid()
      ensures AsMap(data) == old(AsMap(data))[key := val]
      ensures var i := old(FindEntry(data, key));
        data == if i < |old(data)| then old(data)[i := (key, val)] else old(data) + [(key, val)]
    {
      var idx := FindEntryFor(key);
      AsMapLookup(data, key);
      if idx == |data| {
        AsMapAppend(data, key, val);
        data := data + [(key, val)];
      } else {
        AsMapUpdate(data, idx, val);
        data := data[idx := (key, val)];
      }
    }

    /** `Remove`: the entry with `key`, if any, is erased; the others keep
        their order. */
    method Remove(key: K)
      requires Valid()
      modifies this
      ensures Valid()
      ensures AsMap(data) == old(AsMap(data)) - {key}
      ensures var i := old(FindEntry(data, key));
        data == if i < |old(data)| then old(data)[..i] + old(data)[i + 1..] else old(data)
    {
      var idx := FindEntryFor(key);
      AsMapLookup(data, key);
      if idx < |data| {
        AsMapErase(data, idx);
        EraseDistinct(data, idx);
        data := data[..idx] + data[idx + 1..];
      } else {
        assert AsMap(data) - {key} == AsMap(data);
      }
    }
  }

  class LookupTable<K(==), V> {
    /** `buckets_`: fixed at construction, each bucket its own object. */
    const buckets: seq<Bucket<K, V>>
    /** The hash the table was built with. */
    const hash: K -> nat
    /** The key/value pairs the table holds. */
    ghost var contents: map<K, V>

    /** `FindBucket`: the bucket a key belongs to is `hash(key)` modulo the
        number of buckets, always a valid index. */
    function BucketIndex(key: K): (i: nat)
      requires |buckets| > 0
      ensures i < |buckets|
    {
      hash(key) % |buckets|
    }

    /** The buckets are distinct objects; each holds distinct keys, and
        bucket `i` holds exactly the pairs whose hash selects `i`. */
    ghost predicate Valid()
      reads this, buckets
    {
      && (forall i, j :: 0 <= i < j < |buckets| ==> buckets[i] != buckets[j])
      && (forall i :: 0 <= i < |buckets| ==> KeysDistinct(buckets[i].data))
      && (forall i :: 0 <= i < |buckets| ==> AsMap(buckets[i].data) == Part(contents, hash, |buckets|, i))
      && (|buckets| == 0 ==> contents == map[])
    }

    /** The constructor makes `bucketNum` fresh, empty buckets (19 unless
        told otherwise). */
    constructor (hash: K -> nat, bucketNum: nat := 19)
      ensures Valid() && contents == map[]
      ensures |buckets| == bucketNum && this.hash == hash
      ensures forall i :: 0 <= i < |buckets| ==> fresh(buckets[i])
    {
      var bs: seq<Bucket<K, V>> := [];
      for i := 0 to bucketNum
        invariant |bs| == i
        invariant forall j :: 0 <= j < i ==> fresh(bs[j]) && bs[j].data == []
        invariant forall j, l :: 0 <= j < l < i ==> bs[j] != bs[l]
      {
        var b := new Bucket();
        bs := bs + [b];
      }
      buckets := bs;
      this.hash := hash;
      contents := map[];
    }

    /** `ValueFor`: the value stored for `key`, or `defaultValue`. */
    method ValueFor(key: K, defaultValue: V) returns (v: V)
      requires Valid() && |buckets| > 0
      ensures v == if key in contents then contents[key] else defaultValue
    {
      var b := buckets[BucketIndex(key)];
      v := b.ValueFor(key, defaultValue);
    }

    /** `AddOrUpdate`: `key` now maps to `val`; nothing else changes. */
    method AddOrUpdate(key: K, val: V)
      requires Valid() && |buckets| > 0
      modifies this, buckets[BucketIndex(key)]
      ensures Valid()
      ensures contents == old(contents)[key := val]
    {
      var idx := BucketIndex(key);
      var b := buckets[idx];
      b.AddOrUpdate(key, val);
      contents := contents[key := val];
      forall i | 0 <= i < |buckets|
        ensures KeysDistinct(buckets[i].data) && AsMap(buckets[i].data) == Part(contents, hash, |buckets|, i)
      {
        PartPut(old(contents), hash, |buckets|, i, key, val);
        if i != idx {
          assert buckets[i] != b && buckets[i].data == old(buckets[i].data);
        }
      }
    }

    /** `Remove`: `key` is no longer mapped; nothing else changes. */
    method Remove(key: K)
      requires Valid() && |buckets| > 0
      modifies this, buckets[BucketIndex(key)]
      ensures Valid()
      ensures contents == old(contents) - {key}
    {
      var idx := BucketIndex(key);
      var b := buckets[idx];
      b.Remove(key);
      contents := contents - {key};
      forall i | 0 <= i < |buckets|
        ensures KeysDistinct(buckets[i].data) && AsMap(buckets[i].data) == Part(contents, hash, |buckets|, i)
      {
        PartDrop(old(contents), hash, |buckets|, i, key);
        if i != idx {
          assert buckets[i] != b && buckets[i].data == old(buckets[i].data);
        }
      }
    }

    /** `GetMap`: every entry of every bucket, bucket by bucket, copied into
        one map, which is exactly the table's contents. */
    method GetMap() returns (res: map<K, V>)
      requires Valid()
      ensures res == contents
    {
      res := map[];
      if |buckets| == 0 {
        return;
      }
      ghost var n := |buckets|;
      for i := 0 to |buckets|
        invariant res == Below(contents, hash, n, i)
      {
        var data := buckets[i].data;
        for j := 0 to |data|
          invariant res == Below(contents, hash, n, i) + AsMap(data[..j])
        {
          assert data[..j + 1][..j] == data[..j];
          res := res[data[j].0 := data[j].1];
        }
        assert data[..|data|] == data;
        BelowStep(contents, hash, n, i);
      }
      BelowStep(contents, hash, n, 0);
    }
  }

  /** The sequence of calls tests/test_threadsafe_lookup_table.cpp checks: a
      missing key gives the default, an added key its value, a removed key the
      default again. */
  method AddGetRemoveExample() returns (before: string, name: string, age: string, removed: string)
    ensures before == "null" && name == "jack" && age == "18" && removed == "null"
  {
    var tb := new LookupTable<string, string>(s => |s|);
    before := tb.ValueFor("name", "null");
    tb.AddOrUpdate("name", "jack");
    name := tb.ValueFor("name", "null");
    tb.AddOrUpdate("age", "18");
    assert tb.contents == map["name" := "jack", "age" := "18"];
    age := tb.ValueFor("age", "null");
    tb.Remove("name");
    assert "name" !in tb.contents;
    removed := tb.ValueFor("name", "null");
  }

  /** The map of a table holds exactly the pairs added to it. */
  method GetMapExample() returns (all: map<string, string>)
    ensures all == map["name" := "jack", "age" := "18"]
  {
    var tb := new LookupTable<string, string>(s => |s|);
    tb.AddOrUpdate("name", "jack");
    tb.AddOrUpdate("age", "18");
    all := tb.GetMap();
  }
}
