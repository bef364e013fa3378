/** The memo store for computed expected values: a map from a state hash
    (bytes) to a value. `InMemoryHashDatabase` keeps a map that `Store`
    updates in place; `NoOpDatabase` remembers nothing. */
module HashDatabase {
  import opened Options
  import opened Hasher

  /** `len` reports the map's size cast to a 32-bit unsigned integer. */
  const U32: nat := 0x1_0000_0000

  /** What a lookup of `hash` finds in the map `db`. */
  function Lookup(db: map<seq<byte>, real>, hash: seq<byte>): (r: Option<real>)
    ensures r.Some? <==> hash in db
    ensures r.Some? ==> r.value == db[hash]
  {
    if hash in db then Some(db[hash]) else None
  }

  /** The map after storing every pair of `pairs`, first to last. */
  function StoreAll(db: map<seq<byte>, real>, pairs: seq<(seq<byte>, real)>): map<seq<byte>, real>
    decreases |pairs|
  {
    if pairs == [] then db else StoreAll(db[pairs[0].0 := pairs[0].1], pairs[1..])
  }

  /** The keys of `pairs`. */
  function KeysOf(pairs: seq<(seq<byte>, real)>): set<seq<byte>> {
    set i | 0 <= i < |pairs| :: pairs[i].0
  }

  /** After any sequence of stores, the keys are the old keys plus every
      key stored, each once however often it was stored. */
  lemma {:induction false} StoreAllKeys(db: map<seq<byte>, real>, pairs: seq<(seq<byte>, real)>)
    ensures StoreAll(db, pairs).Keys == db.Keys + KeysOf(pairs)
    decreases |pairs|
  {
    if pairs != [] {
      StoreAllKeys(db[pairs[0].0 := pairs[0].1], pairs[1..]);
      assert KeysOf(pairs) == {pairs[0].0} + KeysOf(pairs[1..]) by {
        forall k | k in KeysOf(pairs) ensures k in {pairs[0].0} + KeysOf(pairs[1..]) {
          var i :| 0 <= i < |pairs| && pairs[i].0 == k;
          if i > 0 {
            assert pairs[1..][i - 1].0 == k;
          }
        }
        forall k | k in KeysOf(pairs[1..]) ensures k in KeysOf(pairs) {
          var i :| 0 <= i < |pairs[1..]| && pairs[1..][i].0 == k;
          assert pairs[i + 1].0 == k;
        }
      }
    }
  }

  /** The last store of a key decides what a lookup finds: a key stored in
      `pairs` maps to the value of its last occurrence, any other key keeps
      its old entry. */
  lemma {:induction false} StoreAllLookup(db: map<seq<byte>, real>, pairs: seq<(seq<byte>, real)>, hash: seq<byte>)
    ensures hash !in KeysOf(pairs) ==> Lookup(StoreAll(db, pairs), hash) == Lookup(db, hash)
    ensures |pairs| > 0 && pairs[|pairs| - 1].0 == hash ==>
      Lookup(StoreAll(db, pairs), hash) == Some(pairs[|pairs| - 1].1)
    decreases |pairs|
  {
    if pairs != [] {
      var db' := db[pairs[0].0 := pairs[0].1];
      StoreAllLookup(db', pairs[1..], hash);
      if hash !in KeysOf(pairs) {
        assert pairs[0].0 != hash;
        forall i | 0 <= i < |pairs[1..]| ensures pairs[1..][i].0 != hash {
          assert pairs[1..][i] == pairs[i + 1];
        }
        assert hash !in KeysOf(pairs[1..]);
      }
      if |pairs| == 1 && pairs[0].0 == hash {
        assert pairs[1..] == [];
      } else if |pairs| > 1 {
        assert pairs[1..][|pairs[1..]| - 1] == pairs[|pairs| - 1];
      }
    }
  }

  /** Storing into an empty map leaves one entry per distinct key. */
  lemma DistinctKeysCounted(pairs: seq<(seq<byte>, real)>)
    ensures |StoreAll(map[], pairs)| == |KeysOf(pairs)|
  {
    StoreAllKeys(map[], pairs);
    assert StoreAll(map[], pairs).Keys == KeysOf(pairs);
  }

  class InMemoryHashDatabase {
    var db: map<seq<byte>, real>

    /** A new database holds no entries. */
    constructor ()
      ensures db == map[]
    {
      db := map[];
    }

    /** The stored value for `hash`, if any. */
    function Get(hash: seq<byte>): (r: Option<real>)
      reads this
      ensures r == Lookup(db, hash)
    {
      if hash in db then Some(db[hash]) else None
    }

    /** Stores `value` under `hash`, overwriting any earlier value, and
        returns the value it replaced. */
    method Store(hash: seq<byte>, value: real) returns (prev: Option<real>)
      modifies this
      ensures db == old(db)[hash := value]
      ensures prev == Lookup(old(db), hash)
    {
      prev := if hash in db then Some(db[hash]) else None;
      db := db[hash := value];
    }

    /** The number of distinct keys, as a 32-bit unsigned integer. */
    function Len(): (n: nat)
      reads this
      ensures n < U32
      ensures |db| < U32 ==> n == |db.Keys|
    {
      |db| % U32
    }
  }

  /** A database that stores nothing: every lookup misses. */
  datatype NoOpDatabase = NoOpDatabase {
    function Get(hash: seq<byte>): (r: Option<real>)
      ensures r.None?
    {
      None
    }

    function Store(hash: seq<byte>, value: real): (r: Option<real>)
      ensures r.None?
    {
      None
    }

    function Len(): (n: nat)
      ensures n == 0
    {
      0
    }
  }

  /** The repository's in-memory database test: two fresh stores return
      None, a lookup finds the first value, storing over it returns the old
      value, and the next lookup finds the new one. */
  method TestInMemory() returns (s1: Option<real>, s2: Option<real>, g1: Option<real>,
                                 s3: Option<real>, g2: Option<real>, n: nat)
    ensures s1 == None && s2 == None && g1 == Some(10.0)
    ensures s3 == Some(10.0) && g2 == Some(30.0) && n == 2
  {
    var m := new InMemoryHashDatabase();
    s1 := m.Store([1], 10.0);
    s2 := m.Store([2], 20.0);
    g1 := m.Get([1]);
    s3 := m.Store([1], 30.0);
    g2 := m.Get([1]);
    assert m.db.Keys == {[1], [2]};
    n := m.Len();
  }
}
