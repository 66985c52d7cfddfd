/**
 * The storage engine of internal/storage/storage.go: one embedded byte-keyed
 * store shared by primary records and secondary-index entries, the index-key
 * encoding `_idx:<indexName>:<indexValue>:<primaryKey>`, and the five
 * operations over the store.
 */
module Storage {

  import opened Wrappers
  import opened ByteOrder

  /** `secondaryIndexPrefix`, the reserved namespace tag "_idx:". */
  const SecondaryIndexPrefix: Bytes := [95, 105, 100, 120, 58]

  /** The field delimiter ':'. */
  const Delim: byte := 58

  /** Errors the storage operations can return. */
  datatype Error =
    | KeyNotFound     // the store's own not-found error for an absent key (badger.ErrKeyNotFound)
    | EmptyKey        // the store refuses a zero-length key (badger.ErrEmptyKey)
    | PrefixMismatch  // extractPrimaryKeyFromIndexKey: the key lacks the expected prefix

  predicate ColonFree(s: Bytes) {
    Delim !in s
  }

  // ---------------------------------------------------------------------------
  // Index-key encoding

  /** The scan prefix for one (indexName, indexValue) pair; the trailing ':' ends the value. */
  function MakeIndexPrefix(indexName: Bytes, indexValue: Bytes): (p: Bytes)
    ensures |p| == |SecondaryIndexPrefix| + |indexName| + |indexValue| + 2
    ensures HasPrefix(p, SecondaryIndexPrefix)
    ensures p[|p| - 1] == Delim
  {
    SecondaryIndexPrefix + indexName + [Delim] + indexValue + [Delim]
  }

  /** The stored key of one index entry: its scan prefix followed by the primary key. */
  function MakeIndexKey(indexName: Bytes, indexValue: Bytes, primaryKey: Bytes): (k: Bytes)
    ensures k == MakeIndexPrefix(indexName, indexValue) + primaryKey
    ensures |k| == |SecondaryIndexPrefix| + |indexName| + |indexValue| + 2 + |primaryKey|
    ensures HasPrefix(k, SecondaryIndexPrefix)
  {
    SecondaryIndexPrefix + indexName + [Delim] + indexValue + [Delim] + primaryKey
  }

  /** Strips the expected scan prefix from an index key, or fails when it is absent. */
  function ExtractPrimaryKey(indexKey: Bytes, indexName: Bytes, indexValue: Bytes): (r: Result<Bytes, Error>)
    ensures r.Ok? <==> HasPrefix(indexKey, MakeIndexPrefix(indexName, indexValue))
    ensures r.Ok? ==> MakeIndexKey(indexName, indexValue, r.value) == indexKey
    ensures r.Err? ==> r.error == PrefixMismatch
  {
    var expectedPrefix := MakeIndexPrefix(indexName, indexValue);
    if !HasPrefix(indexKey, expectedPrefix) then
      Err(PrefixMismatch)
    else
      Ok(indexKey[|expectedPrefix|..])
  }

  /** Extraction inverts encoding. */
  lemma ExtractAfterMake(indexName: Bytes, indexValue: Bytes, primaryKey: Bytes)
    ensures ExtractPrimaryKey(MakeIndexKey(indexName, indexValue, primaryKey), indexName, indexValue) == Ok(primaryKey)
  {
  }

  /**
   * One delimited field: if `a ++ ':' ++ x` is a prefix of `b ++ ':' ++ y`
   * and neither field holds ':', the fields are equal and `x` is a prefix of `y`.
   */
  lemma FieldBoundary(a: Bytes, b: Bytes, x: Bytes, y: Bytes)
    requires ColonFree(a) && ColonFree(b)
    requires HasPrefix(b + [Delim] + y, a + [Delim] + x)
    ensures a == b && HasPrefix(y, x)
  {
    var lhs, rhs := a + [Delim] + x, b + [Delim] + y;
    assert rhs[..|lhs|] == lhs;
    // at the shorter field's end one side holds the delimiter, so the other must too
    var m := if |a| < |b| then |a| else |b|;
    assert lhs[m] == rhs[m];
    assert |a| == |b|;
    assert a == lhs[..|a|] == rhs[..|b|] == b;
    assert y[..|x|] == rhs[|b| + 1..][..|x|] == lhs[|a| + 1..] == x;
  }

  /**
   * Boundary correctness: the scan prefix of one (name, value) pair matches no
   * index key of a different pair, provided the values hold no ':' and the
   * names are either the same (any bytes) or both free of ':'.
   */
  lemma PrefixIsPrecise(n1: Bytes, v1: Bytes, n2: Bytes, v2: Bytes, pk: Bytes)
    requires ColonFree(v1) && ColonFree(v2)
    requires n1 == n2 || (ColonFree(n1) && ColonFree(n2))
    requires (n1, v1) != (n2, v2)
    ensures !HasPrefix(MakeIndexKey(n2, v2, pk), MakeIndexPrefix(n1, v1))
  {
    var key, prefix := MakeIndexKey(n2, v2, pk), MakeIndexPrefix(n1, v1);
    if HasPrefix(key, prefix) {
      if n1 == n2 {
        // a shared name, whatever it holds, is stripped as one block
        var i := |SecondaryIndexPrefix| + |n1| + 1;
        assert key[i..] == v2 + [Delim] + pk;
        assert prefix[i..] == v1 + [Delim] + [];
        assert HasPrefix(key[i..], prefix[i..]) by {
          assert key[i..][..|prefix| - i] == key[..|prefix|][i..];
        }
        FieldBoundary(v1, v2, [], pk);
      } else {
        var i := |SecondaryIndexPrefix|;
        assert key[i..] == n2 + [Delim] + (v2 + [Delim] + pk);
        assert prefix[i..] == n1 + [Delim] + (v1 + [Delim]);
        assert HasPrefix(key[i..], prefix[i..]) by {
          assert key[i..][..|prefix| - i] == key[..|prefix|][i..];
        }
        FieldBoundary(n1, n2, v1 + [Delim], v2 + [Delim] + pk);
        FieldBoundary(v1, v2, [], pk);
      }
    }
  }

  /** Distinct pairs with colon-free values (and shared or colon-free names) never share an index key. */
  lemma IndexKeysDisjoint(n1: Bytes, v1: Bytes, q: Bytes, n2: Bytes, v2: Bytes, pk: Bytes)
    requires ColonFree(v1) && ColonFree(v2)
    requires n1 == n2 || (ColonFree(n1) && ColonFree(n2))
    requires (n1, v1) != (n2, v2)
    ensures MakeIndexKey(n1, v1, q) != MakeIndexKey(n2, v2, pk)
  {
    PrefixIsPrecise(n1, v1, n2, v2, pk);
    var p := MakeIndexPrefix(n1, v1);
    assert (p + q)[..|p|] == p;
  }

  /**
   * Boundary defect: ':' inside an index value is not escaped, so the entry
   * for value `v ++ ':' ++ w` is also an entry for value `v` whose primary key
   * reads `w ++ ':' ++ pk`, and the scan prefix of `v` matches it.
   */
  lemma ValueColonCollides(n: Bytes, v: Bytes, w: Bytes, pk: Bytes)
    ensures MakeIndexKey(n, v + [Delim] + w, pk) == MakeIndexKey(n, v, w + [Delim] + pk)
    ensures HasPrefix(MakeIndexKey(n, v + [Delim] + w, pk), MakeIndexPrefix(n, v))
    ensures ExtractPrimaryKey(MakeIndexKey(n, v + [Delim] + w, pk), n, v) == Ok(w + [Delim] + pk)
  {
  }

  /** Boundary defect on the name side: ':' moved between name and value gives the same key. */
  lemma NameColonCollides(n: Bytes, m: Bytes, v: Bytes, pk: Bytes)
    ensures MakeIndexKey(n + [Delim] + m, v, pk) == MakeIndexKey(n, m, v + [Delim] + pk)
  {
  }

  // ---------------------------------------------------------------------------
  // The store

  /** Every stored key that sorts at or after `c`: what an iterator at `c` has left to visit. */
  ghost function AtOrAfter(keys: set<Bytes>, c: Bytes): set<Bytes> {
    set k | k in keys && LessEq(c, k)
  }

  /** `BadgerStorage`: the store handle, modelled as the map it holds. */
  class BadgerStorage {

    /** The single keyspace shared by primary records and index entries. */
    var db: map<Bytes, Bytes>

    /** `NewBadgerStorage` on a fresh directory: an empty keyspace. */
    constructor ()
      ensures db == map[]
    {
      db := map[];
    }

    /** Upserts one record; nothing but `key` changes. */
    method Set(key: Bytes, value: Bytes) returns (err: Option<Error>)
      modifies this
      ensures key == [] ==> err == Some(EmptyKey) && db == old(db)
      ensures key != [] ==> err == None && db == old(db)[key := value]
    {
      // db.Update: the write goes to a transaction view, committed only on success
      var txn := db;
      if key == [] {
        return Some(EmptyKey);
      }
      txn := txn[key := value];
      db := txn;
      err := None;
    }

    /**
     * Upserts a record and its index entry in one transaction: both writes are
     * committed together, or neither is.
     */
    method SetWithIndex(key: Bytes, value: Bytes, indexName: Bytes, indexValue: Bytes) returns (err: Option<Error>)
      modifies this
      ensures key == [] ==> err == Some(EmptyKey) && db == old(db)
      ensures key != [] ==> err == None && db == old(db)[key := value][MakeIndexKey(indexName, indexValue, key) := []]
      ensures MakeIndexKey(indexName, indexValue, key) != key
    {
      var txn := db;
      if key == [] {
        // the first txn.Set fails; the transaction is discarded
        return Some(EmptyKey);
      }
      txn := txn[key := value];
      var indexKey := MakeIndexKey(indexName, indexValue, key);
      // the index key is never empty, so the second txn.Set is accepted
      txn := txn[indexKey := []];
      db := txn;
      err := None;
    }

    /** Reads the value stored under `key`. */
    method Get(key: Bytes) returns (r: Result<Bytes, Error>)
      ensures r.Ok? <==> key != [] && key in db
      ensures r.Ok? ==> r.value == db[key]
      ensures r.Err? ==> r.error == (if key == [] then EmptyKey else KeyNotFound)
    {
      if key == [] {
        return Err(EmptyKey);
      }
      if key !in db {
        return Err(KeyNotFound);
      }
      r := Ok(db[key]);
    }

    /**
     * The primary keys indexed under (indexName, indexValue): a prefix scan
     * that seeks to the prefix and walks forward while keys carry it.
     */
    method GetByIndex(indexName: Bytes, indexValue: Bytes) returns (r: Result<seq<Bytes>, Error>)
      ensures r.Ok?
      ensures StrictlyAscending(r.value)
      ensures forall pk :: pk in r.value <==> MakeIndexKey(indexName, indexValue, pk) in db
    {
      var primaryKeys: seq<Bytes> := [];
      var prefix := MakeIndexPrefix(indexName, indexValue);
      var keys := db.Keys;
      var it := LeastBeyond(keys, prefix, true);  // Seek(prefix)
      forall k | k in keys && HasPrefix(k, prefix)
        ensures it.Some? && !Less(k, it.value)
      {
        PrefixSortsFirst(k, prefix);
        LessTrichotomy(k, it.value);
      }
      while it.Some? && HasPrefix(it.value, prefix)  // ValidForPrefix(prefix)
        invariant it.Some? ==> it.value in keys && LessEq(prefix, it.value)
        invariant forall k :: k in keys && HasPrefix(k, prefix) && (it.None? || Less(k, it.value)) ==> k[|prefix|..] in primaryKeys
        invariant forall pk :: pk in primaryKeys ==> prefix + pk in keys
        invariant it.Some? ==> forall pk :: pk in primaryKeys ==> Less(prefix + pk, it.value)
        invariant StrictlyAscending(primaryKeys)
        decreases if it.Some? then AtOrAfter(keys, it.value) else {}
      {
        var k := it.value;
        var extracted := ExtractPrimaryKey(k, indexName, indexValue);
        if extracted.Err? {
          // the scan only reaches keys that carry the prefix
          assert false;
        }
        var pk := extracted.value;
        assert prefix + pk == k;
        forall q | q in primaryKeys
          ensures Less(q, pk)
        {
          LessUnderPrefix(prefix, q, pk);
        }
        primaryKeys := primaryKeys + [pk];
        it := LeastBeyond(keys, k, false);  // Next()
        ScanAdvances(keys, prefix, k, it, primaryKeys);
      }
      forall pk | MakeIndexKey(indexName, indexValue, pk) in db
        ensures pk in primaryKeys
      {
        var key := prefix + pk;
        assert key[..|prefix|] == prefix && key[|prefix|..] == pk;
        if it.Some? {
          LessTrichotomy(key, it.value);
          if Less(it.value, key) {
            PrefixRangeContiguous(prefix, it.value, key);
          }
        }
      }
      r := Ok(primaryKeys);
    }

    /** Removes only the record at `key`; index entries naming it stay behind. */
    method Delete(key: Bytes) returns (err: Option<Error>)
      modifies this
      ensures key == [] ==> err == Some(EmptyKey) && db == old(db)
      ensures key != [] ==> err == None && db == old(db) - {key}
    {
      if key == [] {
        return Some(EmptyKey);
      }
      db := db - {key};
      err := None;
    }
  }

  /** One `Next()` of the scan keeps the scan's invariants. */
  lemma ScanAdvances(keys: set<Bytes>, prefix: Bytes, k: Bytes, it: Option<Bytes>, primaryKeys: seq<Bytes>)
    requires k in keys && LessEq(prefix, k) && HasPrefix(k, prefix)
    requires |primaryKeys| > 0 && prefix + primaryKeys[|primaryKeys| - 1] == k
    requires it.Some? ==> it.value in keys && Less(k, it.value)
    requires it.Some? ==> forall j :: j in keys && Less(k, j) ==> LessEq(it.value, j)
    requires it.None? ==> forall j :: j in keys ==> !Less(k, j)
    requires forall j :: j in keys && HasPrefix(j, prefix) && Less(j, k) ==> j[|prefix|..] in primaryKeys
    requires forall pk :: pk in primaryKeys[..|primaryKeys| - 1] ==> Less(prefix + pk, k)
    ensures it.Some? ==> LessEq(prefix, it.value)
    ensures forall j :: j in keys && HasPrefix(j, prefix) && (it.None? || Less(j, it.value)) ==> j[|prefix|..] in primaryKeys
    ensures it.Some? ==> forall pk :: pk in primaryKeys ==> Less(prefix + pk, it.value)
    ensures it.Some? ==> AtOrAfter(keys, it.value) < AtOrAfter(keys, k)
  {
    var last := primaryKeys[|primaryKeys| - 1];
    assert k[|prefix|..] == last;
    if it.Some? {
      var c := it.value;
      if prefix != k {
        LessTransitive(prefix, k, c);
      }
      forall pk | pk in primaryKeys
        ensures Less(prefix + pk, c)
      {
        if pk != last {
          assert pk in primaryKeys[..|primaryKeys| - 1];
          LessTransitive(prefix + pk, k, c);
        }
      }
      forall j | j in AtOrAfter(keys, c)
        ensures j in AtOrAfter(keys, k)
      {
        if j != c {
          LessTransitive(k, c, j);
        }
      }
      LessIrreflexive(c);
      LessTrichotomy(k, c);
      assert k in AtOrAfter(keys, k) && k !in AtOrAfter(keys, c);
    }
    forall j | j in keys && HasPrefix(j, prefix) && (it.None? || Less(j, it.value))
      ensures j[|prefix|..] in primaryKeys
    {
      LessTrichotomy(j, k);
      if Less(k, j) && it.Some? {
        LessTrichotomy(j, it.value);
      }
    }
  }
}

/**
 * What callers of the storage engine can rely on, derived from the operation
 * contracts alone.
 */
module StorageClients {

  import opened Wrappers
  import opened ByteOrder
  import opened Storage

  /** A write followed by a read returns exactly the value written. */
  method SetThenGet(s: BadgerStorage, key: Bytes, value: Bytes) returns (r: Result<Bytes, Error>)
    modifies s
    ensures key != [] ==> r == Ok(value)
    ensures key == [] ==> r == Err(EmptyKey)
  {
    var _ := s.Set(key, value);
    r := s.Get(key);
  }

  /** After an indexed write the record reads back and the index scan lists its key. */
  method SetWithIndexThenRead(s: BadgerStorage, key: Bytes, value: Bytes, indexName: Bytes, indexValue: Bytes)
    returns (got: Result<Bytes, Error>, found: Result<seq<Bytes>, Error>)
    modifies s
    ensures key != [] ==> got == Ok(value) && found.Ok? && key in found.value
  {
    var _ := s.SetWithIndex(key, value, indexName, indexValue);
    got := s.Get(key);
    found := s.GetByIndex(indexName, indexValue);
  }

  /**
   * Deleting a record leaves its index entries: the record is gone, yet the
   * scan still lists its key (the documented dangling entry).
   */
  method DeleteLeavesDanglingIndex(s: BadgerStorage, key: Bytes, indexName: Bytes, indexValue: Bytes)
    returns (got: Result<Bytes, Error>, found: Result<seq<Bytes>, Error>)
    requires key != [] && MakeIndexKey(indexName, indexValue, key) in s.db
    modifies s
    ensures got == Err(KeyNotFound)
    ensures found.Ok? && key in found.value
  {
    var _ := s.Delete(key);
    got := s.Get(key);
    found := s.GetByIndex(indexName, indexValue);
  }

  /**
   * With colon-free values (and a shared or colon-free name), an indexed write
   * under one pair leaves the scan of every other pair exactly as it was (for primary keys outside
   * the index namespace).
   */
  method IndexWriteIsolated(s: BadgerStorage, key: Bytes, value: Bytes, n1: Bytes, v1: Bytes, n2: Bytes, v2: Bytes)
    returns (before: Result<seq<Bytes>, Error>, after: Result<seq<Bytes>, Error>)
    requires ColonFree(v1) && ColonFree(v2) && (n1, v1) != (n2, v2)
    requires n1 == n2 || (ColonFree(n1) && ColonFree(n2))
    requires !HasPrefix(key, SecondaryIndexPrefix)
    modifies s
    ensures before == after
  {
    before := s.GetByIndex(n1, v1);
    var _ := s.SetWithIndex(key, value, n2, v2);
    after := s.GetByIndex(n1, v1);
    forall pk
      ensures pk in before.value <==> pk in after.value
    {
      IndexKeysDisjoint(n1, v1, pk, n2, v2, key);
    }
    AscendingUnique(before.value, after.value);
  }

  /**
   * The boundary defect as a scan: an entry written under value `v ++ ':' ++ w`
   * is listed by the scan for value `v`, with primary key `w ++ ':' ++ pk`.
   */
  method ScanLeaksAcrossColon(pk: Bytes, value: Bytes, indexName: Bytes, v: Bytes, w: Bytes)
    returns (found: Result<seq<Bytes>, Error>)
    requires pk != [] && !HasPrefix(pk, SecondaryIndexPrefix)
    ensures found == Ok([w + [Delim] + pk])
  {
    var s := new BadgerStorage();
    var _ := s.SetWithIndex(pk, value, indexName, v + [Delim] + w);
    found := s.GetByIndex(indexName, v);
    ValueColonCollides(indexName, v, w, pk);
    var leaked := w + [Delim] + pk;
    forall q
      ensures q in found.value <==> q in [leaked]
    {
      var p := MakeIndexPrefix(indexName, v);
      if p + q == p + leaked {
        assert q == (p + q)[|p|..] == (p + leaked)[|p|..] == leaked;
      }
    }
    AscendingUnique(found.value, [leaked]);
  }

  /** A primary key chosen inside the index namespace is read back by scans as an index entry. */
  method NamespaceCollision(indexName: Bytes, indexValue: Bytes, q: Bytes, value: Bytes)
    returns (found: Result<seq<Bytes>, Error>)
    ensures found.Ok? && q in found.value
  {
    var s := new BadgerStorage();
    var _ := s.Set(MakeIndexKey(indexName, indexValue, q), value);
    found := s.GetByIndex(indexName, indexValue);
  }

  /**
   * "u1" indexed under ("name", "alice"), then deleted: the record is gone and
   * the scan still answers ["u1"].
   */
  method DanglingIndexScenario()
    returns (before: Result<seq<Bytes>, Error>, got: Result<Bytes, Error>, after: Result<seq<Bytes>, Error>)
    ensures before == Ok([[117, 49]])
    ensures got == Err(KeyNotFound)
    ensures after == Ok([[117, 49]])
  {
    var u1: Bytes := [117, 49];
    var name: Bytes := [110, 97, 109, 101];
    var alice: Bytes := [97, 108, 105, 99, 101];
    var s := new BadgerStorage();
    var _ := s.SetWithIndex(u1, alice, name, alice);
    before := s.GetByIndex(name, alice);
    OnlyIndexed(s.db, name, alice, u1, before.value);
    var _ := s.Delete(u1);
    got := s.Get(u1);
    after := s.GetByIndex(name, alice);
    OnlyIndexed(s.db, name, alice, u1, after.value);
  }

  /** The scan for ("color", "a") does not list a key indexed under ("color", "ab"). */
  method DelimiterPrecisionScenario() returns (found: Result<seq<Bytes>, Error>)
    ensures found == Ok([])
  {
    var u1: Bytes := [117, 49];
    var color: Bytes := [99, 111, 108, 111, 114];
    var s := new BadgerStorage();
    var _ := s.SetWithIndex(u1, [], color, [97, 98]);
    found := s.GetByIndex(color, [97]);
    forall q
      ensures q !in found.value
    {
      IndexKeysDisjoint(color, [97], q, color, [97, 98], u1);
    }
    AscendingUnique(found.value, []);
  }

  /** A scan result listing exactly the keys indexed when only `pk` is. */
  lemma OnlyIndexed(db: map<Bytes, Bytes>, indexName: Bytes, indexValue: Bytes, pk: Bytes, r: seq<Bytes>)
    requires StrictlyAscending(r)
    requires forall q :: q in r <==> MakeIndexKey(indexName, indexValue, q) in db
    requires MakeIndexKey(indexName, indexValue, pk) in db
    requires forall k :: k in db ==> k == MakeIndexKey(indexName, indexValue, pk) || !HasPrefix(k, SecondaryIndexPrefix)
    ensures r == [pk]
  {
    forall q
      ensures q in r <==> q in [pk]
    {
      var p := MakeIndexPrefix(indexName, indexValue);
      if p + q == p + pk {
        assert q == (p + q)[|p|..] == (p + pk)[|p|..] == pk;
      }
    }
    AscendingUnique(r, [pk]);
  }
}
