/**
 * `CaseInsensitiveDictionary<TValue>`: a string-keyed dictionary whose
 * comparer is `StringComparer.OrdinalIgnoreCase`, so that its keys are unique
 * up to case. The state is a map from the folded key to the key as first
 * stored (its original casing) and the value.
 */
module Collection {
  import opened Wrappers
  import opened Strings

  /** Folded key to (stored key, value). */
  type Entries<V> = map<string, (string, V)>

  /** Every entry sits under the fold of its own stored key: the invariant the comparer keeps. */
  predicate WellFormed<V>(m: Entries<V>)
  {
    forall f | f in m :: Fold(m[f].0) == f
  }

  /** The dictionary's `Keys`, in their stored casing. */
  function StoredKeys<V>(m: Entries<V>): set<string>
  {
    set f | f in m :: m[f].0
  }

  /** Stored keys are pairwise distinct under case-insensitive comparison. */
  lemma StoredKeysDistinct<V>(m: Entries<V>, a: string, b: string)
    requires WellFormed(m)
    requires a in StoredKeys(m) && b in StoredKeys(m)
    ensures EqualsIgnoreCase(a, b) <==> a == b
  {
    var fa :| fa in m && m[fa].0 == a;
    var fb :| fb in m && m[fb].0 == b;
  }

  /** A key is matched ignoring case by a stored key iff its fold is present, and that stored key is the entry's. */
  lemma MatchingStoredKey<V>(m: Entries<V>, key: string)
    requires WellFormed(m)
    ensures (exists k :: k in StoredKeys(m) && EqualsIgnoreCase(k, key)) <==> Fold(key) in m
    ensures Fold(key) in m ==> forall k | k in StoredKeys(m) && EqualsIgnoreCase(k, key) :: k == m[Fold(key)].0
  {
    if Fold(key) in m {
      assert m[Fold(key)].0 in StoredKeys(m);
    }
  }

  /**
   * The indexer setter `dict[key] = value`: an existing entry matching `key`
   * ignoring case keeps its stored key and takes the new value; otherwise
   * `key` is stored as given.
   */
  function Assign<V>(m: Entries<V>, key: string, value: V): (r: Entries<V>)
    requires WellFormed(m)
    ensures WellFormed(r)
    ensures r.Keys == m.Keys + {Fold(key)}
    ensures r[Fold(key)].1 == value
    ensures r[Fold(key)].0 == if Fold(key) in m then m[Fold(key)].0 else key
    ensures forall f | f in m && f != Fold(key) :: r[f] == m[f]
  {
    var f := Fold(key);
    if f in m then m[f := (m[f].0, value)] else m[f := (key, value)]
  }

  /** `Remove(key)`: the entry matching `key` ignoring case, if any, is gone. */
  function Without<V>(m: Entries<V>, key: string): (r: Entries<V>)
    requires WellFormed(m)
    ensures WellFormed(r)
    ensures forall k | k in StoredKeys(r) :: !EqualsIgnoreCase(k, key)
    ensures r.Keys == m.Keys - {Fold(key)}
    ensures forall f | f in r :: r[f] == m[f]
  {
    m - {Fold(key)}
  }

  /** The value `TryRemove` hands back: the stored value if `key` matches an entry, else `default(TValue)`. */
  function RemovedValue<V>(m: Entries<V>, key: string, default: V): (v: V)
    requires WellFormed(m)
    ensures (exists k :: k in StoredKeys(m) && EqualsIgnoreCase(k, key)) ==> v == m[Fold(key)].1
    ensures (forall k | k in StoredKeys(m) :: !EqualsIgnoreCase(k, key)) ==> v == default
  {
    MatchingStoredKey(m, key);
    if Fold(key) in m then m[Fold(key)].1 else default
  }

  /** What `TryRemove` returns, as written: that the value it hands back is not null. */
  function TryRemoveReport<V>(m: Entries<V>, key: string, default: V, isNull: V -> bool): bool
    requires WellFormed(m)
  {
    !isNull(RemovedValue(m, key, default))
  }

  /** With a nullable value type: an entry that matches and holds null is removed, yet reported as not removed. */
  lemma TryRemoveNullValueReportsFalse<V>(m: Entries<V>, key: string, default: V, isNull: V -> bool)
    requires WellFormed(m)
    requires Fold(key) in m && isNull(m[Fold(key)].1)
    ensures !TryRemoveReport(m, key, default, isNull)
    ensures Fold(key) in m && Fold(key) !in Without(m, key)
  {
  }

  /** With a reference or nullable type argument (default is null), an absent key is reported as not removed. */
  lemma TryRemoveAbsentNullableReportsFalse<V>(m: Entries<V>, key: string, default: V, isNull: V -> bool)
    requires WellFormed(m)
    requires isNull(default)
    requires forall k | k in StoredKeys(m) :: !EqualsIgnoreCase(k, key)
    ensures !TryRemoveReport(m, key, default, isNull)
    ensures Without(m, key) == m
  {
    MatchingStoredKey(m, key);
  }

  /**
   * As written, with a non-nullable value type such as `int` (nothing is
   * null, the default is 0), an absent key is reported as removed.
   */
  lemma TryRemoveAbsentValueTypeReportsTrue(m: Entries<int>, key: string)
    requires WellFormed(m)
    requires forall k | k in StoredKeys(m) :: !EqualsIgnoreCase(k, key)
    ensures TryRemoveReport(m, key, 0, (v: int) => false)
    ensures Without(m, key) == m
  {
    MatchingStoredKey(m, key);
  }

  /** What `TryRemove` evidently means to report: whether an entry matching `key` ignoring case was there to remove. */
  function TryRemoveFound<V>(m: Entries<V>, key: string): (found: bool)
    requires WellFormed(m)
    ensures found <==> exists k :: k in StoredKeys(m) && EqualsIgnoreCase(k, key)
    ensures found <==> |Without(m, key)| == |m| - 1
    ensures !found <==> Without(m, key) == m
  {
    MatchingStoredKey(m, key);
    var f := Fold(key);
    if f in m then
      assert m.Keys == Without(m, key).Keys + {f};
      true
    else
      assert Without(m, key).Keys == m.Keys;
      false
  }

  /** The corrected report agrees with the written one exactly when the value handed back is non-null iff an entry was found. */
  lemma TryRemoveReportAgreesWhenNonNull<V>(m: Entries<V>, key: string, default: V, isNull: V -> bool)
    requires WellFormed(m)
    requires isNull(default)
    requires Fold(key) in m ==> !isNull(m[Fold(key)].1)
    ensures TryRemoveReport(m, key, default, isNull) == TryRemoveFound(m, key)
  {
  }

  /** `this.Where(n => condition(n.Key))`: the entries whose stored key satisfies `condition`. */
  function Filtered<V>(m: Entries<V>, condition: string -> bool): (r: Entries<V>)
    requires WellFormed(m)
    ensures WellFormed(r)
    ensures r.Keys <= m.Keys
    ensures StoredKeys(r) <= StoredKeys(m)
    ensures forall f | f in m :: f in r <==> condition(m[f].0)
    ensures forall f | f in r :: r[f] == m[f]
  {
    map f | f in m && condition(m[f].0) :: m[f]
  }

  /** The filtered dictionary holds exactly the stored keys satisfying `condition`, casing kept, each with its value. */
  lemma FilteredStoredKeys<V>(m: Entries<V>, condition: string -> bool)
    requires WellFormed(m)
    ensures StoredKeys(Filtered(m, condition)) == set k | k in StoredKeys(m) && condition(k)
    ensures forall f | f in Filtered(m, condition) :: condition(Filtered(m, condition)[f].0)
  {
    var r := Filtered(m, condition);
    forall k | k in StoredKeys(m) && condition(k) ensures k in StoredKeys(r) {
      var f :| f in m && m[f].0 == k;
      assert r[f].0 == k;
    }
  }

  /** Keys of `pairs` pairwise distinct ignoring case: what `Add` demands of the pairs a dictionary is built from. */
  ghost predicate DistinctIgnoringCase<V>(pairs: seq<(string, V)>)
  {
    forall i, j | 0 <= i < j < |pairs| :: !EqualsIgnoreCase(pairs[i].0, pairs[j].0)
  }

  /** The entries obtained by storing `pairs` one after the other. */
  function PairsEntries<V>(pairs: seq<(string, V)>): (r: Entries<V>)
    ensures WellFormed(r)
  {
    if pairs == [] then map[]
    else
      var last := pairs[|pairs| - 1];
      Assign(PairsEntries(pairs[..|pairs| - 1]), last.0, last.1)
  }

  /** Every pair stored leaves an entry under the fold of its key. */
  lemma {:induction false} PairsEntriesHas<V>(pairs: seq<(string, V)>, j: nat)
    requires j < |pairs|
    ensures Fold(pairs[j].0) in PairsEntries(pairs)
  {
    var init := pairs[..|pairs| - 1];
    if j < |init| {
      PairsEntriesHas(init, j);
      assert init[j] == pairs[j];
    }
  }

  /** Every entry stored comes from a pair whose key folds to it. */
  lemma {:induction false} PairsEntriesFrom<V>(pairs: seq<(string, V)>, f: string) returns (j: nat)
    requires f in PairsEntries(pairs)
    ensures j < |pairs| && Fold(pairs[j].0) == f
  {
    var init := pairs[..|pairs| - 1];
    if f == Fold(pairs[|pairs| - 1].0) {
      j := |pairs| - 1;
    } else {
      j := PairsEntriesFrom(init, f);
      assert init[j] == pairs[j];
    }
  }

  /** A prefix of pairs with keys distinct ignoring case has them distinct too. */
  lemma DistinctPrefix<V>(pairs: seq<(string, V)>, n: nat)
    requires DistinctIgnoringCase(pairs)
    requires n <= |pairs|
    ensures DistinctIgnoringCase(pairs[..n])
  {
    var init := pairs[..n];
    forall a, b | 0 <= a < b < |init| ensures !EqualsIgnoreCase(init[a].0, init[b].0) {
      assert init[a] == pairs[a] && init[b] == pairs[b];
    }
  }

  /** Pairs with keys distinct ignoring case are each stored as given, key casing and value. */
  lemma {:induction false} PairsEntriesAt<V>(pairs: seq<(string, V)>, i: nat)
    requires DistinctIgnoringCase(pairs)
    requires i < |pairs|
    ensures Fold(pairs[i].0) in PairsEntries(pairs)
    ensures PairsEntries(pairs)[Fold(pairs[i].0)] == pairs[i]
  {
    var n := |pairs|;
    var init := pairs[..n - 1];
    var last := pairs[n - 1];
    DistinctPrefix(pairs, n - 1);
    assert PairsEntries(pairs) == Assign(PairsEntries(init), last.0, last.1);
    if i < n - 1 {
      PairsEntriesAt(init, i);
      assert init[i] == pairs[i];
      assert Fold(pairs[i].0) != Fold(last.0);
    } else {
      if Fold(last.0) in PairsEntries(init) {
        var j := PairsEntriesFrom(init, Fold(last.0));
        assert false;
      }
    }
  }

  /** Storing one more pair extends the entries by that pair, and keeps the keys distinct when its fold is new. */
  lemma PairsEntriesStep<V>(pairs: seq<(string, V)>, i: nat)
    requires i < |pairs|
    requires DistinctIgnoringCase(pairs[..i])
    ensures PairsEntries(pairs[..i + 1]) == Assign(PairsEntries(pairs[..i]), pairs[i].0, pairs[i].1)
    ensures Fold(pairs[i].0) in PairsEntries(pairs[..i]) <==> !DistinctIgnoringCase(pairs[..i + 1])
    ensures Fold(pairs[i].0) in PairsEntries(pairs[..i]) ==> !DistinctIgnoringCase(pairs)
  {
    var done := pairs[..i + 1];
    assert done[..i] == pairs[..i];
    if Fold(pairs[i].0) in PairsEntries(pairs[..i]) {
      var j := PairsEntriesFrom(pairs[..i], Fold(pairs[i].0));
      assert done[j] == pairs[j] && done[i] == pairs[i];
    } else {
      forall a, b | 0 <= a < b < |done| ensures !EqualsIgnoreCase(done[a].0, done[b].0) {
        assert done[a] == pairs[..i][a];
        if b < i {
          assert done[b] == pairs[..i][b];
        } else {
          PairsEntriesHas(pairs[..i], a);
        }
      }
    }
  }

  class CaseInsensitiveDictionary<V> {
    var entries: Entries<V>
    /** `default(TValue)`. */
    const Default: V
    /** The test `v == null` for the type argument `TValue`; constantly false for a non-nullable value type. */
    const IsNull: V -> bool

    ghost predicate Valid()
      reads this
    {
      WellFormed(entries)
    }

    /** The parameterless constructor: an empty dictionary with the ignore-case comparer. */
    constructor (default: V, isNull: V -> bool)
      ensures Valid()
      ensures entries == map[]
      ensures Default == default && IsNull == isNull
    {
      entries := map[];
      Default := default;
      IsNull := isNull;
    }

    /**
     * The constructors from an `IDictionary` or from a sequence of key-value
     * pairs: each pair is added in turn, and `Add` throws (here: `None`) on a
     * key already present ignoring case.
     */
    static method FromPairs(pairs: seq<(string, V)>, default: V, isNull: V -> bool)
      returns (r: Option<CaseInsensitiveDictionary<V>>)
      ensures r.Some? <==> DistinctIgnoringCase(pairs)
      ensures r.Some? ==> fresh(r.value) && r.value.Valid()
      ensures r.Some? ==> r.value.entries == PairsEntries(pairs)
      ensures r.Some? ==> r.value.Default == default && r.value.IsNull == isNull
    {
      var d := new CaseInsensitiveDictionary(default, isNull);
      var i := 0;
      while i < |pairs|
        invariant 0 <= i <= |pairs|
        invariant fresh(d) && d.Valid()
        invariant d.Default == default && d.IsNull == isNull
        invariant d.entries == PairsEntries(pairs[..i])
        invariant DistinctIgnoringCase(pairs[..i])
      {
        var (key, value) := pairs[i];
        PairsEntriesStep(pairs, i);
        if Fold(key) in d.entries {
          return None;
        }
        d.SetItem(key, value);
        i := i + 1;
      }
      assert pairs[..i] == pairs;
      return Some(d);
    }

    /** The indexer setter `this[key] = value`. */
    method SetItem(key: string, value: V)
      requires Valid()
      modifies this
      ensures Valid()
      ensures entries == Assign(old(entries), key, value)
    {
      entries := Assign(entries, key, value);
    }

    /**
     * `TryGetKey`: whether some stored key equals `key` ignoring case and,
     * if so, that stored key in its original casing (otherwise null).
     */
    function TryGetKey(key: string): (r: (bool, Option<string>))
      reads this
      requires Valid()
      ensures r.0 <==> exists k :: k in StoredKeys(entries) && EqualsIgnoreCase(k, key)
      ensures r.0 <==> r.1.Some?
      ensures r.1.Some? ==> r.1.value in StoredKeys(entries) && EqualsIgnoreCase(r.1.value, key)
      ensures r.1.Some? ==> forall k | k in StoredKeys(entries) && EqualsIgnoreCase(k, key) :: k == r.1.value
    {
      MatchingStoredKey(entries, key);
      var actualKey := if Fold(key) in entries then Some(entries[Fold(key)].0) else None;
      assert actualKey.Some? ==> actualKey.value in StoredKeys(entries);
      (actualKey.Some?, actualKey)
    }

    /**
     * `TryRemove`: the entry matching `key` ignoring case, if any, is removed
     * and its value handed back (`default(TValue)` otherwise); the result is
     * whether that value is non-null, not whether an entry was removed.
     */
    method TryRemove(key: string) returns (removed: bool, value: V)
      requires Valid()
      modifies this
      ensures Valid()
      ensures entries == Without(old(entries), key)
      ensures value == RemovedValue(old(entries), key, Default)
      ensures removed == !IsNull(value)
    {
      value := Default;
      if Fold(key) in entries {
        value := entries[Fold(key)].1;
        entries := entries - {Fold(key)};
      }
      removed := !IsNull(value);
    }

    /**
     * `FilterKey`: a new dictionary holding the pairs whose stored key
     * satisfies `condition`; the receiver is not changed.
     */
    method FilterKey(condition: string -> bool) returns (r: CaseInsensitiveDictionary<V>)
      requires Valid()
      ensures fresh(r) && r.Valid()
      ensures r.entries == Filtered(entries, condition)
      ensures r.Default == Default && r.IsNull == IsNull
    {
      r := new CaseInsensitiveDictionary(Default, IsNull);
      var pending := entries.Keys;
      while pending != {}
        invariant pending <= entries.Keys
        invariant fresh(r) && r.Valid()
        invariant r.Default == Default && r.IsNull == IsNull
        invariant r.entries == map f | f in entries && f !in pending && condition(entries[f].0) :: entries[f]
        decreases pending
      {
        var f :| f in pending;
        var (k, v) := entries[f];
        if condition(k) {
          r.SetItem(k, v);
        }
        pending := pending - {f};
      }
    }
  }

  /**
   * A client of the dictionary with `int` values (a non-nullable value type:
   * nothing is null, the default is 0).
   */
  method IntDictionaryClient()
  {
    var d := new CaseInsensitiveDictionary<int>(0, (v: int) => false);
    assert Fold("ReadMe") == "README" == Fold("README") == Fold("readme");
    d.SetItem("ReadMe", 7);
    d.SetItem("README", 8);
    assert d.entries == map[Fold("ReadMe") := ("ReadMe", 8)];
    var found := d.TryGetKey("readme");
    assert found == (true, Some("ReadMe"));
    var removed, value := d.TryRemove("readme");
    assert removed && value == 8 && d.entries == map[];
    removed, value := d.TryRemove("readme");
    assert removed && value == 0;
  }
}
