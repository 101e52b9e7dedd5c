/** The change detector of `src/storage.py`: whether a freshly parsed
    snapshot differs from the latest state recorded in the history, and
    which snapshot entries are new or changed. Loading and saving the JSON
    file are left to the caller; a missing file reaches these operations as
    the empty history. */
module Storage {
  import opened Rates

  /** The history's latest rate per key (`latest_existing`). */
  function LatestRates(existing: seq<Observation>): map<Key, real> {
    LastWins(Quotes(existing))
  }

  /** What `should_update_rates` decides: with no history, whether the
      snapshot has any entry; otherwise whether the history's latest map
      and the snapshot's own map differ. */
  predicate ShouldUpdate(existing: seq<Observation>, snapshot: seq<Quote>) {
    if existing == [] then snapshot != [] else LatestRates(existing) != LastWins(snapshot)
  }

  /** The test `key not in latest or latest[key] != rate`. */
  predicate IsChanged(latest: map<Key, real>, q: Quote) {
    q.Key() !in latest || latest[q.Key()] != q.percentage
  }

  /** The entries of `snapshot` that pass `IsChanged`, in snapshot order:
      what `filter_changed_rates` returns. */
  function ChangedRates(latest: map<Key, real>, snapshot: seq<Quote>): seq<Quote>
  {
    if snapshot == [] then []
    else
      var last := snapshot[|snapshot| - 1];
      ChangedRates(latest, snapshot[..|snapshot| - 1]) + (if IsChanged(latest, last) then [last] else [])
  }

  /** `should_update_rates(existing_rates, new_rates)`. */
  method ShouldUpdateRates(existing: seq<Observation>, newRates: seq<Quote>) returns (update: bool)
    ensures update == ShouldUpdate(existing, newRates)
  {
    if |existing| == 0 {
      return |newRates| > 0;
    }
    var latestExisting: map<Key, real> := map[];
    var i := 0;
    while i < |existing|
      invariant 0 <= i <= |existing|
      invariant latestExisting == LastWins(Quotes(existing[..i]))
    {
      assert Quotes(existing[..i + 1])[..i] == Quotes(existing[..i]);
      latestExisting := latestExisting[existing[i].Key() := existing[i].quote.percentage];
      i := i + 1;
    }
    assert existing[..i] == existing;
    var newRatesMap: map<Key, real> := map[];
    var j := 0;
    while j < |newRates|
      invariant 0 <= j <= |newRates|
      invariant newRatesMap == LastWins(newRates[..j])
    {
      assert newRates[..j + 1][..j] == newRates[..j];
      newRatesMap := newRatesMap[newRates[j].Key() := newRates[j].percentage];
      j := j + 1;
    }
    assert newRates[..j] == newRates;
    return latestExisting != newRatesMap;
  }

  /** `filter_changed_rates(existing_rates, new_rates)`. */
  method FilterChangedRates(existing: seq<Observation>, newRates: seq<Quote>) returns (changed: seq<Quote>)
    ensures changed == ChangedRates(LatestRates(existing), newRates)
  {
    var latestExisting: map<Key, real> := map[];
    var i := 0;
    while i < |existing|
      invariant 0 <= i <= |existing|
      invariant latestExisting == LastWins(Quotes(existing[..i]))
    {
      assert Quotes(existing[..i + 1])[..i] == Quotes(existing[..i]);
      latestExisting := latestExisting[existing[i].Key() := existing[i].quote.percentage];
      i := i + 1;
    }
    assert existing[..i] == existing;
    changed := [];
    var j := 0;
    while j < |newRates|
      invariant 0 <= j <= |newRates|
      invariant changed == ChangedRates(latestExisting, newRates[..j])
    {
      assert newRates[..j + 1][..j] == newRates[..j];
      var rate := newRates[j];
      if rate.Key() !in latestExisting || latestExisting[rate.Key()] != rate.percentage {
        changed := changed + [rate];
      }
      j := j + 1;
    }
    assert newRates[..j] == newRates;
  }

  // ---------------------------------------------------------------------
  // What the decision means, key by key

  /** Key `k` has the same latest rate in both sequences, or occurs in
      neither. */
  ghost predicate SameLatest(h: seq<Quote>, s: seq<Quote>, k: Key) {
    || (!HasKey(h, k) && !HasKey(s, k))
    || (exists i, j :: IsLastOfKey(h, i) && IsLastOfKey(s, j) && h[i].Key() == k && s[j].Key() == k
                       && h[i].percentage == s[j].percentage)
  }

  lemma SameLatestIffMapsAgree(h: seq<Quote>, s: seq<Quote>, k: Key)
    ensures SameLatest(h, s, k) <==>
            ((k in LastWins(h)) == (k in LastWins(s)) && (k in LastWins(h) ==> LastWins(h)[k] == LastWins(s)[k]))
  {
    LastWinsDomain(h, k);
    LastWinsDomain(s, k);
    if k in LastWins(h) && k in LastWins(s) {
      var i := LastOfKeyExists(h, k);
      var j := LastOfKeyExists(s, k);
      LastWinsValue(h, i);
      LastWinsValue(s, j);
      forall i', j' | IsLastOfKey(h, i') && IsLastOfKey(s, j') && h[i'].Key() == k && s[j'].Key() == k
        ensures h[i'].percentage == LastWins(h)[k] && s[j'].percentage == LastWins(s)[k]
      {
        LastWinsValue(h, i');
        LastWinsValue(s, j');
      }
    }
  }

  /** With a non-empty history, an update is due iff some key's latest rate
      differs between history and snapshot, or occurs in only one of them. */
  lemma ShouldUpdateMeaning(existing: seq<Observation>, snapshot: seq<Quote>)
    requires existing != []
    ensures ShouldUpdate(existing, snapshot) <==> exists k :: !SameLatest(Quotes(existing), snapshot, k)
  {
    var h := Quotes(existing);
    if ShouldUpdate(existing, snapshot) {
      var k: Key;
      if LastWins(h).Keys != LastWins(snapshot).Keys {
        k :| (k in LastWins(h)) != (k in LastWins(snapshot));
      } else {
        k :| k in LastWins(h) && LastWins(h)[k] != LastWins(snapshot)[k];
      }
      SameLatestIffMapsAgree(h, snapshot, k);
    } else {
      forall k ensures SameLatest(h, snapshot, k) {
        SameLatestIffMapsAgree(h, snapshot, k);
      }
    }
  }

  /** With an empty history an update is due iff the snapshot is non-empty. */
  lemma ShouldUpdateFromEmpty(snapshot: seq<Quote>)
    ensures ShouldUpdate([], snapshot) <==> |snapshot| > 0
  {
  }

  /** A key whose latest snapshot rate differs from its latest history rate
      triggers an update. */
  lemma ChangedRateDetected(existing: seq<Observation>, snapshot: seq<Quote>, j: int)
    requires existing != [] && IsLastOfKey(snapshot, j)
    requires snapshot[j].Key() in LatestRates(existing)
    requires LatestRates(existing)[snapshot[j].Key()] != snapshot[j].percentage
    ensures ShouldUpdate(existing, snapshot)
  {
    LastWinsValue(snapshot, j);
  }

  /** A key that the history has never seen triggers an update. */
  lemma AddedKeyDetected(existing: seq<Observation>, snapshot: seq<Quote>, j: int)
    requires existing != [] && 0 <= j < |snapshot|
    requires forall i :: 0 <= i < |existing| ==> existing[i].Key() != snapshot[j].Key()
    ensures ShouldUpdate(existing, snapshot)
  {
    var k := snapshot[j].Key();
    LastWinsDomain(snapshot, k);
    LastWinsDomain(Quotes(existing), k);
  }

  /** A key of the history that the snapshot no longer lists triggers an
      update. */
  lemma RemovedKeyDetected(existing: seq<Observation>, snapshot: seq<Quote>, i: int)
    requires 0 <= i < |existing|
    requires forall j :: 0 <= j < |snapshot| ==> snapshot[j].Key() != existing[i].Key()
    ensures ShouldUpdate(existing, snapshot)
  {
    var k := existing[i].Key();
    LastWinsDomain(snapshot, k);
    LastWinsDomain(Quotes(existing), k);
    assert Quotes(existing)[i].Key() == k;
  }

  /** For snapshots without repeated keys the order of the entries does not
      matter: the decision depends on the entries only. */
  lemma SnapshotOrderIrrelevant(existing: seq<Observation>, s: seq<Quote>, t: seq<Quote>)
    requires UniqueKeys(s) && UniqueKeys(t)
    requires multiset(s) == multiset(t)
    ensures ShouldUpdate(existing, s) == ShouldUpdate(existing, t)
  {
    assert |s| == |multiset(s)| == |multiset(t)| == |t|;
    SameEntriesSameMap(s, t);
    SameEntriesSameMap(t, s);
  }

  lemma SameEntriesSameMap(s: seq<Quote>, t: seq<Quote>)
    requires UniqueKeys(s) && UniqueKeys(t)
    requires multiset(s) == multiset(t)
    ensures LastWins(s).Keys <= LastWins(t).Keys
    ensures forall k :: k in LastWins(s) ==> LastWins(s)[k] == LastWins(t)[k]
  {
    forall k | k in LastWins(s)
      ensures k in LastWins(t) && LastWins(s)[k] == LastWins(t)[k]
    {
      var i := LastOfKeyExists(s, k);
      assert s[i] in multiset(t);
      var j :| 0 <= j < |t| && t[j] == s[i];
      LastWinsUnique(s, i);
      LastWinsUnique(t, j);
    }
  }

  /** Repeated keys inside one snapshot: when the last occurrence carries
      the recorded rate and an earlier one does not, no update is decided,
      yet the filter still returns the earlier occurrence. */
  lemma DuplicateKeysEdge(existing: seq<Observation>, q1: Quote, q2: Quote)
    requires existing != []
    requires q1.Key() == q2.Key() && q1.percentage != q2.percentage
    requires LatestRates(existing) == map[q2.Key() := q2.percentage]
    ensures !ShouldUpdate(existing, [q1, q2])
    ensures ChangedRates(LatestRates(existing), [q1, q2]) == [q1]
  {
    var k := q2.Key();
    assert [q1, q2][..1] == [q1];
    assert [q1][..0] == [];
    assert LastWins([q1]) == map[k := q1.percentage];
    assert LastWins([q1, q2]) == map[k := q2.percentage];
    var latest := LatestRates(existing);
    assert IsChanged(latest, q1) && !IsChanged(latest, q2);
    assert ChangedRates(latest, [q1]) == [q1];
  }

  // ---------------------------------------------------------------------
  // What the filter returns

  /** The filter keeps exactly the snapshot positions that pass `IsChanged`,
      in increasing order: `idx` lists those positions. */
  lemma {:induction false} ChangedPositions(latest: map<Key, real>, s: seq<Quote>) returns (idx: seq<int>)
    ensures |idx| == |ChangedRates(latest, s)|
    ensures forall a :: 0 <= a < |idx| ==> 0 <= idx[a] < |s| && ChangedRates(latest, s)[a] == s[idx[a]]
    ensures forall a, b :: 0 <= a < b < |idx| ==> idx[a] < idx[b]
    ensures forall i :: 0 <= i < |s| ==> (i in idx <==> IsChanged(latest, s[i]))
    decreases |s|
  {
    if s == [] {
      idx := [];
    } else {
      var n := |s| - 1;
      var init := s[..n];
      var prev := ChangedPositions(latest, init);
      idx := if IsChanged(latest, s[n]) then prev + [n] else prev;
    }
  }

  /** An entry is in the output iff it is in the snapshot and passes
      `IsChanged`. */
  lemma ChangedMembership(latest: map<Key, real>, s: seq<Quote>, q: Quote)
    ensures q in ChangedRates(latest, s) <==> q in s && IsChanged(latest, q)
  {
    var idx := ChangedPositions(latest, s);
    var c := ChangedRates(latest, s);
    if q in c {
      var a :| 0 <= a < |c| && c[a] == q;
      assert idx[a] in idx;
    }
    if q in s && IsChanged(latest, q) {
      var i :| 0 <= i < |s| && s[i] == q;
      var a :| 0 <= a < |idx| && idx[a] == i;
    }
  }

  /** Against an empty history every entry is new: the snapshot comes back
      unchanged. */
  lemma ChangedAgainstEmptyHistory(s: seq<Quote>)
    ensures ChangedRates(LatestRates([]), s) == s
  {
    assert Quotes([]) == [];
    assert LatestRates([]) == map[];
    ChangedAgainstEmptyMap(s);
  }

  lemma {:induction false} ChangedAgainstEmptyMap(s: seq<Quote>)
    ensures ChangedRates(map[], s) == s
    decreases |s|
  {
    if s != [] {
      var n := |s| - 1;
      ChangedAgainstEmptyMap(s[..n]);
      assert IsChanged(map[], s[n]);
      assert s == s[..n] + [s[n]];
    }
  }

  /** When no entry passes `IsChanged` the filter is empty. */
  lemma NothingChanged(latest: map<Key, real>, s: seq<Quote>)
    requires forall i :: 0 <= i < |s| ==> !IsChanged(latest, s[i])
    ensures ChangedRates(latest, s) == []
  {
    var c := ChangedRates(latest, s);
    if c != [] {
      ChangedMembership(latest, s, c[0]);
    }
  }

  /** A removal-only change: every snapshot entry matches the history's
      latest rate, but some recorded key is missing from the snapshot. An
      update is decided, yet nothing passes the filter. */
  lemma {:induction false} RemovalOnlyChange(existing: seq<Observation>, s: seq<Quote>, i: int)
    requires 0 <= i < |existing|
    requires forall j :: 0 <= j < |s| ==> s[j].Key() != existing[i].Key()
    requires forall j :: 0 <= j < |s| ==> !IsChanged(LatestRates(existing), s[j])
    ensures ShouldUpdate(existing, s)
    ensures ChangedRates(LatestRates(existing), s) == []
  {
    RemovedKeyDetected(existing, s, i);
    NothingChanged(LatestRates(existing), s);
  }

  /** Appending stamped entries overrides the latest map with theirs. */
  lemma LatestAfterAppend(existing: seq<Observation>, c: seq<Quote>, nowIso: string)
    ensures LatestRates(existing + StampAll(c, nowIso)) == LatestRates(existing) + LastWins(c)
  {
    QuotesAppend(existing, StampAll(c, nowIso));
    QuotesOfStamped(c, nowIso);
    LastWinsAppend(Quotes(existing), c);
  }

  /** Filtering the same snapshot (without repeated keys) again, against the
      history with the stamped changed entries appended, finds nothing. */
  lemma RefilterAfterAppendIsEmpty(existing: seq<Observation>, s: seq<Quote>, nowIso: string)
    requires UniqueKeys(s)
    ensures ChangedRates(LatestRates(existing + StampAll(ChangedRates(LatestRates(existing), s), nowIso)), s) == []
  {
    var latest := LatestRates(existing);
    var c := ChangedRates(latest, s);
    var idx := ChangedPositions(latest, s);
    LatestAfterAppend(existing, c, nowIso);
    var after := LatestRates(existing + StampAll(c, nowIso));
    assert after == latest + LastWins(c);
    assert UniqueKeys(c);
    forall i | 0 <= i < |s| ensures !IsChanged(after, s[i]) {
      var k := s[i].Key();
      if IsChanged(latest, s[i]) {
        var a :| 0 <= a < |idx| && idx[a] == i;
        LastWinsUnique(c, a);
      } else if k in LastWins(c) {
        var a := LastOfKeyExists(c, k);
        assert false;
      }
    }
    NothingChanged(after, s);
  }
}
