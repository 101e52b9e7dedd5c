/** The rate entries shared by the scraper, the change detector, the HTML
    generator and the notifier, and the "latest rate per (product, term)"
    map that several of them build with `latest[key] = rate` in a loop. */
module Rates {

  /** `(product_name, term)`: the identity of one rate series. */
  type Key = (string, string)

  /** One entry of a freshly parsed snapshot, not yet stamped: its
      `product_name`, `term` and `rate_percentage`. Rates are only ever
      compared for equality, so a `real` stands for the Python float. */
  datatype Quote = Quote(product: string, term: string, percentage: real) {
    function Key(): Key {
      (product, term)
    }
  }

  /** One entry of the persisted history: a quote plus the `scraped_at`
      timestamp (an ISO-8601 string) stamped on it when it was appended. */
  datatype Observation = Observation(quote: Quote, scrapedAt: string) {
    function Key(): Key {
      quote.Key()
    }
  }

  /** The quotes of a history, position by position. */
  function Quotes(h: seq<Observation>): (qs: seq<Quote>)
    ensures |qs| == |h|
    ensures forall i :: 0 <= i < |h| ==> qs[i] == h[i].quote
  {
    seq(|h|, i requires 0 <= i < |h| => h[i].quote)
  }

  lemma QuotesAppend(a: seq<Observation>, b: seq<Observation>)
    ensures Quotes(a + b) == Quotes(a) + Quotes(b)
  {
  }

  /** Every quote of `qs` stamped with the one timestamp `nowIso`. */
  function StampAll(qs: seq<Quote>, nowIso: string): (h: seq<Observation>)
    ensures |h| == |qs|
    ensures forall i :: 0 <= i < |qs| ==> h[i] == Observation(qs[i], nowIso)
  {
    seq(|qs|, i requires 0 <= i < |qs| => Observation(qs[i], nowIso))
  }

  lemma QuotesOfStamped(qs: seq<Quote>, nowIso: string)
    ensures Quotes(StampAll(qs, nowIso)) == qs
  {
  }

  /** The dictionary `latest` after `for rate in qs: latest[key] = rate`:
      a later entry overwrites an earlier one with the same key. */
  function LastWins(qs: seq<Quote>): map<Key, real>
  {
    if qs == [] then map[]
    else LastWins(qs[..|qs| - 1])[qs[|qs| - 1].Key() := qs[|qs| - 1].percentage]
  }

  /** Position `i` holds the last entry of `qs` with its key. */
  predicate IsLastOfKey(qs: seq<Quote>, i: int) {
    0 <= i < |qs| && forall j :: i < j < |qs| ==> qs[j].Key() != qs[i].Key()
  }

  predicate HasKey(qs: seq<Quote>, k: Key) {
    exists i :: 0 <= i < |qs| && qs[i].Key() == k
  }

  /** No two entries share a key. */
  predicate UniqueKeys(qs: seq<Quote>) {
    forall i, j :: 0 <= i < j < |qs| ==> qs[i].Key() != qs[j].Key()
  }

  /** The keys of the map are exactly the keys occurring in `qs`. */
  lemma {:induction false} LastWinsDomain(qs: seq<Quote>, k: Key)
    ensures k in LastWins(qs) <==> HasKey(qs, k)
    decreases |qs|
  {
    if qs != [] {
      var init := qs[..|qs| - 1];
      LastWinsDomain(init, k);
      if HasKey(init, k) {
        var i :| 0 <= i < |init| && init[i].Key() == k;
        assert qs[i].Key() == k;
      }
      if HasKey(qs, k) && qs[|qs| - 1].Key() != k {
        var i :| 0 <= i < |qs| && qs[i].Key() == k;
        assert init[i].Key() == k;
      }
    }
  }

  /** The value of a key is the rate of the last entry with that key. */
  lemma {:induction false} LastWinsValue(qs: seq<Quote>, i: int)
    requires IsLastOfKey(qs, i)
    ensures qs[i].Key() in LastWins(qs)
    ensures LastWins(qs)[qs[i].Key()] == qs[i].percentage
    decreases |qs|
  {
    if i < |qs| - 1 {
      var init := qs[..|qs| - 1];
      assert IsLastOfKey(init, i) by {
        forall j | i < j < |init| ensures init[j].Key() != init[i].Key() {
          assert init[j] == qs[j];
        }
      }
      LastWinsValue(init, i);
    }
  }

  /** Every key of the map has a last entry in `qs`. */
  lemma LastOfKeyExists(qs: seq<Quote>, k: Key) returns (i: int)
    requires k in LastWins(qs)
    ensures IsLastOfKey(qs, i) && qs[i].Key() == k
  {
    LastWinsDomain(qs, k);
    var j :| 0 <= j < |qs| && qs[j].Key() == k;
    i := j;
    while i + 1 < |qs| && exists m :: i < m < |qs| && qs[m].Key() == k
      invariant 0 <= i < |qs| && qs[i].Key() == k
      decreases |qs| - i
    {
      var m :| i < m < |qs| && qs[m].Key() == k;
      i := m;
    }
  }

  /** With unique keys every entry is the last of its key. */
  lemma LastWinsUnique(qs: seq<Quote>, i: int)
    requires UniqueKeys(qs) && 0 <= i < |qs|
    ensures qs[i].Key() in LastWins(qs) && LastWins(qs)[qs[i].Key()] == qs[i].percentage
  {
    LastWinsValue(qs, i);
  }

  /** Running the loop over `a` and then over `b` is map override. */
  lemma {:induction false} LastWinsAppend(a: seq<Quote>, b: seq<Quote>)
    ensures LastWins(a + b) == LastWins(a) + LastWins(b)
    decreases |b|
  {
    if b != [] {
      var init := b[..|b| - 1];
      assert (a + b)[..|a + b| - 1] == a + init;
      LastWinsAppend(a, init);
    } else {
      assert a + b == a;
    }
  }
}
