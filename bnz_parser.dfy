/** The BNZ rate-feed reader of `src/bnz/parser.py`, over a feed that has
    already been parsed into elements. ElementTree, `float()` and
    `strptime` are library calls: the document arrives as `FeedDocument`,
    and the number conversion is a parameter that either gives the number
    or the message of the `ValueError` that `float()` raises. */
module BnzParser {
  import opened Common
  import opened Rates

  /** A child element as ElementTree's `find` reports it: missing (`None`),
      or present with its `.text`, which is `None` for an element without
      text. */
  datatype Child = Missing | Element(text: Option<string>)

  /** One `<rate>` element: its `label`, `term` and `interest` children. */
  datatype RateElement = RateElement(labelElem: Child, termElem: Child, interestElem: Child)

  /** The parts of the feed the parser looks at: the first `lastupdated`
      element and every `rate` element, in document order. */
  datatype FeedDocument = FeedDocument(lastUpdated: Child, rates: seq<RateElement>)

  const NoRatesMessage: string := "No rates found in XML feed - BNZ API may be down or response format changed"
  const NoLastUpdatedMessage: string := "No lastupdated element found in XML"

  /** The child exists and its text is truthy (present and non-empty). */
  predicate HasText(c: Child) {
    c.Element? && c.text.Some? && c.text.value != []
  }

  /** A rate element contributes: all three children exist with non-empty
      text. The test is on the unstripped text. */
  predicate Usable(e: RateElement) {
    HasText(e.labelElem) && HasText(e.termElem) && HasText(e.interestElem)
  }

  /** The record one usable element yields, or the conversion error. */
  function RecordOf(e: RateElement, toFloat: string -> Result<real>): Result<Quote>
    requires Usable(e)
  {
    var interest := Strip(e.interestElem.text.value);
    match toFloat(interest)
    case Err(m) => Err(m)
    case Ok(v) => Ok(Quote(Strip(e.labelElem.text.value), Strip(e.termElem.text.value), v))
  }

  /** The records the loop collects from `elems`; the first element whose
      interest does not convert aborts with that error. */
  function CollectRates(elems: seq<RateElement>, toFloat: string -> Result<real>): Result<seq<Quote>>
  {
    if elems == [] then Ok([])
    else
      var last := elems[|elems| - 1];
      match CollectRates(elems[..|elems| - 1], toFloat)
      case Err(m) => Err(m)
      case Ok(rs) =>
        if !Usable(last) then Ok(rs)
        else
          match RecordOf(last, toFloat)
          case Err(m) => Err(m)
          case Ok(q) => Ok(rs + [q])
  }

  /** `parse_rates`: the collected records, or `ValueError` when there are
      none. */
  method ParseRates(feed: FeedDocument, toFloat: string -> Result<real>) returns (r: Result<seq<Quote>>)
    ensures CollectRates(feed.rates, toFloat).Err? ==> r == CollectRates(feed.rates, toFloat)
    ensures CollectRates(feed.rates, toFloat) == Ok([]) ==> r == Err(NoRatesMessage)
    ensures CollectRates(feed.rates, toFloat).Ok? && CollectRates(feed.rates, toFloat).value != [] ==>
              r == CollectRates(feed.rates, toFloat)
  {
    var elems := feed.rates;
    var rates: seq<Quote> := [];
    var i := 0;
    while i < |elems|
      invariant 0 <= i <= |elems|
      invariant CollectRates(elems[..i], toFloat) == Ok(rates)
    {
      assert elems[..i + 1][..i] == elems[..i];
      var e := elems[i];
      if e.labelElem != Missing && e.termElem != Missing && e.interestElem != Missing {
        if e.labelElem.text.Some? && e.labelElem.text.value != [] && e.termElem.text.Some? && e.termElem.text.value != []
           && e.interestElem.text.Some? && e.interestElem.text.value != [] {
          var interest := Strip(e.interestElem.text.value);
          var v := toFloat(interest);
          if v.Err? {
            assert CollectRates(elems[..i + 1], toFloat) == Err(v.message);
            CollectErrorPersists(elems, toFloat, i + 1);
            return Err(v.message);
          }
          rates := rates + [Quote(Strip(e.labelElem.text.value), Strip(e.termElem.text.value), v.value)];
        }
      }
      i := i + 1;
    }
    assert elems[..i] == elems;
    if |rates| == 0 {
      return Err(NoRatesMessage);
    }
    return Ok(rates);
  }

  /** An error raised at some element is the result of the whole loop. */
  lemma {:induction false} CollectErrorPersists(elems: seq<RateElement>, toFloat: string -> Result<real>, n: nat)
    requires n <= |elems| && CollectRates(elems[..n], toFloat).Err?
    ensures CollectRates(elems, toFloat) == CollectRates(elems[..n], toFloat)
    decreases |elems| - n
  {
    if n < |elems| {
      assert elems[..n + 1][..n] == elems[..n];
      CollectErrorPersists(elems, toFloat, n + 1);
    } else {
      assert elems[..n] == elems;
    }
  }

  /** Every usable element's interest text converts to a number. */
  predicate AllConvert(elems: seq<RateElement>, toFloat: string -> Result<real>) {
    forall i :: 0 <= i < |elems| && Usable(elems[i]) ==> RecordOf(elems[i], toFloat).Ok?
  }

  /** The positions of the usable elements, in increasing order. */
  function UsablePositions(elems: seq<RateElement>): seq<int>
  {
    if elems == [] then []
    else
      var n := |elems| - 1;
      UsablePositions(elems[..n]) + (if Usable(elems[n]) then [n] else [])
  }

  /** `UsablePositions` lists exactly the usable positions, each once and in
      increasing order. */
  lemma {:induction false} UsablePositionsSpec(elems: seq<RateElement>)
    ensures forall a :: 0 <= a < |UsablePositions(elems)| ==>
              0 <= UsablePositions(elems)[a] < |elems| && Usable(elems[UsablePositions(elems)[a]])
    ensures forall a, b :: 0 <= a < b < |UsablePositions(elems)| ==> UsablePositions(elems)[a] < UsablePositions(elems)[b]
    ensures forall i :: 0 <= i < |elems| ==> (i in UsablePositions(elems) <==> Usable(elems[i]))
    decreases |elems|
  {
    if elems != [] {
      var n := |elems| - 1;
      var init := elems[..n];
      UsablePositionsSpec(init);
      var prev := UsablePositions(init);
      assert n !in prev by {
        forall a | 0 <= a < |prev| ensures prev[a] != n {
        }
      }
      forall i | 0 <= i < n ensures elems[i] == init[i] {
      }
    }
  }

  /** With every number convertible, the output holds one record per usable
      element, in element order, each with stripped product name and term. */
  lemma {:induction false} CollectedRecords(elems: seq<RateElement>, toFloat: string -> Result<real>)
    requires AllConvert(elems, toFloat)
    ensures CollectRates(elems, toFloat).Ok?
    ensures |CollectRates(elems, toFloat).value| == |UsablePositions(elems)|
    ensures forall a :: 0 <= a < |UsablePositions(elems)| ==>
              var i := UsablePositions(elems)[a];
              0 <= i < |elems| && Usable(elems[i])
              && CollectRates(elems, toFloat).value[a] == RecordOf(elems[i], toFloat).value
    decreases |elems|
  {
    UsablePositionsSpec(elems);
    if elems != [] {
      var n := |elems| - 1;
      var init := elems[..n];
      assert AllConvert(init, toFloat) by {
        forall i | 0 <= i < |init| && Usable(init[i]) ensures RecordOf(init[i], toFloat).Ok? {
          assert init[i] == elems[i];
        }
      }
      CollectedRecords(init, toFloat);
      UsablePositionsSpec(init);
      var prev := UsablePositions(init);
      forall a | 0 <= a < |prev| ensures elems[prev[a]] == init[prev[a]] {
      }
    }
  }

  /** `ValueError` for an empty result happens exactly when no element is
      usable (given that every number converts). */
  lemma NoRatesIffNoUsableElement(feed: FeedDocument, toFloat: string -> Result<real>)
    requires AllConvert(feed.rates, toFloat)
    ensures CollectRates(feed.rates, toFloat) == Ok([]) <==> forall i :: 0 <= i < |feed.rates| ==> !Usable(feed.rates[i])
  {
    CollectedRecords(feed.rates, toFloat);
    UsablePositionsSpec(feed.rates);
    var idx := UsablePositions(feed.rates);
    if exists i :: 0 <= i < |feed.rates| && Usable(feed.rates[i]) {
      var i :| 0 <= i < |feed.rates| && Usable(feed.rates[i]);
      assert i in idx;
    }
    if |idx| > 0 {
      assert idx[0] in idx;
    }
  }

  /** A label of whitespace only passes the (unstripped) text test and
      becomes an empty product name. */
  lemma BlankLabelKept(e: RateElement, toFloat: string -> Result<real>)
    requires HasText(e.termElem) && HasText(e.interestElem)
    requires e.labelElem.Element? && e.labelElem.text.Some? && e.labelElem.text.value != []
    requires AllSpace(e.labelElem.text.value)
    requires toFloat(Strip(e.interestElem.text.value)).Ok?
    ensures Usable(e)
    ensures RecordOf(e, toFloat).Ok? && RecordOf(e, toFloat).value.product == []
  {
  }

  // ---------------------------------------------------------------------
  // parse_last_updated

  /** The first position at or after `from` where `pat` occurs. */
  function FindFrom(s: string, pat: string, from: nat): (r: Option<nat>)
    requires from <= |s|
    ensures r.Some? ==> from <= r.value && OccursAt(s, pat, r.value)
    ensures r.Some? ==> forall j :: from <= j < r.value ==> !OccursAt(s, pat, j)
    ensures r.None? ==> forall j :: from <= j <= |s| ==> !OccursAt(s, pat, j)
    decreases |s| - from
  {
    if OccursAt(s, pat, from) then Some(from)
    else if from == |s| then None
    else FindFrom(s, pat, from + 1)
  }

  /** Python's `s.split(sep, 1)` for a non-empty separator: split at the
      first occurrence, or the one-element list when there is none. */
  function SplitOnce(s: string, sep: string): (parts: seq<string>)
    requires sep != []
    ensures |parts| == 1 || |parts| == 2
    ensures |parts| == 1 ==> parts[0] == s
    ensures |parts| == 2 ==> s == parts[0] + sep + parts[1]
  {
    match FindFrom(s, sep, 0)
    case None => [s]
    case Some(i) =>
      assert s == s[..i] + sep + s[i + |sep|..];
      [s[..i], s[i + |sep|..]]
  }

  /** `parse_last_updated` up to the `strptime` call: the date text with a
      leading day name (`"Thursday, "`) removed. */
  function DateText(lastUpdated: Child): (r: Result<string>)
    ensures r.Err? <==> (lastUpdated.Missing? || lastUpdated.text.None?)
    ensures r.Err? ==> r.message == NoLastUpdatedMessage
  {
    if lastUpdated.Missing? || lastUpdated.text.None? then Err(NoLastUpdatedMessage)
    else
      var dateStr := Strip(lastUpdated.text.value);
      var parts := SplitOnce(dateStr, ", ");
      if |parts| == 2 then Ok(parts[1]) else Ok(dateStr)
  }

  /** What the day-name removal keeps: after the first ", " of the stripped
      text when there is one, otherwise the whole stripped text. */
  lemma DateTextMeaning(lastUpdated: Child)
    requires lastUpdated.Element? && lastUpdated.text.Some?
    ensures var d := Strip(lastUpdated.text.value);
            DateText(lastUpdated).Ok? &&
            (if exists i: nat :: OccursAt(d, ", ", i)
             then exists i: nat :: OccursAt(d, ", ", i) && (forall j: nat :: j < i ==> !OccursAt(d, ", ", j))
                              && DateText(lastUpdated).value == d[i + 2..]
             else DateText(lastUpdated).value == d)
  {
    var d := Strip(lastUpdated.text.value);
    AfterFirstComma(d);
  }

  /** The day-name removal on the stripped text `d`. */
  lemma AfterFirstComma(d: string)
    ensures var parts := SplitOnce(d, ", ");
            var r := if |parts| == 2 then parts[1] else d;
            if exists i: nat :: OccursAt(d, ", ", i)
            then exists i: nat :: OccursAt(d, ", ", i) && (forall j: nat :: j < i ==> !OccursAt(d, ", ", j))
                             && r == d[i + 2..]
            else r == d
  {
    match FindFrom(d, ", ", 0)
    case None =>
    case Some(i) =>
      assert OccursAt(d, ", ", i);
  }
}
