/** The message text of `src/notifier.py` (`format_notification`). The
    rendering of a float inside an f-string is the parameter `show`;
    reading the topic from the environment and posting the message are
    left out. */
module Notifier {
  import opened Rates

  function Digit(d: nat): char
    requires d < 10
  {
    "0123456789"[d]
  }

  /** Python's `str(n)` for a count: its decimal digits, with no leading zero. */
  function NatToString(n: nat): (s: string)
    ensures s != []
    ensures forall i :: 0 <= i < |s| ==> '0' <= s[i] <= '9'
    ensures |s| > 1 ==> s[0] != '0'
  {
    if n < 10 then [Digit(n)] else NatToString(n / 10) + [Digit(n % 10)]
  }

  /** The value of a string of decimal digits. */
  function DigitsValue(s: string): nat
    requires forall i :: 0 <= i < |s| ==> '0' <= s[i] <= '9'
  {
    if s == [] then 0
    else DigitsValue(s[..|s| - 1]) * 10 + (s[|s| - 1] as int - '0' as int)
  }

  /** Reading the digits back gives the count: the rendering loses nothing. */
  lemma {:induction false} NatToStringRoundTrip(n: nat)
    ensures DigitsValue(NatToString(n)) == n
  {
    if n >= 10 {
      var s := NatToString(n);
      assert s[..|s| - 1] == NatToString(n / 10);
      NatToStringRoundTrip(n / 10);
    }
  }

  /** `f"{bank_name}: {count} rate{'s' if count != 1 else ''} changed"`. */
  function Title(bankName: string, count: nat): string {
    bankName + ": " + NatToString(count) + " rate" + (if count != 1 then "s" else "") + " changed"
  }

  /** The body line for one changed rate, given the previous rates. */
  function Line(q: Quote, previous: map<Key, real>, show: real -> string): string {
    var head := "- " + q.product + " " + q.term + ": ";
    if q.Key() in previous then
      head + show(previous[q.Key()]) + "% -> " + show(q.percentage) + "%"
    else
      head + show(q.percentage) + "% (new)"
  }

  /** One line per changed rate, in order. */
  function BodyLines(changed: seq<Quote>, previous: map<Key, real>, show: real -> string): (ls: seq<string>)
    ensures |ls| == |changed|
    ensures forall j :: 0 <= j < |changed| ==> ls[j] == Line(changed[j], previous, show)
  {
    seq(|changed|, j requires 0 <= j < |changed| => Line(changed[j], previous, show))
  }

  /** Python's `"\n".join(lines)`. */
  function JoinLines(lines: seq<string>): string {
    if lines == [] then ""
    else if |lines| == 1 then lines[0]
    else lines[0] + "\n" + JoinLines(lines[1..])
  }

  /** Python's `s.split("\n")`: the pieces between the newlines. */
  function SplitLines(s: string): (parts: seq<string>)
    ensures |parts| >= 1
    decreases |s|
  {
    if exists i :: 0 <= i < |s| && s[i] == '\n' then
      var i := FirstNewline(s, 0);
      [s[..i]] + SplitLines(s[i + 1..])
    else
      [s]
  }

  function FirstNewline(s: string, from: nat): (i: nat)
    requires from <= |s|
    requires exists i :: from <= i < |s| && s[i] == '\n'
    ensures from <= i < |s| && s[i] == '\n'
    ensures forall j :: from <= j < i ==> s[j] != '\n'
    decreases |s| - from
  {
    if s[from] == '\n' then from else FirstNewline(s, from + 1)
  }

  predicate NoNewline(s: string) {
    '\n' !in s
  }

  /** A piece without newline followed by a newline splits off first. */
  lemma SplitAtFirstNewline(a: string, rest: string)
    requires NoNewline(a)
    ensures SplitLines(a + "\n" + rest) == [a] + SplitLines(rest)
  {
    var s := a + "\n" + rest;
    assert s[|a|] == '\n';
    assert forall j :: 0 <= j < |a| ==> s[j] == a[j] && s[j] != '\n';
    assert FirstNewline(s, 0) == |a|;
    assert s[..|a|] == a;
    assert s[|a| + 1..] == rest;
  }

  /** Splitting the joined lines gives the lines back, when there is at
      least one and none contains a newline. */
  lemma {:induction false} SplitJoinRoundTrip(lines: seq<string>)
    requires |lines| >= 1
    requires forall k :: 0 <= k < |lines| ==> NoNewline(lines[k])
    ensures SplitLines(JoinLines(lines)) == lines
    decreases |lines|
  {
    if |lines| == 1 {
      assert JoinLines(lines) == lines[0];
    } else {
      SplitAtFirstNewline(lines[0], JoinLines(lines[1..]));
      SplitJoinRoundTrip(lines[1..]);
      assert lines == [lines[0]] + lines[1..];
    }
  }

  /** `format_notification(bank_name, changed_rates, existing_rates)`: both
      lists hold history entries; only their quotes matter. */
  method FormatNotification(bankName: string, changed: seq<Observation>, existing: seq<Observation>, show: real -> string)
      returns (title: string, body: string)
    ensures title == Title(bankName, |changed|)
    ensures body == JoinLines(BodyLines(Quotes(changed), LastWins(Quotes(existing)), show))
  {
    var latestExisting: map<Key, real> := map[];
    var i := 0;
    while i < |existing|
      invariant 0 <= i <= |existing|
      invariant latestExisting == LastWins(Quotes(existing[..i]))
    {
      assert Quotes(existing[..i + 1])[..i] == Quotes(existing[..i]);
      latestExisting := latestExisting[existing[i].Key() := existing[i].quote.percentage];
      i := i + 1;
    }
    assert existing[..i] == existing;

    var count := |changed|;
    title := bankName + ": " + NatToString(count) + " rate" + (if count != 1 then "s" else "") + " changed";

    var lines: seq<string> := [];
    var j := 0;
    while j < |changed|
      invariant 0 <= j <= |changed|
      invariant |lines| == j
      invariant forall a :: 0 <= a < j ==> lines[a] == Line(changed[a].quote, latestExisting, show)
    {
      var rate := changed[j].quote;
      var line: string;
      if rate.Key() in latestExisting {
        var oldRate := latestExisting[rate.Key()];
        line := "- " + rate.product + " " + rate.term + ": " + show(oldRate) + "% -> " + show(rate.percentage) + "%";
      } else {
        line := "- " + rate.product + " " + rate.term + ": " + show(rate.percentage) + "% (new)";
      }
      lines := lines + [line];
      j := j + 1;
    }
    assert lines == BodyLines(Quotes(changed), latestExisting, show);
    body := JoinLines(lines);
  }

  // ---------------------------------------------------------------------
  // What the message says

  /** The old value shown is the rate of the last existing entry with the
      same key; a key without existing entry is marked "(new)". */
  lemma LineShowsLastExistingRate(q: Quote, existing: seq<Quote>, show: real -> string)
    ensures forall i :: IsLastOfKey(existing, i) && existing[i].Key() == q.Key() ==>
              Line(q, LastWins(existing), show)
              == "- " + q.product + " " + q.term + ": " + show(existing[i].percentage) + "% -> " + show(q.percentage) + "%"
    ensures !HasKey(existing, q.Key()) ==>
              Line(q, LastWins(existing), show) == "- " + q.product + " " + q.term + ": " + show(q.percentage) + "% (new)"
  {
    LastWinsDomain(existing, q.Key());
    forall i | IsLastOfKey(existing, i) && existing[i].Key() == q.Key() {
      LastWinsValue(existing, i);
    }
  }

  /** The body holds exactly one line per changed rate, in order, when no
      product name, term or rendered rate contains a newline; with no
      changed rate it is empty. */
  lemma BodyHasOneLinePerRate(changed: seq<Quote>, previous: map<Key, real>, show: real -> string)
    requires forall j :: 0 <= j < |changed| ==> NoNewline(changed[j].product) && NoNewline(changed[j].term)
    requires forall r :: NoNewline(show(r))
    ensures changed == [] ==> JoinLines(BodyLines(changed, previous, show)) == ""
    ensures changed != [] ==> SplitLines(JoinLines(BodyLines(changed, previous, show))) == BodyLines(changed, previous, show)
  {
    var ls := BodyLines(changed, previous, show);
    forall k | 0 <= k < |ls| ensures NoNewline(ls[k]) {
      var q := changed[k];
      var head := "- " + q.product + " " + q.term + ": ";
      assert NoNewline(head);
      assert NoNewline(show(q.percentage));
      if q.Key() in previous {
        var before := previous[q.Key()];
        assert NoNewline(show(before));
        assert ls[k] == head + show(before) + "% -> " + show(q.percentage) + "%";
      } else {
        assert ls[k] == head + show(q.percentage) + "% (new)";
      }
    }
    if changed != [] {
      SplitJoinRoundTrip(ls);
    }
  }

  /** The title says "rate" for exactly one change and "rates" otherwise,
      zero included. */
  lemma TitleWording(bankName: string, count: nat)
    ensures count == 1 ==> Title(bankName, count) == bankName + ": 1 rate changed"
    ensures count != 1 ==> Title(bankName, count) == bankName + ": " + NatToString(count) + " rates changed"
  {
    if count == 1 {
      assert NatToString(1) == [Digit(1)] == "1";
    }
  }
}
