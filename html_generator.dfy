/** The page builder of `src/html_generator.py`: the latest entry per
    (product, term) of a bank's history, the bank name taken from the file
    name, the table of banks with their rows sorted, and the sequence of
    blocks the page is made of. Reading the files, the template text, the
    clock, the `.2f` rendering and writing the page are left out; the
    date reformatting is the parameter `formatDate` (`None` where
    `fromisoformat` raises). */
module HtmlGenerator {
  import opened Common
  import opened Order
  import opened Rates

  // ---------------------------------------------------------------------
  // extract_latest_rates

  /** `data.get("rates", [])`: the history, or the empty list when the file
      has no `rates` field. */
  function RatesField(rates: Option<seq<Observation>>): seq<Observation> {
    if rates.Some? then rates.value else []
  }

  /** The keys of a list of entries, position by position. */
  function KeysOf(xs: seq<Observation>): (ks: seq<Key>)
    ensures |ks| == |xs|
    ensures forall i :: 0 <= i < |xs| ==> ks[i] == xs[i].Key()
  {
    seq(|xs|, i requires 0 <= i < |xs| => xs[i].Key())
  }

  /** The first position at or after `from` holding key `k`. */
  function KeyIndex(xs: seq<Observation>, k: Key, from: nat): (r: Option<nat>)
    requires from <= |xs|
    ensures r.Some? ==> from <= r.value < |xs| && xs[r.value].Key() == k
    ensures r.None? ==> forall i :: from <= i < |xs| ==> xs[i].Key() != k
    decreases |xs| - from
  {
    if from == |xs| then None
    else if xs[from].Key() == k then Some(from)
    else KeyIndex(xs, k, from + 1)
  }

  /** One pass of the loop at lines 27-35 on `latest_map.values()` in
      insertion order: a new key is appended; a known key is replaced in
      place only by an entry whose `scraped_at` is greater as a string. */
  function Step(acc: seq<Observation>, r: Observation): seq<Observation> {
    match KeyIndex(acc, r.Key(), 0)
    case None => acc + [r]
    case Some(j) => if StrLess(acc[j].scrapedAt, r.scrapedAt) then acc[j := r] else acc
  }

  /** `list(latest_map.values())` after the whole loop. */
  function LatestOf(rates: seq<Observation>): seq<Observation> {
    if rates == [] then [] else Step(LatestOf(rates[..|rates| - 1]), rates[|rates| - 1])
  }

  /** A key not yet seen is appended. */
  lemma StepAppends(acc: seq<Observation>, r: Observation)
    requires r.Key() !in KeysOf(acc)
    ensures Step(acc, r) == acc + [r]
  {
  }

  /** A key already seen, at position `j`, is replaced there or kept. */
  lemma StepReplaces(acc: seq<Observation>, r: Observation, j: int)
    requires forall a, b :: 0 <= a < b < |acc| ==> acc[a].Key() != acc[b].Key()
    requires 0 <= j < |acc| && acc[j].Key() == r.Key()
    ensures Step(acc, r) == if StrLess(acc[j].scrapedAt, r.scrapedAt) then acc[j := r] else acc
  {
    assert KeyIndex(acc, r.Key(), 0) == Some(j);
  }

  /** The dictionary `latest_map` with its insertion order `order` holds
      the list `acc`, position by position. */
  ghost predicate Table(order: seq<Key>, m: map<Key, Observation>, acc: seq<Observation>) {
    && order == KeysOf(acc)
    && (forall k :: k in m <==> k in order)
    && (forall j :: 0 <= j < |order| ==> m[order[j]] == acc[j])
  }

  lemma TableAppend(order: seq<Key>, m: map<Key, Observation>, acc: seq<Observation>, r: Observation)
    requires Table(order, m, acc) && r.Key() !in m
    ensures Table(order + [r.Key()], m[r.Key() := r], Step(acc, r))
  {
    StepAppends(acc, r);
    assert order + [r.Key()] == KeysOf(acc + [r]);
  }

  lemma TableReplace(order: seq<Key>, m: map<Key, Observation>, acc: seq<Observation>, r: Observation)
    requires Table(order, m, acc) && r.Key() in m
    requires forall a, b :: 0 <= a < b < |acc| ==> acc[a].Key() != acc[b].Key()
    ensures StrLess(m[r.Key()].scrapedAt, r.scrapedAt) ==> Table(order, m[r.Key() := r], Step(acc, r))
    ensures !StrLess(m[r.Key()].scrapedAt, r.scrapedAt) ==> Table(order, m, Step(acc, r))
  {
    var j :| 0 <= j < |order| && order[j] == r.Key();
    StepReplaces(acc, r, j);
    assert order == KeysOf(acc[j := r]);
  }

  /** `extract_latest_rates` on the contents of a data file. */
  method ExtractLatestRates(rates: Option<seq<Observation>>) returns (latest: seq<Observation>)
    ensures latest == LatestOf(RatesField(rates))
  {
    var rs := if rates.Some? then rates.value else [];
    if |rs| == 0 {
      return [];
    }
    var latestMap: map<Key, Observation> := map[];
    var order: seq<Key> := [];
    var i := 0;
    while i < |rs|
      invariant 0 <= i <= |rs|
      invariant Table(order, latestMap, LatestOf(rs[..i]))
    {
      assert rs[..i + 1][..i] == rs[..i];
      var rate := rs[i];
      var key := rate.Key();
      if key !in latestMap {
        TableAppend(order, latestMap, LatestOf(rs[..i]), rate);
        latestMap := latestMap[key := rate];
        order := order + [key];
      } else {
        LatestOfKeys(rs[..i]);
        TableReplace(order, latestMap, LatestOf(rs[..i]), rate);
        if StrLess(latestMap[key].scrapedAt, rate.scrapedAt) {
          latestMap := latestMap[key := rate];
        }
      }
      i := i + 1;
    }
    assert rs[..i] == rs;
    latest := seq(|order|, j requires 0 <= j < |order| => latestMap[order[j]]);
  }

  /** The output has one entry per key of the input: no key twice, and
      every key of the input present. */
  lemma {:induction false} LatestOfKeys(rates: seq<Observation>)
    ensures forall a, b :: 0 <= a < b < |LatestOf(rates)| ==> LatestOf(rates)[a].Key() != LatestOf(rates)[b].Key()
    ensures forall k :: k in KeysOf(LatestOf(rates)) <==> k in KeysOf(rates)
    decreases |rates|
  {
    if rates != [] {
      var init := rates[..|rates| - 1];
      var r := rates[|rates| - 1];
      LatestOfKeys(init);
      var acc := LatestOf(init);
      assert KeysOf(rates) == KeysOf(init) + [r.Key()];
      match KeyIndex(acc, r.Key(), 0)
      case None =>
        assert KeysOf(acc + [r]) == KeysOf(acc) + [r.Key()];
      case Some(j) =>
        assert KeysOf(acc[j := r]) == KeysOf(acc);
    }
  }

  /** An empty history gives an empty list, and only an empty one does. */
  lemma LatestOfEmpty(rates: seq<Observation>)
    ensures LatestOf(rates) == [] <==> rates == []
  {
    LatestOfKeys(rates);
    if rates != [] {
      assert rates[0].Key() in KeysOf(rates);
    }
  }

  /** Entry `s` is the one the loop keeps for its key: every earlier entry
      with the key has a smaller `scraped_at`, and no later one a greater
      one. So it has a greatest timestamp, and is the first with it. */
  ghost predicate ChosenAt(rates: seq<Observation>, s: int) {
    && 0 <= s < |rates|
    && (forall t :: 0 <= t < s && rates[t].Key() == rates[s].Key() ==>
          StrLess(rates[t].scrapedAt, rates[s].scrapedAt))
    && (forall t :: s < t < |rates| && rates[t].Key() == rates[s].Key() ==>
          !StrLess(rates[s].scrapedAt, rates[t].scrapedAt))
  }

  /** At most one entry per key satisfies `ChosenAt`. */
  lemma ChosenUnique(rates: seq<Observation>, s1: int, s2: int)
    requires ChosenAt(rates, s1) && ChosenAt(rates, s2)
    requires rates[s1].Key() == rates[s2].Key()
    ensures s1 == s2
  {
  }

  /** When the timestamps of each key increase along the history (each run
      stamps its entries with a later time), the chosen entry is the last
      one with its key. */
  lemma ChosenIsLastWhenStampsIncrease(rates: seq<Observation>, s: int)
    requires forall t, u :: 0 <= t < u < |rates| && rates[t].Key() == rates[u].Key() ==>
               StrLess(rates[t].scrapedAt, rates[u].scrapedAt)
    requires 0 <= s < |rates|
    ensures ChosenAt(rates, s) <==> forall u :: s < u < |rates| ==> rates[u].Key() != rates[s].Key()
  {
  }

  /** Of two entries with one key and equal timestamps the first is kept,
      not the later one by position. */
  lemma EqualStampsKeepFirst(a: Observation, b: Observation)
    requires a.Key() == b.Key() && a.scrapedAt == b.scrapedAt
    ensures LatestOf([a, b]) == [a]
  {
    assert [a, b][..1] == [a];
    assert [a][..0] == [];
    assert LatestOf([a]) == [a];
    StrLessIrreflexive(a.scrapedAt);
    StepReplaces([a], b, 0);
  }

  /** An entry chosen before `r` arrives stays chosen when `r` has another
      key or is not newer. */
  lemma ChosenExtend(init: seq<Observation>, r: Observation, s: int)
    requires ChosenAt(init, s)
    requires init[s].Key() == r.Key() ==> !StrLess(init[s].scrapedAt, r.scrapedAt)
    ensures ChosenAt(init + [r], s)
  {
    var rates := init + [r];
    assert forall t :: 0 <= t < |init| ==> rates[t] == init[t];
  }

  /** The first entry of a key is chosen while it is the only one. */
  lemma ChosenFirst(init: seq<Observation>, r: Observation)
    requires r.Key() !in KeysOf(init)
    ensures ChosenAt(init + [r], |init|)
  {
    var rates := init + [r];
    forall t | 0 <= t < |init| ensures rates[t].Key() != r.Key() {
      assert rates[t] == init[t] && init[t].Key() == KeysOf(init)[t];
    }
  }

  /** An entry newer than the chosen one for its key becomes the chosen
      one. */
  lemma ChosenNewest(init: seq<Observation>, r: Observation, s: int)
    requires ChosenAt(init, s) && init[s].Key() == r.Key() && StrLess(init[s].scrapedAt, r.scrapedAt)
    ensures ChosenAt(init + [r], |init|)
  {
    var rates := init + [r];
    forall t | 0 <= t < |init| && rates[t].Key() == r.Key()
      ensures StrLess(rates[t].scrapedAt, r.scrapedAt)
    {
      assert rates[t] == init[t];
      if t != s {
        StrLessTotal(init[t].scrapedAt, init[s].scrapedAt);
        if StrLess(init[t].scrapedAt, init[s].scrapedAt) {
          StrLessTransitive(init[t].scrapedAt, init[s].scrapedAt, r.scrapedAt);
        }
      }
    }
  }

  /** `src` gives, for each entry of `acc`, the input position it is a copy
      of, and that position is the chosen one for its key. */
  ghost predicate Sources(rates: seq<Observation>, acc: seq<Observation>, src: seq<nat>) {
    && |src| == |acc|
    && forall a :: 0 <= a < |src| ==> src[a] < |rates| && acc[a] == rates[src[a]] && ChosenAt(rates, src[a])
  }

  /** The step for a key not seen before appends `r`, chosen as the only
      entry of its key. */
  lemma SourcesAppend(init: seq<Observation>, r: Observation, acc: seq<Observation>, prev: seq<nat>)
    requires Sources(init, acc, prev)
    requires forall t :: 0 <= t < |init| ==> init[t].Key() != r.Key()
    requires forall a :: 0 <= a < |acc| ==> acc[a].Key() != r.Key()
    ensures Sources(init + [r], acc + [r], prev + [|init|])
  {
    forall a | 0 <= a < |prev| ensures ChosenAt(init + [r], prev[a]) {
      ChosenExtend(init, r, prev[a]);
    }
    ChosenFirst(init, r);
  }

  /** The step for a newer entry of the key at `j` puts `r` in its place. */
  lemma SourcesNewer(init: seq<Observation>, r: Observation, acc: seq<Observation>, prev: seq<nat>, j: int)
    requires Sources(init, acc, prev)
    requires 0 <= j < |acc| && acc[j].Key() == r.Key() && StrLess(acc[j].scrapedAt, r.scrapedAt)
    requires forall a :: 0 <= a < |acc| && a != j ==> acc[a].Key() != r.Key()
    ensures Sources(init + [r], acc[j := r], prev[j := |init|])
  {
    forall a | 0 <= a < |prev| && a != j ensures ChosenAt(init + [r], prev[a]) {
      ChosenExtend(init, r, prev[a]);
    }
    ChosenNewest(init, r, prev[j]);
  }

  /** The step for an entry that is not newer keeps the table. */
  lemma SourcesNotNewer(init: seq<Observation>, r: Observation, acc: seq<Observation>, prev: seq<nat>, j: int)
    requires Sources(init, acc, prev)
    requires 0 <= j < |acc| && acc[j].Key() == r.Key() && !StrLess(acc[j].scrapedAt, r.scrapedAt)
    requires forall a :: 0 <= a < |acc| && a != j ==> acc[a].Key() != r.Key()
    ensures Sources(init + [r], acc, prev)
  {
    forall a | 0 <= a < |prev| ensures ChosenAt(init + [r], prev[a]) {
      ChosenExtend(init, r, prev[a]);
    }
  }

  /** Every output entry is an input entry, unmodified, the one `ChosenAt`
      names for its key; `src` gives the positions. */
  lemma {:induction false} LatestOfChosen(rates: seq<Observation>) returns (src: seq<nat>)
    ensures Sources(rates, LatestOf(rates), src)
    decreases |rates|
  {
    if rates == [] {
      return [];
    }
    var n := |rates| - 1;
    var init := rates[..n];
    var r := rates[n];
    assert rates == init + [r];
    var prev := LatestOfChosen(init);
    LatestOfKeys(init);
    var acc := LatestOf(init);
    assert forall a :: 0 <= a < |acc| ==> acc[a].Key() == KeysOf(acc)[a];
    if r.Key() !in KeysOf(acc) {
      StepAppends(acc, r);
      assert forall t :: 0 <= t < |init| ==> init[t].Key() == KeysOf(init)[t];
      SourcesAppend(init, r, acc, prev);
      src := prev + [n];
    } else {
      var j :| 0 <= j < |acc| && KeysOf(acc)[j] == r.Key();
      StepReplaces(acc, r, j);
      if StrLess(acc[j].scrapedAt, r.scrapedAt) {
        SourcesNewer(init, r, acc, prev, j);
        src := prev[j := n];
      } else {
        SourcesNotNewer(init, r, acc, prev, j);
        src := prev;
      }
    }
  }

  /** Position `t` holds the first entry with its key. */
  predicate FirstOfKey(rates: seq<Observation>, t: int) {
    0 <= t < |rates| && forall u :: 0 <= u < t ==> rates[u].Key() != rates[t].Key()
  }

  /** `first` gives, for each entry of `acc`, the first input position with
      its key, and these positions increase. */
  ghost predicate FirstPositions(rates: seq<Observation>, acc: seq<Observation>, first: seq<nat>) {
    && |first| == |acc|
    && (forall a :: 0 <= a < |first| ==> FirstOfKey(rates, first[a]) && rates[first[a]].Key() == acc[a].Key())
    && (forall a, b :: 0 <= a < b < |first| ==> first[a] < first[b])
  }

  /** A key not seen before is first seen at the new position, after all
      the others. */
  lemma FirstPositionsAppend(init: seq<Observation>, r: Observation, acc: seq<Observation>, prev: seq<nat>)
    requires FirstPositions(init, acc, prev)
    requires forall t :: 0 <= t < |init| ==> init[t].Key() != r.Key()
    ensures FirstPositions(init + [r], acc + [r], prev + [|init|])
  {
    var rates := init + [r];
    assert forall t :: 0 <= t < |init| ==> rates[t] == init[t];
  }

  /** A key already seen keeps its first position, whatever its entry. */
  lemma FirstPositionsUpdate(init: seq<Observation>, r: Observation, acc: seq<Observation>, prev: seq<nat>, acc': seq<Observation>)
    requires FirstPositions(init, acc, prev)
    requires |acc'| == |acc| && forall a :: 0 <= a < |acc| ==> acc'[a].Key() == acc[a].Key()
    ensures FirstPositions(init + [r], acc', prev)
  {
    var rates := init + [r];
    assert forall t :: 0 <= t < |init| ==> rates[t] == init[t];
  }

  /** The output lists the keys in the order of their first appearance. */
  lemma {:induction false} LatestOfFirstAppearance(rates: seq<Observation>) returns (first: seq<nat>)
    ensures FirstPositions(rates, LatestOf(rates), first)
    decreases |rates|
  {
    if rates == [] {
      return [];
    }
    var n := |rates| - 1;
    var init := rates[..n];
    var r := rates[n];
    assert rates == init + [r];
    var prev := LatestOfFirstAppearance(init);
    LatestOfKeys(init);
    var acc := LatestOf(init);
    if r.Key() !in KeysOf(acc) {
      StepAppends(acc, r);
      assert forall t :: 0 <= t < |init| ==> init[t].Key() == KeysOf(init)[t];
      FirstPositionsAppend(init, r, acc, prev);
      first := prev + [n];
    } else {
      var j :| 0 <= j < |acc| && KeysOf(acc)[j] == r.Key();
      StepReplaces(acc, r, j);
      FirstPositionsUpdate(init, r, acc, prev, Step(acc, r));
      first := prev;
    }
  }

  // ---------------------------------------------------------------------
  // generate_html

  /** Python's `s.replace(pat, repl)` for a non-empty `pat`: every
      occurrence, left to right, without overlaps. */
  function ReplaceAll(s: string, pat: string, repl: string): string
    requires pat != []
    decreases |s|
  {
    if s == [] then []
    else if OccursAt(s, pat, 0) then repl + ReplaceAll(s[|pat|..], pat, repl)
    else [s[0]] + ReplaceAll(s[1..], pat, repl)
  }

  /** `str.upper` on ASCII letters; other characters are kept. */
  function UpperAscii(s: string): (u: string)
    ensures |u| == |s|
    ensures forall i :: 0 <= i < |s| ==> !('a' <= u[i] <= 'z')
    ensures forall i :: 0 <= i < |s| && !('a' <= s[i] <= 'z') ==> u[i] == s[i]
    ensures forall i :: 0 <= i < |s| && 'a' <= s[i] <= 'z' ==>
              u[i] == "ABCDEFGHIJKLMNOPQRSTUVWXYZ"[s[i] as int - 'a' as int]
  {
    seq(|s|, i requires 0 <= i < |s| =>
      if 'a' <= s[i] <= 'z' then (s[i] as int - 'a' as int + 'A' as int) as char else s[i])
  }

  /** Line 56: the file stem without `_rates`, upper-cased. */
  function BankName(stem: string): string {
    UpperAscii(ReplaceAll(stem, "_rates", ""))
  }

  /** A stem of the form `<bank>_rates`, with no `_` in `<bank>`, loses
      exactly the suffix. */
  lemma {:induction false} RemoveRatesSuffix(b: string)
    requires '_' !in b
    ensures ReplaceAll(b + "_rates", "_rates", "") == b
    decreases |b|
  {
    var s := b + "_rates";
    if b == [] {
      assert OccursAt(s, "_rates", 0);
      assert s[6..] == [];
    } else {
      assert s[0] == b[0] && b[0] in b;
      assert s[1..] == b[1..] + "_rates";
      assert '_' !in b[1..] by {
        forall i | 0 <= i < |b[1..]| ensures b[1..][i] != '_' {
          assert b[1..][i] == b[i + 1];
        }
      }
      RemoveRatesSuffix(b[1..]);
      assert b == [b[0]] + b[1..];
    }
  }

  lemma BankNameOfPlainStem(b: string)
    requires '_' !in b
    ensures BankName(b + "_rates") == UpperAscii(b)
  {
    RemoveRatesSuffix(b);
  }

  lemma BnzBankName()
    ensures BankName("bnz_rates") == "BNZ"
  {
    BankNameOfPlainStem("bnz");
    assert "bnz" + "_rates" == "bnz_rates";
  }

  /** One data file found by the glob: its stem and the `rates` field of
      its contents (`None` when absent). */
  datatype RateFile = RateFile(stem: string, rates: Option<seq<Observation>>)

  /** A bank's rows and their order, `key=lambda r: (r["product_name"], r["term"])`. */
  predicate RowLess(a: Observation, b: Observation) {
    PairLess(a.Key(), b.Key())
  }

  lemma RowLessIsStrictOrder()
    ensures StrictOrder(RowLess)
  {
    forall a: Observation ensures !RowLess(a, a) {
      StrLessIrreflexive(a.Key().0);
      StrLessIrreflexive(a.Key().1);
    }
    forall a: Observation, b: Observation, c: Observation | RowLess(a, b) && RowLess(b, c)
      ensures RowLess(a, c)
    {
      PairLessTransitive(a.Key(), b.Key(), c.Key());
    }
  }

  /** `sorted(latest_rates, key=...)`. */
  function SortRows(rows: seq<Observation>): (r: seq<Observation>)
    ensures Sorted(r, RowLess) && multiset(r) == multiset(rows)
  {
    RowLessIsStrictOrder();
    Sort(rows, RowLess)
  }

  /** Rows with distinct keys have one ascending arrangement, so the rows
      `sorted` produces do not depend on how it breaks ties. */
  lemma SortRowsDetermined(rows: seq<Observation>, other: seq<Observation>)
    requires forall i, j :: 0 <= i < j < |rows| ==> rows[i].Key() != rows[j].Key()
    requires Sorted(other, RowLess) && multiset(other) == multiset(rows)
    ensures other == SortRows(rows)
  {
    RowLessIsStrictOrder();
    var r := SortRows(rows);
    forall i, j | 0 <= i < |r| && 0 <= j < |r| && r[i] != r[j]
      ensures RowLess(r[i], r[j]) || RowLess(r[j], r[i])
    {
      assert r[i] in multiset(rows) && r[j] in multiset(rows);
      var a :| 0 <= a < |rows| && rows[a] == r[i];
      var b :| 0 <= b < |rows| && rows[b] == r[j];
      assert r[i].Key() != r[j].Key();
      PairLessTotal(r[i].Key(), r[j].Key());
    }
    SortedUnique(r, other, RowLess);
  }

  /** A bank and its rows, one item of the dictionary `bank_rates`. */
  type Bank = (string, seq<Observation>)

  function NamesOf(banks: seq<Bank>): (ns: seq<string>)
    ensures |ns| == |banks|
    ensures forall i :: 0 <= i < |banks| ==> ns[i] == banks[i].0
  {
    seq(|banks|, i requires 0 <= i < |banks| => banks[i].0)
  }

  /** `bank_rates[name] = rows` on the dictionary as its items in insertion
      order: an existing name keeps its place and takes the new rows. */
  function Assign(banks: seq<Bank>, name: string, rows: seq<Observation>): seq<Bank> {
    if name in NamesOf(banks) then
      var j := NameIndex(banks, name, 0);
      banks[j := (name, rows)]
    else
      banks + [(name, rows)]
  }

  function NameIndex(banks: seq<Bank>, name: string, from: nat): (j: nat)
    requires from <= |banks| && name in NamesOf(banks)[from..]
    ensures from <= j < |banks| && banks[j].0 == name
    decreases |banks| - from
  {
    if banks[from].0 == name then from
    else
      assert NamesOf(banks)[from..] == [banks[from].0] + NamesOf(banks)[from + 1..];
      NameIndex(banks, name, from + 1)
  }

  /** `bank_rates` after the loop at lines 54-64 over `files`. */
  function BankRates(files: seq<RateFile>): seq<Bank> {
    if files == [] then []
    else
      var f := files[|files| - 1];
      var acc := BankRates(files[..|files| - 1]);
      var latest := LatestOf(RatesField(f.rates));
      if latest == [] then acc else Assign(acc, BankName(f.stem), SortRows(latest))
  }

  /** The pieces of the page, in order; the template text they stand for is
      not modelled. */
  datatype Block =
    | Header(lastUpdated: string)
    | NoDataNotice
    | BankOpen(name: string)
    | RateRow(product: string, term: string, percentage: real, date: string)
    | BankClose
    | Footer

  /** Lines 173-176: the reformatted date, or `scraped_at` itself when
      `fromisoformat` rejects it. */
  function ScrapedDate(scrapedAt: string, formatDate: string -> Option<string>): string {
    match formatDate(scrapedAt)
    case Some(d) => d
    case None => scrapedAt
  }

  function RowBlocks(rows: seq<Observation>, formatDate: string -> Option<string>): (bs: seq<Block>)
    ensures |bs| == |rows|
    ensures forall i :: 0 <= i < |rows| ==>
              bs[i] == RateRow(rows[i].quote.product, rows[i].quote.term, rows[i].quote.percentage,
                               ScrapedDate(rows[i].scrapedAt, formatDate))
  {
    seq(|rows|, i requires 0 <= i < |rows| =>
      RateRow(rows[i].quote.product, rows[i].quote.term, rows[i].quote.percentage,
              ScrapedDate(rows[i].scrapedAt, formatDate)))
  }

  /** The section of each bank, one after the other. */
  function Sections(banks: seq<Bank>, formatDate: string -> Option<string>): seq<Block> {
    if banks == [] then []
    else
      var b := banks[|banks| - 1];
      Sections(banks[..|banks| - 1], formatDate) + [BankOpen(b.0)] + RowBlocks(b.1, formatDate) + [BankClose]
  }

  /** `sorted(bank_rates.items())`: by name, the names being distinct. */
  predicate BankLess(a: Bank, b: Bank) {
    StrLess(a.0, b.0)
  }

  lemma BankLessIsStrictOrder()
    ensures StrictOrder(BankLess)
  {
    forall a: Bank ensures !BankLess(a, a) {
      StrLessIrreflexive(a.0);
    }
    forall a: Bank, b: Bank, c: Bank | BankLess(a, b) && BankLess(b, c) ensures BankLess(a, c) {
      StrLessTransitive(a.0, b.0, c.0);
    }
  }

  function SortBanks(banks: seq<Bank>): (r: seq<Bank>)
    ensures Sorted(r, BankLess) && multiset(r) == multiset(banks)
  {
    BankLessIsStrictOrder();
    Sort(banks, BankLess)
  }

  /** Banks with distinct names have one ascending arrangement, so the
      section order does not depend on how `sorted` breaks ties. */
  lemma SortBanksDetermined(banks: seq<Bank>, other: seq<Bank>)
    requires forall i, j :: 0 <= i < j < |banks| ==> banks[i].0 != banks[j].0
    requires Sorted(other, BankLess) && multiset(other) == multiset(banks)
    ensures other == SortBanks(banks)
  {
    BankLessIsStrictOrder();
    var r := SortBanks(banks);
    forall i, j | 0 <= i < |r| && 0 <= j < |r| && r[i] != r[j]
      ensures BankLess(r[i], r[j]) || BankLess(r[j], r[i])
    {
      assert r[i] in multiset(banks) && r[j] in multiset(banks);
      var a :| 0 <= a < |banks| && banks[a] == r[i];
      var b :| 0 <= b < |banks| && banks[b] == r[j];
      assert r[i].0 != r[j].0;
      StrLessTotal(r[i].0, r[j].0);
    }
    SortedUnique(r, other, BankLess);
  }

  /** The whole page for `bank_rates`, generated at time `now`. */
  function Page(now: string, banks: seq<Bank>, formatDate: string -> Option<string>): seq<Block> {
    [Header(now)] + (if banks == [] then [NoDataNotice] else Sections(SortBanks(banks), formatDate)) + [Footer]
  }

  lemma SectionsSnoc(banks: seq<Bank>, i: int, formatDate: string -> Option<string>)
    requires 0 <= i < |banks|
    ensures Sections(banks[..i + 1], formatDate)
            == Sections(banks[..i], formatDate) + [BankOpen(banks[i].0)] + RowBlocks(banks[i].1, formatDate) + [BankClose]
  {
    assert banks[..i + 1][..i] == banks[..i];
  }

  lemma RowBlocksSnoc(rows: seq<Observation>, j: int, formatDate: string -> Option<string>)
    requires 0 <= j < |rows|
    ensures RowBlocks(rows[..j + 1], formatDate) == RowBlocks(rows[..j], formatDate)
              + [RateRow(rows[j].quote.product, rows[j].quote.term, rows[j].quote.percentage,
                         ScrapedDate(rows[j].scrapedAt, formatDate))]
  {
  }

  /** Lines 171-184: one table row per rate, appended to the page. */
  method AppendRows(page: seq<Block>, rates: seq<Observation>, formatDate: string -> Option<string>)
      returns (page': seq<Block>)
    ensures page' == page + RowBlocks(rates, formatDate)
  {
    page' := page;
    var j := 0;
    while j < |rates|
      invariant 0 <= j <= |rates|
      invariant page' == page + RowBlocks(rates[..j], formatDate)
    {
      var rate := rates[j];
      var scrapedDate := match formatDate(rate.scrapedAt) case Some(d) => d case None => rate.scrapedAt;
      RowBlocksSnoc(rates, j, formatDate);
      page' := page' + [RateRow(rate.quote.product, rate.quote.term, rate.quote.percentage, scrapedDate)];
      j := j + 1;
    }
    assert rates[..j] == rates;
  }

  /** One section per bank, in the given order, appended to the page. */
  method AppendSections(page: seq<Block>, sorted: seq<Bank>, formatDate: string -> Option<string>)
      returns (page': seq<Block>)
    ensures page' == page + Sections(sorted, formatDate)
  {
    page' := page;
    var i := 0;
    while i < |sorted|
      invariant 0 <= i <= |sorted|
      invariant page' == page + Sections(sorted[..i], formatDate)
    {
      var done := Sections(sorted[..i], formatDate);
      var rows := AppendRows(page' + [BankOpen(sorted[i].0)], sorted[i].1, formatDate);
      SectionsSnoc(sorted, i, formatDate);
      assert rows + [BankClose] == page + (done + [BankOpen(sorted[i].0)] + RowBlocks(sorted[i].1, formatDate) + [BankClose]);
      page' := rows + [BankClose];
      i := i + 1;
    }
    assert sorted[..i] == sorted;
  }

  /** `generate_html_content`: the page grows block by block, the banks in
      name order. */
  method GenerateHtmlContent(banks: seq<Bank>, now: string, formatDate: string -> Option<string>)
      returns (page: seq<Block>)
    ensures page == Page(now, banks, formatDate)
  {
    page := [Header(now)];
    if |banks| == 0 {
      page := page + [NoDataNotice];
    } else {
      page := AppendSections(page, SortBanks(banks), formatDate);
    }
    page := page + [Footer];
  }

  /** `generate_html`: the banks of the data files, then the page. The
      files are the glob's matches in sorted order. */
  method GenerateHtml(files: seq<RateFile>, now: string, formatDate: string -> Option<string>)
      returns (page: seq<Block>)
    ensures page == Page(now, BankRates(files), formatDate)
  {
    var bankRates: seq<Bank> := [];
    var i := 0;
    while i < |files|
      invariant 0 <= i <= |files|
      invariant bankRates == BankRates(files[..i])
    {
      assert files[..i + 1][..i] == files[..i];
      var bankName := BankName(files[i].stem);
      var latestRates := ExtractLatestRates(files[i].rates);
      if latestRates != [] {
        bankRates := Assign(bankRates, bankName, SortRows(latestRates));
      }
      i := i + 1;
    }
    assert files[..i] == files;
    page := GenerateHtmlContent(bankRates, now, formatDate);
  }

  // ---------------------------------------------------------------------
  // What the page holds

  /** The rows of the files' latest rates. */
  function LatestOfFile(f: RateFile): seq<Observation> {
    LatestOf(RatesField(f.rates))
  }

  /** Bank `a` of `banks` comes from file `f`: the name is the file's, its
      rows are the file's latest rates sorted, and every later file with the
      same bank name has no rates. */
  ghost predicate BankFrom(files: seq<RateFile>, banks: seq<Bank>, a: int, f: int)
    requires 0 <= a < |banks|
  {
    && 0 <= f < |files|
    && BankName(files[f].stem) == banks[a].0
    && LatestOfFile(files[f]) != []
    && banks[a].1 == SortRows(LatestOfFile(files[f]))
    && forall g :: f < g < |files| && BankName(files[g].stem) == banks[a].0 ==> LatestOfFile(files[g]) == []
  }

  /** Each bank has a source file, the names are distinct, and every file
      with rates has its bank listed. */
  ghost predicate BankSources(files: seq<RateFile>, banks: seq<Bank>, src: seq<nat>) {
    && |src| == |banks|
    && (forall a :: 0 <= a < |src| ==> BankFrom(files, banks, a, src[a]))
    && (forall a, b :: 0 <= a < b < |banks| ==> banks[a].0 != banks[b].0)
    && (forall f :: 0 <= f < |files| && LatestOfFile(files[f]) != [] ==> BankName(files[f].stem) in NamesOf(banks))
  }

  /** A bank keeps its source file when the next file is for another name
      or has no rates. */
  lemma BankFromExtend(init: seq<RateFile>, fl: RateFile, acc: seq<Bank>, banks: seq<Bank>, a: int, f: int)
    requires 0 <= a < |acc| && a < |banks| && banks[a] == acc[a]
    requires BankFrom(init, acc, a, f)
    requires BankName(fl.stem) == acc[a].0 ==> LatestOfFile(fl) == []
    ensures BankFrom(init + [fl], banks, a, f)
  {
    var files := init + [fl];
    assert forall t :: 0 <= t < |init| ==> files[t] == init[t];
  }

  /** The bank written by the newest file has that file as its source. */
  lemma BankFromLast(init: seq<RateFile>, fl: RateFile, banks: seq<Bank>, a: int)
    requires 0 <= a < |banks| && banks[a] == (BankName(fl.stem), SortRows(LatestOfFile(fl)))
    requires LatestOfFile(fl) != []
    ensures BankFrom(init + [fl], banks, a, |init|)
  {
  }

  /** Every file with rates stays listed when no name is dropped and the
      newest file, if it has rates, is listed. */
  lemma ListedExtend(init: seq<RateFile>, fl: RateFile, acc: seq<Bank>, banks: seq<Bank>)
    requires forall f :: 0 <= f < |init| && LatestOfFile(init[f]) != [] ==> BankName(init[f].stem) in NamesOf(acc)
    requires forall n :: n in NamesOf(acc) ==> n in NamesOf(banks)
    requires LatestOfFile(fl) != [] ==> BankName(fl.stem) in NamesOf(banks)
    ensures forall f :: 0 <= f < |init| + 1 && LatestOfFile((init + [fl])[f]) != [] ==>
              BankName((init + [fl])[f].stem) in NamesOf(banks)
  {
    var files := init + [fl];
    forall f | 0 <= f < |files| && LatestOfFile(files[f]) != []
      ensures BankName(files[f].stem) in NamesOf(banks)
    {
      if f < |init| {
        assert files[f] == init[f];
      }
    }
  }

  /** A file without rates leaves `bank_rates` as it is. */
  lemma SourcesKeep(init: seq<RateFile>, fl: RateFile, acc: seq<Bank>, prev: seq<nat>)
    requires BankSources(init, acc, prev) && LatestOfFile(fl) == []
    ensures BankSources(init + [fl], acc, prev)
  {
    forall a | 0 <= a < |prev| ensures BankFrom(init + [fl], acc, a, prev[a]) {
      BankFromExtend(init, fl, acc, acc, a, prev[a]);
    }
    ListedExtend(init, fl, acc, acc);
  }

  /** A file with rates for a bank already listed replaces its rows. */
  lemma SourcesReplace(init: seq<RateFile>, fl: RateFile, acc: seq<Bank>, prev: seq<nat>, j: int)
    requires BankSources(init, acc, prev) && LatestOfFile(fl) != []
    requires 0 <= j < |acc| && acc[j].0 == BankName(fl.stem)
    ensures BankSources(init + [fl], acc[j := (BankName(fl.stem), SortRows(LatestOfFile(fl)))], prev[j := |init|])
  {
    var banks := acc[j := (BankName(fl.stem), SortRows(LatestOfFile(fl)))];
    assert NamesOf(banks) == NamesOf(acc);
    forall a | 0 <= a < |prev| && a != j ensures BankFrom(init + [fl], banks, a, prev[a]) {
      BankFromExtend(init, fl, acc, banks, a, prev[a]);
    }
    BankFromLast(init, fl, banks, j);
    assert BankName(fl.stem) in NamesOf(banks) by {
      assert NamesOf(banks)[j] == BankName(fl.stem);
    }
    ListedExtend(init, fl, acc, banks);
  }

  /** A file with rates for a new bank name adds it at the end. */
  lemma SourcesAdd(init: seq<RateFile>, fl: RateFile, acc: seq<Bank>, prev: seq<nat>)
    requires BankSources(init, acc, prev) && LatestOfFile(fl) != []
    requires BankName(fl.stem) !in NamesOf(acc)
    ensures BankSources(init + [fl], acc + [(BankName(fl.stem), SortRows(LatestOfFile(fl)))], prev + [|init|])
  {
    var name := BankName(fl.stem);
    var banks := acc + [(name, SortRows(LatestOfFile(fl)))];
    assert NamesOf(banks) == NamesOf(acc) + [name];
    forall a | 0 <= a < |acc| ensures acc[a].0 != name {
      assert acc[a].0 == NamesOf(acc)[a];
    }
    forall a | 0 <= a < |acc| ensures BankFrom(init + [fl], banks, a, prev[a]) {
      BankFromExtend(init, fl, acc, banks, a, prev[a]);
    }
    BankFromLast(init, fl, banks, |acc|);
    ListedExtend(init, fl, acc, banks);
  }

  /** `bank_rates` holds one item per bank name that has rates in some
      file: the rows of the last such file, sorted by (product, term);
      banks without rates are left out. */
  lemma {:induction false} BankRatesSources(files: seq<RateFile>) returns (src: seq<nat>)
    ensures BankSources(files, BankRates(files), src)
    decreases |files|
  {
    if files == [] {
      return [];
    }
    var n := |files| - 1;
    var init := files[..n];
    var fl := files[n];
    assert files == init + [fl];
    var prev := BankRatesSources(init);
    var acc := BankRates(init);
    var name := BankName(fl.stem);
    if LatestOfFile(fl) == [] {
      SourcesKeep(init, fl, acc, prev);
      src := prev;
    } else if name in NamesOf(acc) {
      var j := NameIndex(acc, name, 0);
      SourcesReplace(init, fl, acc, prev, j);
      src := prev[j := n];
    } else {
      SourcesAdd(init, fl, acc, prev);
      src := prev + [n];
    }
  }

  /** The names of the bank sections, in page order. */
  function OpenedNames(blocks: seq<Block>): seq<string> {
    if blocks == [] then []
    else
      var b := blocks[|blocks| - 1];
      OpenedNames(blocks[..|blocks| - 1]) + (if b.BankOpen? then [b.name] else [])
  }

  lemma {:induction false} OpenedNamesAppend(xs: seq<Block>, ys: seq<Block>)
    ensures OpenedNames(xs + ys) == OpenedNames(xs) + OpenedNames(ys)
    decreases |ys|
  {
    if ys != [] {
      var m := |ys| - 1;
      assert (xs + ys)[..|xs + ys| - 1] == xs + ys[..m];
      OpenedNamesAppend(xs, ys[..m]);
    } else {
      assert xs + ys == xs;
    }
  }

  lemma {:induction false} NoBankInRows(rows: seq<Observation>, formatDate: string -> Option<string>)
    ensures OpenedNames(RowBlocks(rows, formatDate)) == []
    ensures NoDataNotice !in RowBlocks(rows, formatDate)
    decreases |rows|
  {
    if rows != [] {
      var m := |rows| - 1;
      assert RowBlocks(rows, formatDate)[..m] == RowBlocks(rows[..m], formatDate);
      NoBankInRows(rows[..m], formatDate);
    }
  }

  /** The sections open the banks in the order given, and none is the
      "No rate data available" notice. */
  lemma {:induction false} SectionsNames(banks: seq<Bank>, formatDate: string -> Option<string>)
    ensures OpenedNames(Sections(banks, formatDate)) == NamesOf(banks)
    ensures NoDataNotice !in Sections(banks, formatDate)
    decreases |banks|
  {
    if banks != [] {
      var m := |banks| - 1;
      var b := banks[m];
      SectionsNames(banks[..m], formatDate);
      NoBankInRows(b.1, formatDate);
      var pre := Sections(banks[..m], formatDate);
      OpenedNamesAppend(pre, [BankOpen(b.0)]);
      OpenedNamesAppend(pre + [BankOpen(b.0)], RowBlocks(b.1, formatDate));
      OpenedNamesAppend(pre + [BankOpen(b.0)] + RowBlocks(b.1, formatDate), [BankClose]);
      assert OpenedNames([BankOpen(b.0)]) == [b.0];
      assert OpenedNames([BankClose]) == [];
      assert NamesOf(banks) == NamesOf(banks[..m]) + [b.0];
    }
  }

  /** Lines 151-153: the notice appears exactly when there are no banks. */
  lemma NoDataIffNoBanks(now: string, banks: seq<Bank>, formatDate: string -> Option<string>)
    ensures NoDataNotice in Page(now, banks, formatDate) <==> banks == []
  {
    if banks != [] {
      SectionsNames(SortBanks(banks), formatDate);
    }
  }

  /** Two lists of banks with the same elements list the same names. */
  lemma SameNames(xs: seq<Bank>, ys: seq<Bank>)
    requires multiset(xs) == multiset(ys)
    ensures |xs| == |ys|
    ensures forall n :: n in NamesOf(xs) <==> n in NamesOf(ys)
  {
    assert |multiset(xs)| == |multiset(ys)|;
    forall n ensures n in NamesOf(xs) ==> n in NamesOf(ys) {
      if n in NamesOf(xs) {
        var i :| 0 <= i < |xs| && NamesOf(xs)[i] == n;
        assert xs[i] in multiset(ys);
        var k :| 0 <= k < |ys| && ys[k] == xs[i];
        assert NamesOf(ys)[k] == n;
      }
    }
    forall n ensures n in NamesOf(ys) ==> n in NamesOf(xs) {
      if n in NamesOf(ys) {
        var k :| 0 <= k < |ys| && NamesOf(ys)[k] == n;
        assert ys[k] in multiset(xs);
        var i :| 0 <= i < |xs| && xs[i] == ys[k];
        assert NamesOf(xs)[i] == n;
      }
    }
  }

  /** Line 155: the page has one section per bank, and the sections come
      in ascending order of bank name. */
  lemma PageBankOrder(now: string, banks: seq<Bank>, formatDate: string -> Option<string>)
    ensures |OpenedNames(Page(now, banks, formatDate))| == |banks|
    ensures forall n :: n in OpenedNames(Page(now, banks, formatDate)) <==> n in NamesOf(banks)
    ensures forall i, j :: 0 <= i < j < |OpenedNames(Page(now, banks, formatDate))| ==>
              !StrLess(OpenedNames(Page(now, banks, formatDate))[j], OpenedNames(Page(now, banks, formatDate))[i])
  {
    var sorted := SortBanks(banks);
    var body := if banks == [] then [NoDataNotice] else Sections(sorted, formatDate);
    OpenedNamesAppend([Header(now)], body);
    OpenedNamesAppend([Header(now)] + body, [Footer]);
    assert OpenedNames([Header(now)]) == [] && OpenedNames([Footer]) == [];
    if banks == [] {
      assert OpenedNames([NoDataNotice]) == [];
    } else {
      SectionsNames(sorted, formatDate);
      SameNames(sorted, banks);
    }
  }
}
