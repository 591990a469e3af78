/**
 * Date and identifier extraction from the `<DocSum>` elements of an ESummary
 * document.
 *
 * A DocSum element is replaced by a record of what `findtext` returns for
 * each path the source reads. The two `strptime`-based parsers are passed in
 * as total functions from a text to an optional date: `None` stands for the
 * ValueError that `strptime` raises on a text it cannot parse.
 */
module ESummary {
  import opened Wrappers
  import opened Text
  import opened OrderedDict

  /** A `datetime.date`; Python orders dates by year, then month, then day. */
  datatype Date = Date(year: int, month: int, day: int)

  predicate DateLe(a: Date, b: Date) {
    a.year < b.year
    || (a.year == b.year && (a.month < b.month || (a.month == b.month && a.day <= b.day)))
  }

  /** A dated item: the `Name` attribute (or the fixed key) and the element's text. */
  datatype DateItem = DateItem(name: string, text: Option<string>)

  datatype DocSum = DocSum(
    id: Option<string>,           // Id
    nlmUniqueId: Option<string>,  // Item[@Name='NlmUniqueID']
    pubDate: Option<string>,      // Item[@Name='PubDate'][@Type='Date']
    epubDate: Option<string>,     // Item[@Name='EPubDate'][@Type='Date']
    history: seq<DateItem>)       // Item[@Name='History']/Item[@Type='Date']

  /** A parsed `(name, date)` pair, also an entry of a dictionary of dates. */
  type Pair = (string, Date)

  // ===========================================================================
  // Parsing a run of dated items

  /** Item `item` makes the parsing loop raise: its text is missing, or it does not parse and `int(Id)` raises. */
  predicate Raises(item: DateItem, parse: string -> Option<Date>, id: Result<nat, PyError>) {
    item.text.None? || (parse(item.text.value).None? && id.Err?)
  }

  /** Item `item` parses to the pair `p`. */
  predicate ParsesTo(item: DateItem, parse: string -> Option<Date>, p: Pair) {
    item.text.Some? && item.name == p.0 && parse(item.text.value) == Some(p.1)
  }

  /**
   * The loop shared by the history and the publication dates: `strptime` of
   * `None` raises TypeError; a text that does not parse is skipped once
   * `int(Id)` (for the log message) has succeeded; every other item yields
   * `(name, date)`. `id` is the outcome of `int(Id)`.
   */
  function ParseDates(items: seq<DateItem>, parse: string -> Option<Date>, id: Result<nat, PyError>)
    : Result<seq<Pair>, PyError>
    decreases |items|
  {
    if items == [] then Ok([])
    else
      match ParseDates(items[..|items| - 1], parse, id)
      case Err(e) => Err(e)
      case Ok(ps) =>
        var item := items[|items| - 1];
        match item.text
        case None => Err(TypeError)
        case Some(t) =>
          match parse(t)
          case None => if id.Err? then Err(id.error) else Ok(ps)
          case Some(d) => Ok(ps + [(item.name, d)])
  }

  /** Once a prefix of the items raises, the whole run raises the same exception. */
  lemma {:induction false} ParseDatesPrefixErr(items: seq<DateItem>, k: nat,
                                               parse: string -> Option<Date>, id: Result<nat, PyError>)
    requires k <= |items|
    requires ParseDates(items[..k], parse, id).Err?
    ensures ParseDates(items, parse, id) == ParseDates(items[..k], parse, id)
    decreases |items| - k
  {
    if k < |items| {
      var n := |items|;
      assert items[..n][..n - 1] == items[..n - 1];
      assert items[..n - 1][..k] == items[..k];
      ParseDatesPrefixErr(items[..n - 1], k, parse, id);
      assert items[..n] == items;
    } else {
      assert items[..k] == items;
    }
  }

  /** The run raises exactly when some item raises, and then at the first such item. */
  lemma {:induction false} ParseDatesErr(items: seq<DateItem>, parse: string -> Option<Date>,
                                         id: Result<nat, PyError>)
    ensures ParseDates(items, parse, id).Err? <==>
              exists i :: 0 <= i < |items| && Raises(items[i], parse, id)
    decreases |items|
  {
    if items != [] {
      var n := |items|;
      var init := items[..n - 1];
      ParseDatesErr(init, parse, id);
      if ParseDates(init, parse, id).Err? {
        var i :| 0 <= i < |init| && Raises(init[i], parse, id);
        assert items[i] == init[i];
      } else {
        forall i | 0 <= i < n - 1 ensures !Raises(items[i], parse, id) {
          assert items[i] == init[i];
        }
      }
    }
  }

  /** When the run succeeds, its pairs are exactly what the items parse to, in item order. */
  lemma {:induction false} ParseDatesOk(items: seq<DateItem>, parse: string -> Option<Date>,
                                        id: Result<nat, PyError>)
    requires ParseDates(items, parse, id).Ok?
    ensures forall p :: p in ParseDates(items, parse, id).value <==>
              exists i :: 0 <= i < |items| && ParsesTo(items[i], parse, p)
    ensures |ParseDates(items, parse, id).value| <= |items|
    decreases |items|
  {
    if items != [] {
      var n := |items|;
      var init := items[..n - 1];
      ParseDatesOk(init, parse, id);
      var ps := ParseDates(init, parse, id).value;
      forall p ensures p in ParseDates(items, parse, id).value <==>
                       exists i :: 0 <= i < n && ParsesTo(items[i], parse, p)
      {
        if p in ps {
          var i :| 0 <= i < |init| && ParsesTo(init[i], parse, p);
          assert items[i] == init[i];
        }
        if i :| 0 <= i < n && ParsesTo(items[i], parse, p) {
          if i < n - 1 {
            assert init[i] == items[i];
          }
        }
      }
    }
  }

  /** A text that does not parse is skipped without changing what the other items yield. */
  lemma SkipUnparsed(items: seq<DateItem>, item: DateItem, parse: string -> Option<Date>,
                     id: Result<nat, PyError>)
    requires item.text.Some? && parse(item.text.value).None? && id.Ok?
    ensures ParseDates(items + [item], parse, id) == ParseDates(items, parse, id)
  {
    assert (items + [item])[..|items|] == items;
  }

  /** The pair an item contributes, if it neither raises nor fails to parse. */
  function Yield(item: DateItem, parse: string -> Option<Date>): seq<Pair> {
    if item.text.Some? && parse(item.text.value).Some? then [(item.name, parse(item.text.value).value)] else []
  }

  /** One more item: the run raises if that item does, and otherwise gains what it yields. */
  lemma ParseDatesSnoc(items: seq<DateItem>, item: DateItem, parse: string -> Option<Date>,
                       id: Result<nat, PyError>)
    ensures ParseDates(items + [item], parse, id) ==
              if ParseDates(items, parse, id).Err? then ParseDates(items, parse, id)
              else if item.text.None? then Err(TypeError)
              else if parse(item.text.value).None? && id.Err? then Err(id.error)
              else Ok(ParseDates(items, parse, id).value + Yield(item, parse))
  {
    var all := items + [item];
    assert all[..|all| - 1] == items && all[|all| - 1] == item;
    if ParseDates(items, parse, id).Ok? {
      var ps := ParseDates(items, parse, id).value;
      assert ps + [] == ps;
    }
  }

  // ===========================================================================
  // History: deduplication, stable sort by name, numbering per name

  /** The pairs with their later repetitions removed (the `seen` set of the loop). */
  function Dedup(ps: seq<Pair>): seq<Pair>
    decreases |ps|
  {
    if ps == [] then []
    else
      var d := Dedup(ps[..|ps| - 1]);
      if ps[|ps| - 1] in d then d else d + [ps[|ps| - 1]]
  }

  lemma {:induction false} DedupProperties(ps: seq<Pair>)
    ensures forall i, j :: 0 <= i < j < |Dedup(ps)| ==> Dedup(ps)[i] != Dedup(ps)[j]
    ensures forall p :: p in Dedup(ps) <==> p in ps
    decreases |ps|
  {
    if ps != [] {
      var init := ps[..|ps| - 1];
      DedupProperties(init);
      assert ps == init + [ps[|ps| - 1]];
    }
  }

  /** Each kept pair stays at its first occurrence: appending a new pair keeps it last, a repeat changes nothing. */
  lemma DedupSnoc(ps: seq<Pair>, p: Pair)
    ensures p in ps ==> Dedup(ps + [p]) == Dedup(ps)
    ensures p !in ps ==> Dedup(ps + [p]) == Dedup(ps) + [p]
  {
    assert (ps + [p])[..|ps|] == ps;
    DedupProperties(ps);
  }

  predicate SortedByName(ps: seq<Pair>) {
    forall i, j :: 0 <= i < j < |ps| ==> LexLe(ps[i].0, ps[j].0)
  }

  /** The pairs named `n`, in order. */
  function WithName(ps: seq<Pair>, n: string): seq<Pair>
    decreases |ps|
  {
    if ps == [] then [] else (if ps[0].0 == n then [ps[0]] else []) + WithName(ps[1..], n)
  }

  lemma {:induction false} WithNameAppend(a: seq<Pair>, b: seq<Pair>, n: string)
    ensures WithName(a + b, n) == WithName(a, n) + WithName(b, n)
    decreases |a|
  {
    if a != [] {
      assert (a + b)[1..] == a[1..] + b;
      WithNameAppend(a[1..], b, n);
    } else {
      assert a + b == b;
    }
  }

  lemma {:induction false} WithNameNone(ps: seq<Pair>, n: string)
    requires forall i :: 0 <= i < |ps| ==> ps[i].0 != n
    ensures WithName(ps, n) == []
    decreases |ps|
  {
    if ps != [] {
      WithNameNone(ps[1..], n);
    }
  }

  /** One step of insertion sort: `x` goes before the first pair whose name is not smaller. */
  function Insert(x: Pair, s: seq<Pair>): seq<Pair>
    decreases |s|
  {
    if s == [] then [x]
    else if LexLe(x.0, s[0].0) then [x] + s
    else [s[0]] + Insert(x, s[1..])
  }

  /**
   * `date_pairs.sort(key=lambda x: x[0])`: a stable sort on the name only.
   * Python sorts in place; the model computes the sorted sequence.
   */
  function SortByName(ps: seq<Pair>): seq<Pair>
    decreases |ps|
  {
    if ps == [] then [] else Insert(ps[0], SortByName(ps[1..]))
  }

  lemma SortedTail(s: seq<Pair>)
    requires s != [] && SortedByName(s)
    ensures SortedByName(s[1..])
  {
    var t := s[1..];
    forall i, j | 0 <= i < j < |t| ensures LexLe(t[i].0, t[j].0) {
      assert t[i] == s[i + 1] && t[j] == s[j + 1];
    }
  }

  lemma SortedCons(h: Pair, t: seq<Pair>)
    requires SortedByName(t)
    requires forall i :: 0 <= i < |t| ==> LexLe(h.0, t[i].0)
    ensures SortedByName([h] + t)
  {
    var r := [h] + t;
    forall i, j | 0 <= i < j < |r| ensures LexLe(r[i].0, r[j].0) {
      if i == 0 {
        assert r[j] == t[j - 1];
      } else {
        assert r[i] == t[i - 1] && r[j] == t[j - 1];
      }
    }
  }

  lemma {:induction false} InsertMultiset(x: Pair, s: seq<Pair>)
    ensures multiset(Insert(x, s)) == multiset(s) + multiset{x}
    ensures |Insert(x, s)| == |s| + 1
    decreases |s|
  {
    if s != [] && !LexLe(x.0, s[0].0) {
      InsertMultiset(x, s[1..]);
      assert s == [s[0]] + s[1..];
    }
  }

  lemma {:induction false} InsertSorted(x: Pair, s: seq<Pair>)
    requires SortedByName(s)
    ensures SortedByName(Insert(x, s))
    decreases |s|
  {
    if s == [] {
    } else if !LexLe(x.0, s[0].0) {
      LexLessTotal(x.0, s[0].0);
      SortedTail(s);
      InsertSorted(x, s[1..]);
      InsertMultiset(x, s[1..]);
      var rest := Insert(x, s[1..]);
      forall i | 0 <= i < |rest| ensures LexLe(s[0].0, rest[i].0) {
        var e := rest[i];
        assert e in multiset(rest);
        if e != x {
          assert e in multiset(s[1..]);
          var k :| 0 <= k < |s[1..]| && s[1..][k] == e;
          assert s[k + 1] == e;
        }
      }
      SortedCons(s[0], rest);
    } else {
      forall i | 0 <= i < |s| ensures LexLe(x.0, s[i].0) {
        if i > 0 {
          LexLeTransitive(x.0, s[0].0, s[i].0);
        }
      }
      SortedCons(x, s);
    }
  }

  /** Insertion keeps the order among pairs of one name: `x` comes before all pairs of its own name. */
  lemma {:induction false} InsertWithName(x: Pair, s: seq<Pair>, n: string)
    ensures WithName(Insert(x, s), n) == (if x.0 == n then [x] else []) + WithName(s, n)
    decreases |s|
  {
    if s == [] {
      assert WithName([x], n) == (if x.0 == n then [x] else []) + WithName([], n);
    } else if LexLe(x.0, s[0].0) {
      assert ([x] + s)[1..] == s;
    } else {
      var h, t := s[0], s[1..];
      var mine := if x.0 == n then [x] else [];
      var theirs := if h.0 == n then [h] else [];
      InsertWithName(x, t, n);
      assert Insert(x, s) == [h] + Insert(x, t);
      assert ([h] + Insert(x, t))[1..] == Insert(x, t);
      assert WithName(Insert(x, s), n) == theirs + (mine + WithName(t, n));
      assert mine == [] || theirs == [];
      assert WithName(s, n) == theirs + WithName(t, n);
    }
  }

  /** The sort yields a list sorted by name. */
  lemma {:induction false} SortByNameSorted(ps: seq<Pair>)
    ensures SortedByName(SortByName(ps))
    decreases |ps|
  {
    if ps != [] {
      SortByNameSorted(ps[1..]);
      InsertSorted(ps[0], SortByName(ps[1..]));
    }
  }

  /** The sort yields a permutation of its input. */
  lemma {:induction false} SortByNamePermutation(ps: seq<Pair>)
    ensures multiset(SortByName(ps)) == multiset(ps)
    ensures |SortByName(ps)| == |ps|
    decreases |ps|
  {
    if ps != [] {
      var sorted := SortByName(ps[1..]);
      SortByNamePermutation(ps[1..]);
      InsertMultiset(ps[0], sorted);
      assert ps == [ps[0]] + ps[1..];
      assert multiset(ps) == multiset(ps[1..]) + multiset{ps[0]};
    }
  }

  /** The sort is stable: the pairs of each name keep their relative order. */
  lemma {:induction false} SortByNameStable(ps: seq<Pair>, n: string)
    ensures WithName(SortByName(ps), n) == WithName(ps, n)
    decreases |ps|
  {
    if ps != [] {
      SortByNameStable(ps[1..], n);
      InsertWithName(ps[0], SortByName(ps[1..]), n);
    }
  }

  /** The position `enumerate` gives pair `j` inside its `groupby` run of equal names. */
  function RunIndex(ps: seq<Pair>, j: nat): nat
    requires j < |ps|
  {
    if j == 0 || ps[j - 1].0 != ps[j].0 then 0 else RunIndex(ps, j - 1) + 1
  }

  /** `f"{name}_{i}"`. */
  function HistoryKey(name: string, i: nat): (k: string)
    ensures |k| > 0 && IsDigit(k[|k| - 1])
  {
    name + "_" + NatToString(i)
  }

  /** What the nested `groupby`/`enumerate` loops put in the history, in insertion order. */
  function HistoryEntries(ps: seq<Pair>): (d: Dict<Date>)
    ensures |d| == |ps|
  {
    seq(|ps|, j requires 0 <= j < |ps| => (HistoryKey(ps[j].0, RunIndex(ps, j)), ps[j].1))
  }

  /** A history key determines its name and its number. */
  lemma HistoryKeyInjective(n1: string, i1: nat, n2: string, i2: nat)
    requires HistoryKey(n1, i1) == HistoryKey(n2, i2)
    ensures n1 == n2 && i1 == i2
  {
    var k := HistoryKey(n1, i1);
    var d1, d2 := NatToString(i1), NatToString(i2);
    assert forall p :: |n1| < p < |k| ==> k[p] == d1[p - |n1| - 1];
    assert forall p :: |n2| < p < |k| ==> k[p] == d2[p - |n2| - 1];
    assert k[|n1|] == '_' && k[|n2|] == '_';
    assert |n1| == |n2|;
    assert n1 == k[..|n1|] == n2;
    assert d1 == k[|n1| + 1..] == d2;
    NatToStringInjective(i1, i2);
  }

  /** In a sorted sequence the pairs of one name are consecutive, so later ones get higher numbers. */
  lemma {:induction false} RunIndexInSorted(ps: seq<Pair>, i: nat, j: nat)
    requires SortedByName(ps)
    requires i < j < |ps| && ps[i].0 == ps[j].0
    ensures RunIndex(ps, j) == RunIndex(ps, i) + (j - i)
    decreases j
  {
    LexLeAntisymmetric(ps[j - 1].0, ps[j].0);
    if i < j - 1 {
      RunIndexInSorted(ps, i, j - 1);
    }
  }

  /** In a sorted sequence the number of a pair counts the earlier pairs of its name. */
  lemma {:induction false} RunIndexCounts(ps: seq<Pair>, j: nat)
    requires SortedByName(ps) && j < |ps|
    ensures RunIndex(ps, j) == |WithName(ps[..j], ps[j].0)|
    decreases j
  {
    var n := ps[j].0;
    if j == 0 {
    } else if ps[j - 1].0 == n {
      RunIndexCounts(ps, j - 1);
      assert ps[..j] == ps[..j - 1] + [ps[j - 1]];
      WithNameAppend(ps[..j - 1], [ps[j - 1]], n);
    } else {
      forall i | 0 <= i < j ensures ps[..j][i].0 != n {
        if ps[i].0 == n {
          LexLeAntisymmetric(ps[j - 1].0, n);
        }
      }
      WithNameNone(ps[..j], n);
    }
  }

  /** Two pairs of a sorted sequence receive different history keys. */
  lemma HistoryKeysDiffer(ps: seq<Pair>, i: nat, j: nat)
    requires SortedByName(ps) && i < j < |ps|
    ensures HistoryKey(ps[i].0, RunIndex(ps, i)) != HistoryKey(ps[j].0, RunIndex(ps, j))
  {
    if HistoryKey(ps[i].0, RunIndex(ps, i)) == HistoryKey(ps[j].0, RunIndex(ps, j)) {
      HistoryKeyInjective(ps[i].0, RunIndex(ps, i), ps[j].0, RunIndex(ps, j));
      RunIndexInSorted(ps, i, j);
    }
  }

  /** The keys of the history of a sorted sequence are distinct. */
  lemma HistoryKeysDistinct(ps: seq<Pair>)
    requires SortedByName(ps)
    ensures Distinct(Keys(HistoryEntries(ps)))
  {
    var h := HistoryEntries(ps);
    forall i, j | 0 <= i < j < |h| ensures Keys(h)[i] != Keys(h)[j] {
      HistoryKeysDiffer(ps, i, j);
    }
  }

  /** A pair preceded by `c` pairs of its own name is the `c`-th pair of that name. */
  lemma RankOfCount(ss: seq<Pair>, j: nat)
    requires j < |ss|
    ensures |WithName(ss[..j], ss[j].0)| < |WithName(ss, ss[j].0)|
    ensures WithName(ss, ss[j].0)[|WithName(ss[..j], ss[j].0)|] == ss[j]
  {
    var n := ss[j].0;
    assert ss == ss[..j] + ss[j..];
    WithNameAppend(ss[..j], ss[j..], n);
    assert ss[j..] == [ss[j]] + ss[j + 1..];
    WithNameAppend([ss[j]], ss[j + 1..], n);
    assert WithName([ss[j]], n) == [ss[j]];
  }

  /** In a sorted sequence, pair `j` is the `RunIndex`-th pair of its name. */
  lemma RunIndexRank(ss: seq<Pair>, j: nat)
    requires SortedByName(ss) && j < |ss|
    ensures RunIndex(ss, j) < |WithName(ss, ss[j].0)|
    ensures WithName(ss, ss[j].0)[RunIndex(ss, j)] == ss[j]
  {
    RunIndexCounts(ss, j);
    RankOfCount(ss, j);
  }

  /** The entry is `(name_i, date)` where `date` is the `i`-th date named `name` in `qs`. */
  ghost predicate IsRankedEntry(qs: seq<Pair>, e: (string, Date)) {
    exists n: string, i: nat :: e.0 == HistoryKey(n, i) && i < |WithName(qs, n)| && e.1 == WithName(qs, n)[i].1
  }

  /**
   * In the history built from deduplicated, sorted pairs, key `name_i` holds
   * the `i`-th date of that name in document order, and no key repeats.
   */
  lemma HistoryMeaning(qs: seq<Pair>)
    ensures var h := HistoryEntries(SortByName(qs));
            && Distinct(Keys(h))
            && |h| == |qs|
            && forall j :: 0 <= j < |h| ==> IsRankedEntry(qs, h[j])
  {
    var ss := SortByName(qs);
    SortByNameSorted(qs);
    SortByNamePermutation(qs);
    HistoryKeysDistinct(ss);
    var h := HistoryEntries(ss);
    forall j | 0 <= j < |h| ensures IsRankedEntry(qs, h[j]) {
      var n := ss[j].0;
      RunIndexRank(ss, j);
      SortByNameStable(qs, n);
      var i := RunIndex(ss, j);
      assert h[j].0 == HistoryKey(n, i) && h[j].1 == WithName(qs, n)[i].1;
    }
  }

  /** Entry `j` of the history goes in under a key that no earlier entry has. */
  lemma HistoryStep(ps: seq<Pair>, j: nat, history: Dict<Date>)
    requires Distinct(Keys(HistoryEntries(ps))) && j < |ps|
    requires history == HistoryEntries(ps)[..j]
    ensures Put(history, HistoryKey(ps[j].0, RunIndex(ps, j)), ps[j].1) == HistoryEntries(ps)[..j + 1]
  {
    var h := HistoryEntries(ps);
    var key := HistoryKey(ps[j].0, RunIndex(ps, j));
    forall k | 0 <= k < |history| ensures history[k].0 != key {
      assert Keys(h)[k] != Keys(h)[j];
    }
    PutNew(history, key, ps[j].1);
    assert h[..j + 1] == history + [(key, ps[j].1)];
  }

  /** The pair after `j` continues its run exactly when it has the same name. */
  lemma RunIndexNext(ps: seq<Pair>, j: nat)
    requires j + 1 < |ps|
    ensures ps[j].0 == ps[j + 1].0 ==> RunIndex(ps, j + 1) == RunIndex(ps, j) + 1
    ensures ps[j].0 != ps[j + 1].0 ==> RunIndex(ps, j + 1) == 0
  {
  }

  /**
   * The nested `groupby`/`enumerate` loops of `parse_esummary_history` over
   * pairs already sorted by name.
   */
  method NumberRuns(pairs: seq<Pair>) returns (history: Dict<Date>)
    requires Distinct(Keys(HistoryEntries(pairs)))
    ensures history == HistoryEntries(pairs)
  {
    ghost var entries := HistoryEntries(pairs);
    history := [];
    var j := 0;
    while j < |pairs|
      invariant j <= |pairs|
      invariant history == entries[..j]
      invariant 0 < j < |pairs| ==> pairs[j - 1].0 != pairs[j].0
    {
      var name := pairs[j].0;
      var i := 0;
      ghost var start := j;
      while j < |pairs| && pairs[j].0 == name
        invariant start <= j <= |pairs| && j == start + i
        invariant history == entries[..j]
        invariant i == 0 ==> (j == 0 || pairs[j - 1].0 != name)
        invariant i > 0 ==> pairs[j - 1].0 == name
        invariant j < |pairs| && pairs[j].0 == name ==> RunIndex(pairs, j) == i
        decreases |pairs| - j
      {
        HistoryStep(pairs, j, history);
        history := Put(history, HistoryKey(name, i), pairs[j].1);
        if j + 1 < |pairs| {
          RunIndexNext(pairs, j);
        }
        i := i + 1;
        j := j + 1;
      }
    }
  }

  /** What `parse_esummary_history` returns or raises. */
  function History(docsum: DocSum, parseDate: string -> Option<Date>): Result<Dict<Date>, PyError> {
    match ParseDates(docsum.history, parseDate, IntOf(docsum.id))
    case Err(e) => Err(e)
    case Ok(ps) => Ok(HistoryEntries(SortByName(Dedup(ps))))
  }

  /** `parse_esummary_history`. */
  method ParseEsummaryHistory(docsum: DocSum, parseDate: string -> Option<Date>)
    returns (r: Result<Dict<Date>, PyError>)
    ensures r == History(docsum, parseDate)
  {
    var items := docsum.history;
    ghost var id := IntOf(docsum.id);
    var datePairs: seq<Pair> := [];
    var seen: set<Pair> := {};
    ghost var parsed: seq<Pair> := [];
    var k := 0;
    while k < |items|
      invariant k <= |items|
      invariant ParseDates(items[..k], parseDate, id) == Ok(parsed)
      invariant datePairs == Dedup(parsed)
      invariant forall p :: p in seen <==> p in datePairs
    {
      var item := items[k];
      assert items[..k + 1][..k] == items[..k];
      if item.text.None? {
        ParseDatesPrefixErr(items, k + 1, parseDate, id);
        return Err(TypeError);
      }
      var date := parseDate(item.text.value);
      if date.None? {
        var idValue := IntOf(docsum.id);
        if idValue.Err? {
          ParseDatesPrefixErr(items, k + 1, parseDate, id);
          return Err(idValue.error);
        }
        k := k + 1;
        continue;
      }
      var pair := (item.name, date.value);
      DedupProperties(parsed);
      DedupSnoc(parsed, pair);
      parsed := parsed + [pair];
      k := k + 1;
      if pair in seen {
        continue;
      }
      seen := seen + {pair};
      datePairs := datePairs + [pair];
    }
    assert items[..k] == items;
    datePairs := SortByName(datePairs);
    SortByNameSorted(Dedup(parsed));
    SortByNamePermutation(Dedup(parsed));
    HistoryKeysDistinct(datePairs);
    var history := NumberRuns(datePairs);
    r := Ok(history);
  }

  // ===========================================================================
  // Publication dates

  /** The earliest date among the entries (`min` of the set of values). */
  function Earliest(ps: seq<Pair>): (m: Date)
    requires ps != []
    ensures exists i :: 0 <= i < |ps| && ps[i].1 == m
    ensures forall i :: 0 <= i < |ps| ==> DateLe(m, ps[i].1)
    decreases |ps|
  {
    if |ps| == 1 then ps[0].1
    else
      var m := Earliest(ps[1..]);
      if DateLe(ps[0].1, m) then ps[0].1 else m
  }

  /** The two texts `parse_esummary_pubdates` reads, under the keys it stores them at. */
  function PubdateItems(docsum: DocSum): seq<DateItem> {
    [DateItem("pub", docsum.pubDate), DateItem("epub", docsum.epubDate)]
  }

  /** What `parse_esummary_pubdates` returns or raises. */
  function Pubdates(docsum: DocSum, parsePubdate: string -> Option<Date>): Result<Dict<Date>, PyError> {
    match ParseDates(PubdateItems(docsum), parsePubdate, IntOf(docsum.id))
    case Err(e) => Err(e)
    case Ok(ps) => Ok(if ps == [] then ps else ps + [("published", Earliest(ps))])
  }

  /** `parse_esummary_pubdates`. */
  method ParseEsummaryPubdates(docsum: DocSum, parsePubdate: string -> Option<Date>)
    returns (r: Result<Dict<Date>, PyError>)
    ensures r == Pubdates(docsum, parsePubdate)
  {
    var fields := [DateItem("pub", docsum.pubDate), DateItem("epub", docsum.epubDate)];
    ghost var id := IntOf(docsum.id);
    var pubdates: Dict<Date> := [];
    var k := 0;
    while k < |fields|
      invariant k <= |fields|
      invariant ParseDates(fields[..k], parsePubdate, id) == Ok(pubdates)
      invariant forall i :: 0 <= i < |pubdates| ==> pubdates[i].0 == "pub" || (k == 2 && pubdates[i].0 == "epub")
    {
      var key, text := fields[k].name, fields[k].text;
      assert fields[..k + 1][..k] == fields[..k];
      if text.None? {
        ParseDatesPrefixErr(fields, k + 1, parsePubdate, id);
        return Err(TypeError);
      }
      var date := parsePubdate(text.value);
      if date.None? {
        var idValue := IntOf(docsum.id);
        if idValue.Err? {
          ParseDatesPrefixErr(fields, k + 1, parsePubdate, id);
          return Err(idValue.error);
        }
        k := k + 1;
        continue;
      }
      if k == 1 {
        assert key == "epub";
        PutNew(pubdates, key, date.value);
      } else {
        PutNew(pubdates, key, date.value);
      }
      pubdates := Put(pubdates, key, date.value);
      k := k + 1;
    }
    assert fields[..k] == fields;
    if |pubdates| > 0 {
      PutNew(pubdates, "published", Earliest(pubdates));
      pubdates := Put(pubdates, "published", Earliest(pubdates));
    }
    r := Ok(pubdates);
  }

  /** The record built from the two parse results: the parsed dates, then their minimum if there is one. */
  function PubdateRecord(pub: Option<Date>, epub: Option<Date>): Dict<Date> {
    var ps := (if pub.Some? then [("pub", pub.value)] else []) + (if epub.Some? then [("epub", epub.value)] else []);
    if ps == [] then ps else ps + [("published", Earliest(ps))]
  }

  /** On success both texts were present, and the record is built from what they parse to. */
  lemma PubdatesValue(docsum: DocSum, parsePubdate: string -> Option<Date>)
    requires Pubdates(docsum, parsePubdate).Ok?
    ensures docsum.pubDate.Some? && docsum.epubDate.Some?
    ensures Pubdates(docsum, parsePubdate).value
            == PubdateRecord(parsePubdate(docsum.pubDate.value), parsePubdate(docsum.epubDate.value))
  {
    var a, b := DateItem("pub", docsum.pubDate), DateItem("epub", docsum.epubDate);
    var id := IntOf(docsum.id);
    ParseDatesSnoc([], a, parsePubdate, id);
    ParseDatesSnoc([a], b, parsePubdate, id);
    assert [] + [a] == [a] && [a] + [b] == PubdateItems(docsum);
  }

  /**
   * `pub` and `epub` hold the parse results; `published` is present exactly
   * when one of them is, and is then the earlier of the two.
   */
  lemma PubdateRecordMeaning(pub: Option<Date>, epub: Option<Date>)
    ensures Get(PubdateRecord(pub, epub), "pub") == pub
    ensures Get(PubdateRecord(pub, epub), "epub") == epub
    ensures var published := Get(PubdateRecord(pub, epub), "published");
            && (published.Some? <==> pub.Some? || epub.Some?)
            && (published.Some? ==> published == pub || published == epub)
            && (published.Some? && pub.Some? ==> DateLe(published.value, pub.value))
            && (published.Some? && epub.Some? ==> DateLe(published.value, epub.value))
  {
    var d := PubdateRecord(pub, epub);
    if pub.Some? && epub.Some? {
      var ps := [("pub", pub.value), ("epub", epub.value)];
      assert d == ps + [("published", Earliest(ps))];
      GetEntry(d, 0);
      GetEntry(d, 1);
      GetEntry(d, 2);
    } else if pub.Some? {
      var ps := [("pub", pub.value)];
      assert d == ps + [("published", Earliest(ps))];
      GetEntry(d, 0);
      GetEntry(d, 1);
      assert Earliest(ps) == pub.value;
    } else if epub.Some? {
      var ps := [("epub", epub.value)];
      assert d == ps + [("published", Earliest(ps))];
      GetEntry(d, 0);
      GetEntry(d, 1);
      assert Earliest(ps) == epub.value;
    } else {
      assert d == [];
    }
  }

  /**
   * `pub` and `epub` hold the parsed PubDate and EPubDate texts and are
   * present only when those parsed; `published` is present exactly when one
   * of them is, and is then the earlier of the two.
   */
  lemma PubdatesMeaning(docsum: DocSum, parsePubdate: string -> Option<Date>)
    requires Pubdates(docsum, parsePubdate).Ok?
    ensures docsum.pubDate.Some? && docsum.epubDate.Some?
    ensures Get(Pubdates(docsum, parsePubdate).value, "pub") == parsePubdate(docsum.pubDate.value)
    ensures Get(Pubdates(docsum, parsePubdate).value, "epub") == parsePubdate(docsum.epubDate.value)
    ensures var published := Get(Pubdates(docsum, parsePubdate).value, "published");
            var pub, epub := parsePubdate(docsum.pubDate.value), parsePubdate(docsum.epubDate.value);
            && (published.Some? <==> pub.Some? || epub.Some?)
            && (published.Some? ==> published == pub || published == epub)
            && (published.Some? && pub.Some? ==> DateLe(published.value, pub.value))
            && (published.Some? && epub.Some? ==> DateLe(published.value, epub.value))
  {
    PubdatesValue(docsum, parsePubdate);
    PubdateRecordMeaning(parsePubdate(docsum.pubDate.value), parsePubdate(docsum.epubDate.value));
  }

  /** PubDate and EPubDate raise when missing; an unparsed one raises only when `int(Id)` does. */
  lemma PubdatesErr(docsum: DocSum, parsePubdate: string -> Option<Date>)
    ensures Pubdates(docsum, parsePubdate).Err? <==>
              || docsum.pubDate.None? || docsum.epubDate.None?
              || (IntOf(docsum.id).Err?
                  && (parsePubdate(docsum.pubDate.value).None? || parsePubdate(docsum.epubDate.value).None?))
  {
    var items := PubdateItems(docsum);
    ParseDatesErr(items, parsePubdate, IntOf(docsum.id));
    assert items[0].text == docsum.pubDate && items[1].text == docsum.epubDate;
  }

  // ===========================================================================
  // One article and the stream of articles

  /** The values an article holds. */
  datatype Value = Number(n: nat) | Text(text: Option<string>) | Day(date: Date)

  /** The dates of `d` as article values. */
  function DateValues(d: Dict<Date>): (r: Dict<Value>)
    ensures Keys(r) == Keys(d)
    ensures forall i :: 0 <= i < |d| ==> r[i].1 == Day(d[i].1)
  {
    seq(|d|, i requires 0 <= i < |d| => (d[i].0, Day(d[i].1)))
  }

  /** What `parse_esummary` returns or raises. */
  function Esummary(docsum: DocSum, parseDate: string -> Option<Date>, parsePubdate: string -> Option<Date>)
    : Result<Dict<Value>, PyError>
  {
    match IntOf(docsum.id)
    case Err(e) => Err(e)
    case Ok(id) =>
      match Pubdates(docsum, parsePubdate)
      case Err(e) => Err(e)
      case Ok(pd) =>
        match History(docsum, parseDate)
        case Err(e) => Err(e)
        case Ok(h) =>
          Ok([("pubmed_id", Number(id)), ("journal_nlm_id", Text(docsum.nlmUniqueId))]
             + DateValues(pd) + DateValues(h))
  }

  /** The publication-date keys are among `pub`, `epub` and `published`. */
  lemma PubdatesKeys(docsum: DocSum, parsePubdate: string -> Option<Date>)
    requires Pubdates(docsum, parsePubdate).Ok?
    ensures var d := Pubdates(docsum, parsePubdate).value;
            && Distinct(Keys(d))
            && forall i :: 0 <= i < |d| ==> d[i].0 in ["pub", "epub", "published"]
  {
    PubdatesValue(docsum, parsePubdate);
  }

  /** The history keys are distinct and end in a digit. */
  lemma HistoryKeys(docsum: DocSum, parseDate: string -> Option<Date>)
    requires History(docsum, parseDate).Ok?
    ensures var h := History(docsum, parseDate).value;
            && Distinct(Keys(h))
            && forall i :: 0 <= i < |h| ==> |h[i].0| > 0 && IsDigit(h[i].0[|h[i].0| - 1])
  {
    var ps := ParseDates(docsum.history, parseDate, IntOf(docsum.id)).value;
    HistoryMeaning(Dedup(ps));
  }

  /** The keys an article has besides its history keys. */
  const FixedKeys: seq<string> := ["pubmed_id", "journal_nlm_id", "pub", "epub", "published"]

  /** None of them ends in a digit, so none can be a history key. */
  lemma FixedKeysNotHistory(k: string)
    requires k in FixedKeys
    ensures |k| > 0 && !IsDigit(k[|k| - 1])
  {
  }

  /** The keys of the whole article are distinct once those of its two date parts are. */
  lemma ArticleKeysDistinct(fixed: Dict<Value>, pd: Dict<Date>, h: Dict<Date>)
    requires Keys(fixed) == ["pubmed_id", "journal_nlm_id"]
    requires Distinct(Keys(pd)) && forall i :: 0 <= i < |pd| ==> pd[i].0 in ["pub", "epub", "published"]
    requires Distinct(Keys(h)) && forall i :: 0 <= i < |h| ==> |h[i].0| > 0 && IsDigit(h[i].0[|h[i].0| - 1])
    ensures Keys(fixed + DateValues(pd) + DateValues(h)) == Keys(fixed) + Keys(pd) + Keys(h)
    ensures Distinct(Keys(fixed + DateValues(pd) + DateValues(h)))
    ensures forall i, j :: 0 <= i < |h| && 0 <= j < |fixed + DateValues(pd)| ==>
              DateValues(h)[i].0 != (fixed + DateValues(pd))[j].0
  {
    var front := fixed + DateValues(pd);
    KeysAppend(fixed, DateValues(pd));
    KeysAppend(front, DateValues(h));
    DistinctAppend(Keys(fixed), Keys(pd));
    forall i, j | 0 <= i < |h| && 0 <= j < |front| ensures DateValues(h)[i].0 != front[j].0 {
      assert front[j].0 == Keys(front)[j] && Keys(front)[j] in FixedKeys;
      FixedKeysNotHistory(front[j].0);
    }
    DistinctAppend(Keys(front), Keys(h));
  }

  /** `article.update(pubdates)` and then `article.update(history)` append both, in order. */
  lemma ArticleUpdates(fixed: Dict<Value>, pd: Dict<Date>, h: Dict<Date>)
    requires Keys(fixed) == ["pubmed_id", "journal_nlm_id"]
    requires Distinct(Keys(pd)) && forall i :: 0 <= i < |pd| ==> pd[i].0 in ["pub", "epub", "published"]
    requires Distinct(Keys(h)) && forall i :: 0 <= i < |h| ==> |h[i].0| > 0 && IsDigit(h[i].0[|h[i].0| - 1])
    ensures Update(Update(fixed, DateValues(pd)), DateValues(h)) == fixed + DateValues(pd) + DateValues(h)
  {
    ArticleKeysDistinct(fixed, pd, h);
    forall i, j | 0 <= i < |pd| && 0 <= j < |fixed| ensures DateValues(pd)[i].0 != fixed[j].0 {
      assert fixed[j].0 == Keys(fixed)[j];
    }
    UpdateFresh(fixed, DateValues(pd));
    UpdateFresh(fixed + DateValues(pd), DateValues(h));
  }

  /**
   * An article's keys are `pubmed_id`, `journal_nlm_id`, the publication-date
   * keys and then the history keys, with no key twice.
   */
  lemma EsummaryKeys(docsum: DocSum, parseDate: string -> Option<Date>, parsePubdate: string -> Option<Date>)
    requires Esummary(docsum, parseDate, parsePubdate).Ok?
    ensures Pubdates(docsum, parsePubdate).Ok? && History(docsum, parseDate).Ok?
    ensures var a := Esummary(docsum, parseDate, parsePubdate).value;
            && Keys(a) == ["pubmed_id", "journal_nlm_id"] + Keys(Pubdates(docsum, parsePubdate).value)
                          + Keys(History(docsum, parseDate).value)
            && Distinct(Keys(a))
  {
    PubdatesKeys(docsum, parsePubdate);
    HistoryKeys(docsum, parseDate);
    var fixed: Dict<Value> := [("pubmed_id", Number(IntOf(docsum.id).value)), ("journal_nlm_id", Text(docsum.nlmUniqueId))];
    ArticleKeysDistinct(fixed, Pubdates(docsum, parsePubdate).value, History(docsum, parseDate).value);
  }

  /** `parse_esummary`. */
  method ParseEsummary(docsum: DocSum, parseDate: string -> Option<Date>, parsePubdate: string -> Option<Date>)
    returns (r: Result<Dict<Value>, PyError>)
    ensures r == Esummary(docsum, parseDate, parsePubdate)
  {
    var id := IntOf(docsum.id);
    if id.Err? {
      return Err(id.error);
    }
    var article: Dict<Value> := [];
    article := Put(article, "pubmed_id", Number(id.value));
    PutNew(article, "journal_nlm_id", Text(docsum.nlmUniqueId));
    article := Put(article, "journal_nlm_id", Text(docsum.nlmUniqueId));
    ghost var fixed := article;
    assert fixed == [("pubmed_id", Number(id.value)), ("journal_nlm_id", Text(docsum.nlmUniqueId))];
    var pubdates := ParseEsummaryPubdates(docsum, parsePubdate);
    if pubdates.Err? {
      return Err(pubdates.error);
    }
    var history := ParseEsummaryHistory(docsum, parseDate);
    PubdatesKeys(docsum, parsePubdate);
    if history.Err? {
      return Err(history.error);
    }
    HistoryKeys(docsum, parseDate);
    ArticleUpdates(fixed, pubdates.value, history.value);
    article := Update(article, DateValues(pubdates.value));
    article := Update(article, DateValues(history.value));
    assert article == fixed + DateValues(pubdates.value) + DateValues(history.value);
    r := Ok(article);
  }

  /**
   * `extract_articles_from_esummaries` over the DocSum elements of the
   * stream, in stream order: one article per element, or the first
   * exception an element raises.
   */
  method ExtractArticlesFromEsummaries(docsums: seq<DocSum>, parseDate: string -> Option<Date>,
                                       parsePubdate: string -> Option<Date>)
    returns (r: Result<seq<Dict<Value>>, PyError>)
    ensures r.Ok? <==> forall k :: 0 <= k < |docsums| ==> Esummary(docsums[k], parseDate, parsePubdate).Ok?
    ensures r.Ok? ==> |r.value| == |docsums|
                      && forall k :: 0 <= k < |docsums| ==> Esummary(docsums[k], parseDate, parsePubdate) == Ok(r.value[k])
    ensures r.Err? ==> exists k :: 0 <= k < |docsums| && Esummary(docsums[k], parseDate, parsePubdate) == Err(r.error)
                                   && forall j :: 0 <= j < k ==> Esummary(docsums[j], parseDate, parsePubdate).Ok?
  {
    var articles: seq<Dict<Value>> := [];
    var k := 0;
    while k < |docsums|
      invariant k <= |docsums| && |articles| == k
      invariant forall j :: 0 <= j < k ==> Esummary(docsums[j], parseDate, parsePubdate) == Ok(articles[j])
    {
      var article := ParseEsummary(docsums[k], parseDate, parsePubdate);
      if article.Err? {
        return Err(article.error);
      }
      articles := articles + [article.value];
      k := k + 1;
    }
    r := Ok(articles);
  }
}
