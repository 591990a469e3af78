/**
 * Field extraction from a `<PubmedArticle>` element of an EFetch document.
 *
 * An element is replaced by a record of what `findtext` returns for each path
 * the source reads: `None` where the element is absent, its text (`""` when
 * it has none) otherwise.
 */
module EFetch {
  import opened Wrappers
  import opened Text
  import opened OrderedDict

  /** A date element (`ArticleDate` or `PubDate`): `findtext` of its Year, Month and Day. */
  datatype DateElem = DateElem(year: Option<string>, month: Option<string>, day: Option<string>)

  /** `PubmedData/ArticleIdList/ArticleId`: its `IdType` attribute and its text. */
  datatype ArticleId = ArticleId(idType: Option<string>, text: Option<string>)

  /** `MedlineCitation/Article/AuthorList/Author`: ForeName, LastName and the `.text` of each Affiliation. */
  datatype AuthorElem = AuthorElem(foreName: Option<string>, lastName: Option<string>,
                                   affiliations: seq<Option<string>>)

  datatype PubmedArticle = PubmedArticle(
    articleIds: seq<ArticleId>,
    medlineTA: Option<string>,     // MedlineCitation/MedlineJournalInfo/MedlineTA
    nlmUniqueId: Option<string>,   // MedlineCitation/MedlineJournalInfo/NlmUniqueID
    articleTitle: Option<string>,  // MedlineCitation/Article/ArticleTitle
    articleDates: seq<DateElem>,   // MedlineCitation/Article/ArticleDate
    pubDate: Option<DateElem>,     // MedlineCitation/Article/Journal/JournalIssue/PubDate
    authors: seq<AuthorElem>)

  // ===========================================================================
  // Dates

  const MonthAbbrevs: seq<string> :=
    ["Jan", "Feb", "Mar", "Apr", "May", "Jun", "Jul", "Aug", "Sep", "Oct", "Nov", "Dec"]

  /** `_month_abbrev_to_int`. */
  const MonthAbbrevToInt: map<string, nat> :=
    map["Jan" := 1, "Feb" := 2, "Mar" := 3, "Apr" := 4, "May" := 5, "Jun" := 6,
        "Jul" := 7, "Aug" := 8, "Sep" := 9, "Oct" := 10, "Nov" := 11, "Dec" := 12]

  /** The table maps exactly the twelve abbreviations, in calendar order, to 1..12. */
  lemma MonthTable()
    ensures forall s :: s in MonthAbbrevToInt ==> s in MonthAbbrevs
    ensures forall k :: 0 <= k < 12 ==> MonthAbbrevToInt[MonthAbbrevs[k]] == k + 1
  {
  }

  /** `int(_month_abbrev_to_int.get(month, month))`. */
  function MonthNumber(month: Option<string>): (r: Option<nat>)
    ensures month.Some? && month.value in MonthAbbrevToInt ==> r == Some(MonthAbbrevToInt[month.value])
    ensures !(month.Some? && month.value in MonthAbbrevToInt) ==> r == ParseInt(month)
  {
    if month.Some? && month.value in MonthAbbrevToInt then Some(MonthAbbrevToInt[month.value])
    else ParseInt(month)
  }

  /** `_date_elem_to_str`: `'YYYY'`, `'YYYY-MM'` or `'YYYY-MM-DD'`, as far as the parts parse. */
  function DateElemToStr(elem: Option<DateElem>): Option<string> {
    if elem.None? then None
    else
      var e := elem.value;
      match ParseInt(e.year)
      case None => None
      case Some(y) =>
        match MonthNumber(e.month)
        case None => Some(ZeroPad(y, 4))
        case Some(m) =>
          match ParseInt(e.day)
          case None => Some(ZeroPad(y, 4) + "-" + ZeroPad(m, 2))
          case Some(d) => Some(ZeroPad(y, 4) + "-" + ZeroPad(m, 2) + "-" + ZeroPad(d, 2))
  }

  /** Without a parsable year there is no date. */
  lemma DateNeedsYear(elem: Option<DateElem>)
    ensures DateElemToStr(elem).Some? <==> elem.Some? && ParseInt(elem.value.year).Some?
  {
  }

  /** When the month does not parse, the day is never consulted. */
  lemma DayIgnoredWithoutMonth(e: DateElem, day: Option<string>)
    requires MonthNumber(e.month).None?
    ensures DateElemToStr(Some(e)) == DateElemToStr(Some(e.(day := day)))
  {
  }

  /**
   * For a year below 10000 and month and day below 100 the string is an ISO
   * partial date: its precision is that of the parts that parsed, and each
   * part reads back as the number it was formatted from.
   */
  lemma DateStringReadsBack(e: DateElem, y: nat)
    requires ParseInt(e.year) == Some(y) && y < 10000
    requires MonthNumber(e.month).Some? ==> MonthNumber(e.month).value < 100
    requires ParseInt(e.day).Some? ==> ParseInt(e.day).value < 100
    ensures DateElemToStr(Some(e)).Some?
    ensures var s := DateElemToStr(Some(e)).value;
            && |s| == (if MonthNumber(e.month).None? then 4 else if ParseInt(e.day).None? then 7 else 10)
            && DigitsValue(s[..4]) == y
            && (|s| > 4 ==> s[4] == '-' && DigitsValue(s[5..7]) == MonthNumber(e.month).value)
            && (|s| > 7 ==> s[7] == '-' && DigitsValue(s[8..10]) == ParseInt(e.day).value)
  {
    var s := DateElemToStr(Some(e)).value;
    WidthOfSmall(y, 4);
    ZeroPadValue(y, 4);
    assert s[..4] == ZeroPad(y, 4);
    if MonthNumber(e.month).Some? {
      var m := MonthNumber(e.month).value;
      WidthOfSmall(m, 2);
      ZeroPadValue(m, 2);
      assert s[5..7] == ZeroPad(m, 2);
      if ParseInt(e.day).Some? {
        var d := ParseInt(e.day).value;
        WidthOfSmall(d, 2);
        ZeroPadValue(d, 2);
        assert s[8..10] == ZeroPad(d, 2);
      }
    }
  }

  /** A number below `10^w` pads to exactly `w` digits. */
  lemma WidthOfSmall(n: nat, w: nat)
    requires w == 2 || w == 4
    requires w == 2 ==> n < 100
    requires w == 4 ==> n < 10000
    ensures |ZeroPad(n, w)| == w
  {
    assert Pow10(2) == 100 && Pow10(4) == 10000;
    NatToStringShort(n, w);
  }

  /** The lexicographically least of non-empty strings: `sorted(dates)[0]`. */
  function LeastString(ss: seq<string>): (r: string)
    requires ss != []
    ensures r in ss
    ensures forall k :: 0 <= k < |ss| ==> LexLe(r, ss[k])
  {
    if |ss| == 1 then ss[0]
    else
      var m := LeastString(ss[1..]);
      LexLessTotal(ss[0], m);
      var r := if LexLe(ss[0], m) then ss[0] else m;
      assert forall k :: 1 <= k < |ss| ==> LexLe(m, ss[k]) by {
        forall k | 1 <= k < |ss| ensures LexLe(m, ss[k]) { assert ss[k] == ss[1..][k - 1]; }
      }
      forall k | 0 <= k < |ss| ensures LexLe(r, ss[k]) {
        if k > 0 { LexLeTransitive(r, m, ss[k]); }
      }
      r
  }

  /** The converted ArticleDates, in document order. */
  function ArticleDateStrings(a: PubmedArticle): (ds: seq<Option<string>>)
    ensures |ds| == |a.articleDates|
    ensures forall k :: 0 <= k < |ds| ==> ds[k] == DateElemToStr(Some(a.articleDates[k]))
  {
    seq(|a.articleDates|, k requires 0 <= k < |a.articleDates| => DateElemToStr(Some(a.articleDates[k])))
  }

  predicate AllPresent(ds: seq<Option<string>>) {
    forall k :: 0 <= k < |ds| ==> ds[k].Some?
  }

  function Values(ds: seq<Option<string>>): (vs: seq<string>)
    requires AllPresent(ds)
    ensures |vs| == |ds| && forall k :: 0 <= k < |ds| ==> vs[k] == ds[k].value
  {
    seq(|ds|, k requires 0 <= k < |ds| => ds[k].value)
  }

  /**
   * `extract_publication_date`: the least ArticleDate string when there is at
   * least one ArticleDate, otherwise the PubDate string. Sorting two or more
   * conversions of which one is None raises TypeError.
   */
  function ExtractPublicationDate(a: PubmedArticle): (r: Result<Option<string>, PyError>)
    ensures a.articleDates == [] ==> r == Ok(DateElemToStr(a.pubDate))
    ensures a.articleDates != [] && AllPresent(ArticleDateStrings(a)) ==>
              && r.Ok? && r.value.Some?
              && Some(r.value.value) in ArticleDateStrings(a)
              && forall k :: 0 <= k < |a.articleDates| ==>
                   LexLe(r.value.value, DateElemToStr(Some(a.articleDates[k])).value)
    ensures r.Err? <==> |a.articleDates| >= 2 && !AllPresent(ArticleDateStrings(a))
  {
    var dates := ArticleDateStrings(a);
    if dates == [] then Ok(DateElemToStr(a.pubDate))
    else if |dates| == 1 then Ok(dates[0])
    else if !AllPresent(dates) then Err(TypeError)
    else
      var least := LeastString(Values(dates));
      assert exists k :: 0 <= k < |dates| && Values(dates)[k] == least;
      Ok(Some(least))
  }

  // ===========================================================================
  // Identifiers, authors, the whole record

  /** The position of the first ArticleId whose IdType is `idType`. */
  function FirstOfType(ids: seq<ArticleId>, idType: string): (r: Option<nat>)
    ensures r.None? <==> forall k :: 0 <= k < |ids| ==> ids[k].idType != Some(idType)
    ensures r.Some? ==>
              && r.value < |ids| && ids[r.value].idType == Some(idType)
              && forall j :: 0 <= j < r.value ==> ids[j].idType != Some(idType)
  {
    if ids == [] then None
    else if ids[0].idType == Some(idType) then Some(0)
    else match FirstOfType(ids[1..], idType)
      case None => None
      case Some(k) => Some(k + 1)
  }

  /** `findtext("PubmedData/ArticleIdList/ArticleId[@IdType='t']")`: the text of the first ArticleId of that type. */
  function FindArticleId(ids: seq<ArticleId>, idType: string): Option<string> {
    match FirstOfType(ids, idType)
    case None => None
    case Some(k) => Some(ids[k].text.GetOr(""))
  }

  /** The `renamer` of `extract_identifiers`: IdType, then the key it is stored under. */
  const Renamer: seq<(string, string)> := [("pubmed", "pmid"), ("pmc", "pmcid"), ("doi", "doi")]

  /** `if identifiers["doi"]: identifiers["doi"] = identifiers["doi"].lower()`. */
  function NormalizeDoi(doi: Option<string>): (r: Option<string>)
    ensures doi.None? || doi == Some("") ==> r == doi
    ensures doi.Some? && doi.value != "" ==> r == Some(Lower(doi.value))
  {
    if doi.Some? && doi.value != "" then Some(Lower(doi.value)) else doi
  }

  /** `extract_identifiers`: exactly the keys pmid, pmcid, doi, in that order. */
  method ExtractIdentifiers(a: PubmedArticle) returns (identifiers: Dict<Option<string>>)
    ensures identifiers == [("pmid", FindArticleId(a.articleIds, "pubmed")),
                            ("pmcid", FindArticleId(a.articleIds, "pmc")),
                            ("doi", NormalizeDoi(FindArticleId(a.articleIds, "doi")))]
  {
    identifiers := [];
    var k := 0;
    while k < |Renamer|
      invariant 0 <= k <= |Renamer|
      invariant identifiers == seq(k, j requires 0 <= j < k =>
                                          (Renamer[j].1, FindArticleId(a.articleIds, Renamer[j].0)))
    {
      var (idType, idTypeName) := Renamer[k];
      PutNew(identifiers, idTypeName, FindArticleId(a.articleIds, idType));
      identifiers := Put(identifiers, idTypeName, FindArticleId(a.articleIds, idType));
      k := k + 1;
    }
    assert Keys(identifiers) == ["pmid", "pmcid", "doi"];
    GetEntry(identifiers, 2);
    var doi := Get(identifiers, "doi").value;
    if doi.Some? && doi.value != "" {
      assert IndexOf(identifiers, "doi") == Some(2);
      PutExisting(identifiers, "doi", Some(Lower(doi.value)), 2);
      identifiers := Put(identifiers, "doi", Some(Lower(doi.value)));
    }
  }

  /** One `{"fore_name", "last_name", "affiliations"}` record. */
  datatype AuthorRecord = AuthorRecord(foreName: Option<string>, lastName: Option<string>,
                                       affiliations: seq<Option<string>>)

  /** The record of one Author element. */
  function AuthorRecordOf(e: AuthorElem): AuthorRecord {
    AuthorRecord(e.foreName, e.lastName, e.affiliations)
  }

  /** `extract_authors`: one record per Author element, in document order. */
  method ExtractAuthors(a: PubmedArticle) returns (authors: seq<AuthorRecord>)
    ensures |authors| == |a.authors|
    ensures forall k :: 0 <= k < |authors| ==> authors[k] == AuthorRecordOf(a.authors[k])
  {
    authors := [];
    var k := 0;
    while k < |a.authors|
      invariant 0 <= k <= |a.authors| && |authors| == k
      invariant forall j :: 0 <= j < k ==> authors[j] == AuthorRecordOf(a.authors[j])
    {
      authors := authors + [AuthorRecordOf(a.authors[k])];
      k := k + 1;
    }
  }

  /** A value of the record `extract_all` returns. */
  datatype Field = Text(text: Option<string>) | Authors(authors: seq<AuthorRecord>)

  /** The entries of a dictionary of texts, as record fields. */
  function TextFields(d: Dict<Option<string>>): (r: Dict<Field>)
    ensures Keys(r) == Keys(d)
    ensures forall i :: 0 <= i < |d| ==> r[i].1 == Text(d[i].1)
  {
    seq(|d|, i requires 0 <= i < |d| => (d[i].0, Text(d[i].1)))
  }

  const AllKeys: seq<string> :=
    ["pmid", "pmcid", "doi", "journal", "journal_nlm_id", "title", "publication_date", "authors"]

  /** The first six entries `extract_all` records: the identifiers, journal, journal NLM ID and title. */
  method ExtractHeading(a: PubmedArticle) returns (result: Dict<Field>)
    ensures Keys(result) == AllKeys[..6]
    ensures result == [("pmid", Text(FindArticleId(a.articleIds, "pubmed"))),
                       ("pmcid", Text(FindArticleId(a.articleIds, "pmc"))),
                       ("doi", Text(NormalizeDoi(FindArticleId(a.articleIds, "doi")))),
                       ("journal", Text(a.medlineTA)),
                       ("journal_nlm_id", Text(a.nlmUniqueId)),
                       ("title", Text(a.articleTitle))]
  {
    var identifiers := ExtractIdentifiers(a);
    var pmid := Text(identifiers[0].1);
    var pmcid := Text(identifiers[1].1);
    var doi := Text(identifiers[2].1);
    var fields := TextFields(identifiers);
    assert fields == [("pmid", pmid), ("pmcid", pmcid), ("doi", doi)];
    result := [];
    HeadingEntries(fields, Text(a.medlineTA), Text(a.nlmUniqueId), Text(a.articleTitle));
    result := Update(result, fields);
    result := Put(result, "journal", Text(a.medlineTA));
    result := Put(result, "journal_nlm_id", Text(a.nlmUniqueId));
    result := Put(result, "title", Text(a.articleTitle));
  }

  /** Updating an empty record with the identifiers, then adding three new keys, appends in order. */
  lemma HeadingEntries(ids: Dict<Field>, journal: Field, nlmId: Field, title: Field)
    requires Keys(ids) == ["pmid", "pmcid", "doi"]
    ensures Put(Put(Put(Update([], ids), "journal", journal), "journal_nlm_id", nlmId), "title", title)
            == ids + [("journal", journal), ("journal_nlm_id", nlmId), ("title", title)]
    ensures Keys(ids + [("journal", journal), ("journal_nlm_id", nlmId), ("title", title)]) == AllKeys[..6]
  {
    UpdateFresh([], ids);
    assert [] + ids == ids;
    PutAbsent(ids, "journal", journal);
    var d1 := ids + [("journal", journal)];
    assert Keys(d1) == ["pmid", "pmcid", "doi", "journal"];
    PutAbsent(d1, "journal_nlm_id", nlmId);
    var d2 := d1 + [("journal_nlm_id", nlmId)];
    assert Keys(d2) == ["pmid", "pmcid", "doi", "journal", "journal_nlm_id"];
    PutAbsent(d2, "title", title);
    KeysAppend(d2, [("title", title)]);
    assert d2 + [("title", title)] == ids + [("journal", journal), ("journal_nlm_id", nlmId), ("title", title)];
  }

  /**
   * `extract_all`: identifiers, journal, journal NLM ID, title, publication
   * date and authors, in that key order; it raises when the publication date
   * does.
   */
  method ExtractAll(a: PubmedArticle) returns (r: Result<Dict<Field>, PyError>)
    ensures r.Err? <==> ExtractPublicationDate(a).Err?
    ensures r.Ok? ==>
              && Keys(r.value) == AllKeys
              && r.value[..3] == [("pmid", Text(FindArticleId(a.articleIds, "pubmed"))),
                                  ("pmcid", Text(FindArticleId(a.articleIds, "pmc"))),
                                  ("doi", Text(NormalizeDoi(FindArticleId(a.articleIds, "doi"))))]
              && r.value[3..7] == [("journal", Text(a.medlineTA)),
                                   ("journal_nlm_id", Text(a.nlmUniqueId)),
                                   ("title", Text(a.articleTitle)),
                                   ("publication_date", Text(ExtractPublicationDate(a).value))]
              && r.value[7].1.Authors? && |r.value[7].1.authors| == |a.authors|
              && forall k :: 0 <= k < |a.authors| ==> r.value[7].1.authors[k] == AuthorRecordOf(a.authors[k])
  {
    var result := ExtractHeading(a);
    var prefix := result;
    var date := ExtractPublicationDate(a);
    if date.Err? {
      return Err(date.error);
    }
    result := Put(result, "publication_date", Text(date.value));
    var authors := ExtractAuthors(a);
    result := Put(result, "authors", Authors(authors));
    ClosingEntries(prefix, Text(date.value), Authors(authors));
    r := Ok(result);
  }

  /** Adding the publication date and the authors to the first six entries appends them in order. */
  lemma ClosingEntries(prefix: Dict<Field>, date: Field, authors: Field)
    requires Keys(prefix) == AllKeys[..6]
    ensures Put(Put(prefix, "publication_date", date), "authors", authors)
            == prefix + [("publication_date", date), ("authors", authors)]
    ensures Keys(prefix + [("publication_date", date), ("authors", authors)]) == AllKeys
  {
    PutAbsent(prefix, "publication_date", date);
    var d := prefix + [("publication_date", date)];
    assert Keys(d) == AllKeys[..7];
    PutAbsent(d, "authors", authors);
    assert d + [("authors", authors)] == prefix + [("publication_date", date), ("authors", authors)];
  }
}
