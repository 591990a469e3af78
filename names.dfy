/**
 * Simplification of author fore names and last names. A missing value
 * (`None`, or the NaN that `pandas.isna` also detects) is `None`.
 */
module Names {
  import opened Wrappers
  import opened Text

  /** The words of a fore name: periods count as spaces, then each word loses its end punctuation. */
  function ForeNameWords(name: string): (ws: seq<string>)
    ensures |ws| == |Split(ReplaceChar(name, '.', ' '))|
  {
    var words := Split(ReplaceChar(name, '.', ' '));
    seq(|words|, k requires 0 <= k < |words| => Strip(words[k], Punctuation))
  }

  /** A stripped word `simplify_fore_name` keeps: two letters or more, and not an all-capitals word of three or fewer. */
  predicate Qualifies(w: string) {
    |w| > 1 && !(IsUpperCaseWord(w) && |w| <= 3)
  }

  /** The first qualifying word, lower-cased on request; `None` if there is none. */
  function FirstQualifying(ws: seq<string>, lower: bool): Option<string>
    decreases |ws|
  {
    if ws == [] then None
    else if Qualifies(ws[0]) then Some(if lower then Lower(ws[0]) else ws[0])
    else FirstQualifying(ws[1..], lower)
  }

  /** What `simplify_fore_name` returns. */
  function ForeName(name: Option<string>, lower: bool): Option<string> {
    match name
    case None => None
    case Some(s) => FirstQualifying(ForeNameWords(s), lower)
  }

  /** `simplify_fore_name`: the `for` loop returns at the first qualifying word. */
  method SimplifyForeName(name: Option<string>, lower: bool) returns (r: Option<string>)
    ensures r == ForeName(name, lower)
  {
    if name.None? {
      return None;
    }
    var name' := ReplaceChar(name.value, '.', ' ');
    var words := Split(name');
    ghost var stripped := ForeNameWords(name.value);
    for k := 0 to |words|
      invariant FirstQualifying(stripped, lower) == FirstQualifying(stripped[k..], lower)
    {
      var word := Strip(words[k], Punctuation);
      assert stripped[k..][0] == word && stripped[k..][1..] == stripped[k + 1..];
      if |word| <= 1 {
        continue;
      }
      if Upper(word) == word && |word| <= 3 {
        continue;
      }
      if lower {
        word := Lower(word);
      }
      return Some(word);
    }
    return None;
  }

  /**
   * The result is the first word that qualifies, lower-cased on request; it
   * is `None` exactly when the name is missing or no word qualifies.
   */
  lemma {:induction false} FirstQualifyingMeaning(ws: seq<string>, lower: bool)
    ensures FirstQualifying(ws, lower).None? <==> forall k :: 0 <= k < |ws| ==> !Qualifies(ws[k])
    ensures FirstQualifying(ws, lower).Some? ==>
              exists k :: 0 <= k < |ws| && Qualifies(ws[k])
                          && (forall j :: 0 <= j < k ==> !Qualifies(ws[j]))
                          && FirstQualifying(ws, lower).value == (if lower then Lower(ws[k]) else ws[k])
    decreases |ws|
  {
    if ws != [] && !Qualifies(ws[0]) {
      FirstQualifyingMeaning(ws[1..], lower);
      if FirstQualifying(ws, lower).Some? {
        var k :| 0 <= k < |ws[1..]| && Qualifies(ws[1..][k])
                 && (forall j :: 0 <= j < k ==> !Qualifies(ws[1..][j]))
                 && FirstQualifying(ws, lower).value == (if lower then Lower(ws[1..][k]) else ws[1..][k]);
        assert ws[k + 1] == ws[1..][k];
        forall j | 0 <= j < k + 1 ensures !Qualifies(ws[j]) {
          if j > 0 {
            assert ws[j] == ws[1..][j - 1];
          }
        }
      }
      forall k | 0 <= k < |ws| && k > 0 ensures ws[k] == ws[1..][k - 1] {}
    }
  }

  /** No whitespace, no period, and no punctuation at either end. */
  predicate WellShaped(w: string) {
    NoSpace(w) && '.' !in w
    && (w != [] ==> w[0] !in Punctuation && w[|w| - 1] !in Punctuation)
  }

  /** Each stripped word is well shaped. */
  lemma ForeNameWordShape(name: string, k: nat)
    requires k < |ForeNameWords(name)|
    ensures WellShaped(ForeNameWords(name)[k])
  {
    var spaced := ReplaceChar(name, '.', ' ');
    var words := Split(spaced);
    SplitChars(spaced);
    var w := ForeNameWords(name)[k];
    var i := LeadEnd(words[k], Punctuation, 0);
    var j := TrailStart(words[k], Punctuation, i, |words[k]|);
    assert w == words[k][i..j];
    forall t | 0 <= t < |w| ensures w[t] !in Space && w[t] != '.' {
      assert w[t] == words[k][i + t];
      assert words[k][i + t] in spaced;
    }
  }

  /** Lower-casing keeps a word well shaped and leaves no capital letter. */
  lemma LowerShape(w: string)
    requires WellShaped(w)
    ensures WellShaped(Lower(w))
    ensures forall i :: 0 <= i < |w| ==> !IsUpperAscii(Lower(w)[i])
  {
    var l := Lower(w);
    forall i | 0 <= i < |l| ensures l[i] !in Space && l[i] != '.' {
      assert l[i] == LowerChar(w[i]);
    }
  }

  /** When every word is well shaped, so is the first qualifying one, however it is cased. */
  lemma {:induction false} FirstQualifyingShape(ws: seq<string>, lower: bool)
    requires forall k :: 0 <= k < |ws| ==> WellShaped(ws[k])
    requires FirstQualifying(ws, lower).Some?
    ensures var w := FirstQualifying(ws, lower).value;
            |w| > 1 && WellShaped(w) && (lower ==> forall i :: 0 <= i < |w| ==> !IsUpperAscii(w[i]))
    decreases |ws|
  {
    if Qualifies(ws[0]) {
      if lower {
        LowerShape(ws[0]);
      }
    } else {
      assert forall k :: 0 <= k < |ws[1..]| ==> ws[1..][k] == ws[k + 1];
      FirstQualifyingShape(ws[1..], lower);
    }
  }

  /**
   * A chosen fore name has at least two characters, no whitespace and no
   * period, neither starts nor ends with punctuation, and has no capital
   * letter when lower-casing was asked for.
   */
  lemma ForeNameShape(name: Option<string>, lower: bool)
    requires ForeName(name, lower).Some?
    ensures var w := ForeName(name, lower).value;
            |w| > 1 && WellShaped(w) && (lower ==> forall i :: 0 <= i < |w| ==> !IsUpperAscii(w[i]))
  {
    var ws := ForeNameWords(name.value);
    forall k | 0 <= k < |ws| ensures WellShaped(ws[k]) {
      ForeNameWordShape(name.value, k);
    }
    FirstQualifyingShape(ws, lower);
  }

  // ---------------------------------------------------------------------------
  // The cases of `test_simplify_fore_name`

  /** A word with a lower-case letter is not an all-capitals word. */
  lemma HasLowerLetter(w: string, i: nat)
    requires i < |w| && IsLowerAscii(w[i])
    ensures !IsUpperCaseWord(w)
  {
    assert Upper(w)[i] != w[i];
  }

  lemma DanielWords()
    ensures ForeNameWords(" Daniel ") == ["Daniel"]
  {
    assert ReplaceChar(" Daniel ", '.', ' ') == " " + ("Daniel" + " ");
    SplitSpaces(" ", "Daniel" + " ");
    SplitWord("Daniel", " ");
    assert " " == " " + [];
    SplitSpaces(" ", []);
    StripUntouched("Daniel", Punctuation);
  }

  lemma DanielLower()
    ensures Lower("Daniel") == "daniel"
  {
  }

  lemma ForeNameDaniel()
    ensures ForeName(Some(" Daniel "), false) == Some("Daniel")
    ensures ForeName(Some(" Daniel "), true) == Some("daniel")
  {
    DanielWords();
    assert "Daniel"[1] == 'a';
    HasLowerLetter("Daniel", 1);
    DanielLower();
  }

  lemma ChowSplit()
    ensures Split("AB Chow") == ["AB", "Chow"]
  {
    SplitTwo("AB", " ", "Chow");
    assert "AB" + " " + "Chow" == "AB Chow";
  }

  /** Two words separated by whitespace split into those two words. */
  lemma SplitTwo(b: string, s2: string, c: string)
    requires b != [] && NoSpace(b) && c != [] && NoSpace(c)
    requires s2 != [] && forall i :: 0 <= i < |s2| ==> s2[i] in Space
    ensures Split(b + s2 + c) == [b, c]
  {
    SplitSingle(c);
    SplitWordThen(b, s2, c);
  }

  /** Three words separated by whitespace split into those three words. */
  lemma SplitThree(a: string, s1: string, b: string, s2: string, c: string)
    requires a != [] && NoSpace(a) && b != [] && NoSpace(b) && c != [] && NoSpace(c)
    requires s1 != [] && forall i :: 0 <= i < |s1| ==> s1[i] in Space
    requires s2 != [] && forall i :: 0 <= i < |s2| ==> s2[i] in Space
    ensures Split(a + s1 + (b + s2 + c)) == [a, b, c]
  {
    SplitTwo(b, s2, c);
    SplitWordThen(a, s1, b + s2 + c);
    assert [a] + [b, c] == [a, b, c];
  }

  lemma InitialsSplit()
    ensures Split("A B  Chow") == ["A", "B", "Chow"]
  {
    SplitThree("A", " ", "B", "  ", "Chow");
    assert "A" + " " + ("B" + "  " + "Chow") == "A B  Chow";
  }

  /** A name whose period-free split is two words that have no end punctuation. */
  lemma WordsOfTwo(name: string, a: string, b: string)
    requires Split(ReplaceChar(name, '.', ' ')) == [a, b]
    requires Strip(a, Punctuation) == a && Strip(b, Punctuation) == b
    ensures ForeNameWords(name) == [a, b]
  {
  }

  /** A name whose period-free split is three words that have no end punctuation. */
  lemma WordsOfThree(name: string, a: string, b: string, c: string)
    requires Split(ReplaceChar(name, '.', ' ')) == [a, b, c]
    requires Strip(a, Punctuation) == a && Strip(b, Punctuation) == b && Strip(c, Punctuation) == c
    ensures ForeNameWords(name) == [a, b, c]
  {
  }

  lemma ChowWords()
    ensures ForeNameWords("AB Chow") == ["AB", "Chow"]
  {
    ReplaceAbsent("AB Chow", '.', ' ');
    ChowSplit();
    StripUntouched("AB", Punctuation);
    StripUntouched("Chow", Punctuation);
    WordsOfTwo("AB Chow", "AB", "Chow");
  }

  lemma InitialsSpaced()
    ensures ReplaceChar("A.B. Chow", '.', ' ') == "A B  Chow"
  {
  }

  lemma InitialsWords()
    ensures ForeNameWords("A.B. Chow") == ["A", "B", "Chow"]
  {
    InitialsSpaced();
    InitialsSplit();
    StripUntouched("A", Punctuation);
    StripUntouched("B", Punctuation);
    StripUntouched("Chow", Punctuation);
    WordsOfThree("A.B. Chow", "A", "B", "Chow");
  }

  lemma ForeNameChow()
    ensures ForeName(Some("AB Chow"), false) == Some("Chow")
    ensures ForeName(Some("A.B. Chow"), false) == Some("Chow")
  {
    ChowWords();
    InitialsWords();
    UpperCaseWordHasNoLower("AB");
    assert "Chow"[1] == 'h';
    HasLowerLetter("Chow", 1);
  }

  /**
   * Besides `string.whitespace`, `str.split()` splits on other characters
   * `str.isspace` accepts, such as the unit separator U+001F.
   */
  lemma ForeNameSeparator()
    ensures ForeName(Some("Ab\U{1F}Cd"), false) == Some("Ab")
  {
    var name := "Ab" + "\U{1F}" + "Cd";
    assert name == "Ab\U{1F}Cd";
    ReplaceAbsent(name, '.', ' ');
    SplitTwo("Ab", "\U{1F}", "Cd");
    StripUntouched("Ab", Punctuation);
    StripUntouched("Cd", Punctuation);
    WordsOfTwo(name, "Ab", "Cd");
    assert "Ab"[1] == 'b';
    HasLowerLetter("Ab", 1);
  }

  lemma OneWord(w: string)
    requires w != [] && NoSpace(w) && '.' !in w
    ensures Split(ReplaceChar(w, '.', ' ')) == [w]
  {
    assert ReplaceChar(w, '.', ' ') == w + [];
    SplitWord(w, []);
  }

  lemma ForeNameCapitals()
    ensures ForeName(Some("LE"), false) == None
    ensures ForeName(Some("LE"), true) == None
    ensures ForeName(Some("Le"), false) == Some("Le")
  {
    OneWord("LE");
    StripUntouched("LE", Punctuation);
    assert ForeNameWords("LE") == ["LE"];
    UpperCaseWordHasNoLower("LE");
    OneWord("Le");
    StripUntouched("Le", Punctuation);
    assert ForeNameWords("Le") == ["Le"];
    assert "Le"[1] == 'e';
    HasLowerLetter("Le", 1);
  }

  lemma ForeNameNothing()
    ensures ForeName(None, false) == None
    ensures ForeName(Some(""), false) == None
    ensures ForeName(Some(" "), true) == None
  {
    assert ReplaceChar("", '.', ' ') == [];
    assert ReplaceChar(" ", '.', ' ') == " " + [];
    SplitSpaces(" ", []);
  }

  lemma DashWords()
    ensures ForeNameWords("-") == [[]]
  {
    OneWord("-");
    assert LeadEnd("-", Punctuation, 0) == 1;
  }

  lemma RafeelWords()
    ensures ForeNameWords("-Rafeel!") == ["Rafeel"]
  {
    var w := "-Rafeel!";
    OneWord(w);
    assert LeadEnd(w, Punctuation, 0) == 1;
    assert TrailStart(w, Punctuation, 1, 8) == 7;
    assert w[1..7] == "Rafeel";
  }

  lemma ForeNamePunctuation()
    ensures ForeName(Some("-"), false) == None
    ensures ForeName(Some("-Rafeel!"), false) == Some("Rafeel")
  {
    DashWords();
    RafeelWords();
    assert !Qualifies([]);
    assert FirstQualifying([[]], false) == FirstQualifying([], false);
    FirstOfOne("Rafeel", false);
  }

  /** A single word longer than three characters is the fore name. */
  lemma FirstOfOne(w: string, lower: bool)
    requires |w| > 3
    ensures FirstQualifying([w], lower) == Some(if lower then Lower(w) else w)
  {
  }

  lemma HyphenWords()
    ensures ForeNameWords("Mc-Winters") == ["Mc-Winters"]
  {
    OneWord("Mc-Winters");
    StripUntouched("Mc-Winters", Punctuation);
  }

  lemma HyphenLower()
    ensures Lower("Mc-Winters") == "mc-winters"
  {
  }

  /**
   * With lower-casing, the whole word is lower-cased: "Mc-Winters" gives
   * "mc-winters".
   */
  lemma ForeNameHyphen()
    ensures ForeName(Some("Mc-Winters"), false) == Some("Mc-Winters")
    ensures ForeName(Some("Mc-Winters"), true) == Some("mc-winters")
  {
    HyphenWords();
    HyphenLower();
    FirstOfOne("Mc-Winters", false);
    FirstOfOne("Mc-Winters", true);
  }

  // ---------------------------------------------------------------------------
  // Last names

  /** `string.whitespace + string.punctuation`. */
  const LastNameStrip: set<char> := Whitespace + Punctuation

  /** `simplify_last_name`: both ends lose whitespace and punctuation; nothing left gives `None`. */
  function SimplifyLastName(name: Option<string>, lower: bool): (r: Option<string>)
    ensures name.None? ==> r.None?
    ensures r.Some? ==> |r.value| > 0
  {
    match name
    case None => None
    case Some(s) =>
      var stripped := Strip(s, LastNameStrip);
      if stripped == [] then None
      else Some(if lower then Lower(stripped) else stripped)
  }

  /**
   * The result is `None` exactly when the name is missing or made only of
   * whitespace and punctuation; otherwise it is the part between the first
   * and the last other character, lower-cased on request.
   */
  lemma LastNameMeaning(s: string, lower: bool)
    ensures SimplifyLastName(Some(s), lower).None? <==> forall k :: 0 <= k < |s| ==> s[k] in LastNameStrip
    ensures SimplifyLastName(Some(s), lower).Some? ==>
              exists i, j :: 0 <= i < j <= |s|
                             && (forall k :: 0 <= k < i ==> s[k] in LastNameStrip)
                             && (forall k :: j <= k < |s| ==> s[k] in LastNameStrip)
                             && s[i] !in LastNameStrip && s[j - 1] !in LastNameStrip
                             && SimplifyLastName(Some(s), lower).value == (if lower then Lower(s[i..j]) else s[i..j])
  {
    StripMeaning(s, LastNameStrip);
  }

  /** A simplified last name neither starts nor ends with whitespace or punctuation. */
  lemma LastNameTrimmed(name: Option<string>, lower: bool)
    requires SimplifyLastName(name, lower).Some?
    ensures var w := SimplifyLastName(name, lower).value;
            w[0] !in LastNameStrip && w[|w| - 1] !in LastNameStrip
  {
    var stripped := Strip(name.value, LastNameStrip);
    var w := SimplifyLastName(name, lower).value;
    if lower {
      assert w[0] == LowerChar(stripped[0]) && w[|w| - 1] == LowerChar(stripped[|w| - 1]);
    }
  }
}
