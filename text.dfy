/**
 * Character classes, case mapping, stripping, splitting, string order and
 * decimal formatting, with the meaning the Python standard library gives them
 * on ASCII text.
 */
module Text {
  import opened Wrappers

  /** Python's `string.whitespace`: space, tab, newline, vertical tab, form feed, carriage return. */
  const Whitespace: set<char> := set c: char | c == ' ' || '\t' <= c <= '\r'

  /**
   * The characters for which Python's `str.isspace` holds, on which `str.split()`
   * and `str.rstrip()` without arguments split and strip: `string.whitespace`,
   * the separators U+001C to U+001F, NEL, no-break space and the other Unicode
   * spaces and line and paragraph separators.
   */
  const Space: set<char> := set c: char |
    || '\t' <= c <= '\r' || '\U{1C}' <= c <= ' ' || c == '\U{85}' || c == '\U{A0}'
    || c == '\U{1680}' || '\U{2000}' <= c <= '\U{200A}' || c == '\U{2028}' || c == '\U{2029}'
    || c == '\U{202F}' || c == '\U{205F}' || c == '\U{3000}'

  /** Python's `string.punctuation`: the printable ASCII characters that are neither letters nor digits. */
  const Punctuation: set<char> :=
    set c: char | '!' <= c <= '~' && !('0' <= c <= '9') && !('A' <= c <= 'Z') && !('a' <= c <= 'z')

  predicate IsUpperAscii(c: char) { 'A' <= c <= 'Z' }
  predicate IsLowerAscii(c: char) { 'a' <= c <= 'z' }

  function LowerChar(c: char): (r: char)
    ensures IsUpperAscii(c) ==> IsLowerAscii(r)
    ensures !IsUpperAscii(c) ==> r == c
  {
    if IsUpperAscii(c) then (c as int + 32) as char else c
  }

  function UpperChar(c: char): (r: char)
    ensures IsLowerAscii(c) ==> IsUpperAscii(r)
    ensures !IsLowerAscii(c) ==> r == c
  {
    if IsLowerAscii(c) then (c as int - 32) as char else c
  }

  /** `str.lower()`: every upper-case letter is replaced by its lower-case form. */
  function Lower(s: string): (r: string)
    ensures |r| == |s|
    ensures forall i :: 0 <= i < |s| ==> r[i] == LowerChar(s[i])
  {
    seq(|s|, i requires 0 <= i < |s| => LowerChar(s[i]))
  }

  /** `str.upper()`. */
  function Upper(s: string): (r: string)
    ensures |r| == |s|
    ensures forall i :: 0 <= i < |s| ==> r[i] == UpperChar(s[i])
  {
    seq(|s|, i requires 0 <= i < |s| => UpperChar(s[i]))
  }

  /** `s == s.upper()`: the string holds no lower-case letter. */
  predicate IsUpperCaseWord(s: string) {
    Upper(s) == s
  }

  lemma UpperCaseWordHasNoLower(s: string)
    ensures IsUpperCaseWord(s) <==> forall i :: 0 <= i < |s| ==> !IsLowerAscii(s[i])
  {
    if IsUpperCaseWord(s) {
      forall i | 0 <= i < |s| ensures !IsLowerAscii(s[i]) {
        assert Upper(s)[i] == s[i];
      }
    }
  }

  // ---------------------------------------------------------------------------
  // str.strip(chars)

  /** Index of the first character at or after `i` that is not in `cs` (`|s|` if none). */
  function LeadEnd(s: string, cs: set<char>, i: nat): (n: nat)
    requires i <= |s|
    ensures i <= n <= |s|
    ensures forall k :: i <= k < n ==> s[k] in cs
    ensures n < |s| ==> s[n] !in cs
    decreases |s| - i
  {
    if i < |s| && s[i] in cs then LeadEnd(s, cs, i + 1) else i
  }

  /** Index just past the last character of `s[lo..j]` that is not in `cs` (`lo` if none). */
  function TrailStart(s: string, cs: set<char>, lo: nat, j: nat): (n: nat)
    requires lo <= j <= |s|
    ensures lo <= n <= j
    ensures forall k :: n <= k < j ==> s[k] in cs
    ensures n > lo ==> s[n - 1] !in cs
    decreases j
  {
    if j > lo && s[j - 1] in cs then TrailStart(s, cs, lo, j - 1) else j
  }

  /** `s.lstrip(chars)`. */
  function StripLeft(s: string, cs: set<char>): (r: string)
    ensures r == s[LeadEnd(s, cs, 0)..]
    ensures r != [] ==> r[0] !in cs
  {
    s[LeadEnd(s, cs, 0)..]
  }

  /** `s.rstrip(chars)`: what is left ends with a character not in `cs`, and everything cut off is in `cs`. */
  function StripRight(s: string, cs: set<char>): (r: string)
    ensures |r| <= |s| && r == s[..|r|]
    ensures forall k :: |r| <= k < |s| ==> s[k] in cs
    ensures r != [] ==> r[|r| - 1] !in cs
  {
    s[..TrailStart(s, cs, 0, |s|)]
  }

  /**
   * `s.strip(chars)`: the middle of `s` between the leading and the trailing
   * runs of characters in `cs`.
   */
  function Strip(s: string, cs: set<char>): (r: string)
    ensures |r| <= |s|
    ensures r != [] ==> r[0] !in cs && r[|r| - 1] !in cs
  {
    var i := LeadEnd(s, cs, 0);
    s[i..TrailStart(s, cs, i, |s|)]
  }

  /**
   * Nothing is left exactly when every character is one of `cs`; otherwise
   * what is left runs from the first to the last character not in `cs`.
   */
  lemma StripMeaning(s: string, cs: set<char>)
    ensures Strip(s, cs) == [] <==> forall k :: 0 <= k < |s| ==> s[k] in cs
    ensures Strip(s, cs) != [] ==>
              exists i, j :: 0 <= i < j <= |s| && Strip(s, cs) == s[i..j]
                             && (forall k :: 0 <= k < i ==> s[k] in cs)
                             && (forall k :: j <= k < |s| ==> s[k] in cs)
                             && s[i] !in cs && s[j - 1] !in cs
  {
    var i := LeadEnd(s, cs, 0);
    var j := TrailStart(s, cs, i, |s|);
    if i == j {
      forall k | 0 <= k < |s| ensures s[k] in cs {
        assert k < i || j <= k;
      }
    } else {
      SliceEnds(s, i, j);
    }
  }

  /** A string whose two ends are not in `cs` is left as it is. */
  lemma StripUntouched(s: string, cs: set<char>)
    requires s != [] && s[0] !in cs && s[|s| - 1] !in cs
    ensures Strip(s, cs) == s
  {
    assert LeadEnd(s, cs, 0) == 0;
    assert TrailStart(s, cs, 0, |s|) == |s|;
  }

  lemma SliceEnds(s: string, i: nat, j: nat)
    requires i < j <= |s|
    ensures |s[i..j]| == j - i && s[i..j][0] == s[i] && s[i..j][j - i - 1] == s[j - 1]
  {
  }

  // ---------------------------------------------------------------------------
  // str.split() with no separator

  /** Length of the run of non-whitespace characters that starts `s`. */
  function WordLength(s: string): (n: nat)
    ensures n <= |s|
    ensures forall i :: 0 <= i < n ==> s[i] !in Space
    ensures n < |s| ==> s[n] in Space
    decreases |s|
  {
    if s == [] || s[0] in Space then 0 else 1 + WordLength(s[1..])
  }

  predicate NoSpace(w: string) {
    forall i :: 0 <= i < |w| ==> w[i] !in Space
  }

  /** `s.split()`: the maximal runs of characters outside `Space`, in order. */
  function Split(s: string): (words: seq<string>)
    ensures forall k :: 0 <= k < |words| ==> words[k] != [] && NoSpace(words[k])
    decreases |s|
  {
    if s == [] then []
    else if s[0] in Space then Split(s[1..])
    else
      var n := WordLength(s);
      [s[..n]] + Split(s[n..])
  }

  function Concat(ws: seq<string>): string {
    if ws == [] then [] else ws[0] + Concat(ws[1..])
  }

  function RemoveSpace(s: string): (r: string)
    ensures NoSpace(r)
  {
    if s == [] then []
    else if s[0] in Space then RemoveSpace(s[1..])
    else [s[0]] + RemoveSpace(s[1..])
  }

  lemma RemoveSpaceAppend(a: string, b: string)
    ensures RemoveSpace(a + b) == RemoveSpace(a) + RemoveSpace(b)
  {
    if a != [] {
      assert (a + b)[1..] == a[1..] + b;
      RemoveSpaceAppend(a[1..], b);
    } else {
      assert a + b == b;
    }
  }

  lemma RemoveSpaceOfWord(w: string)
    requires NoSpace(w)
    ensures RemoveSpace(w) == w
  {
    if w != [] {
      RemoveSpaceOfWord(w[1..]);
    }
  }

  /** Splitting loses exactly the whitespace: the words, glued together, are `s` without it. */
  lemma {:induction false} SplitKeepsText(s: string)
    ensures Concat(Split(s)) == RemoveSpace(s)
    decreases |s|
  {
    if s == [] {
    } else if s[0] in Space {
      SplitKeepsText(s[1..]);
    } else {
      var n := WordLength(s);
      assert s == s[..n] + s[n..];
      SplitKeepsText(s[n..]);
      RemoveSpaceAppend(s[..n], s[n..]);
      RemoveSpaceOfWord(s[..n]);
      assert Split(s) == [s[..n]] + Split(s[n..]);
      assert ([s[..n]] + Split(s[n..]))[1..] == Split(s[n..]);
    }
  }

  /** `sep.join(ws)`. */
  function Join(ws: seq<string>, sep: string): string
    decreases |ws|
  {
    if ws == [] then [] else if |ws| == 1 then ws[0] else ws[0] + sep + Join(ws[1..], sep)
  }

  /** A leading word ends at the first whitespace character and becomes the first element. */
  lemma SplitWord(w: string, rest: string)
    requires w != [] && NoSpace(w)
    requires rest == [] || rest[0] in Space
    ensures Split(w + rest) == [w] + Split(rest)
  {
    var s := w + rest;
    WordLengthOf(w, rest);
    assert s[..|w|] == w && s[|w|..] == rest;
  }

  lemma {:induction false} WordLengthOf(w: string, rest: string)
    requires NoSpace(w)
    requires rest == [] || rest[0] in Space
    ensures WordLength(w + rest) == |w|
    decreases |w|
  {
    if w != [] {
      assert (w + rest)[1..] == w[1..] + rest;
      WordLengthOf(w[1..], rest);
    } else {
      assert w + rest == rest;
    }
  }

  /** Leading whitespace is skipped. */
  lemma {:induction false} SplitSpaces(sp: string, rest: string)
    requires forall i :: 0 <= i < |sp| ==> sp[i] in Space
    ensures Split(sp + rest) == Split(rest)
    decreases |sp|
  {
    if sp != [] {
      assert (sp + rest)[1..] == sp[1..] + rest;
      SplitSpaces(sp[1..], rest);
    } else {
      assert sp + rest == rest;
    }
  }

  /** A word followed by whitespace is the first word of the split. */
  lemma SplitWordThen(w: string, sp: string, rest: string)
    requires w != [] && NoSpace(w)
    requires sp != [] && forall i :: 0 <= i < |sp| ==> sp[i] in Space
    ensures Split(w + sp + rest) == [w] + Split(rest)
  {
    SplitWord(w, sp + rest);
    SplitSpaces(sp, rest);
    assert w + sp + rest == w + (sp + rest);
  }

  /** A single word splits into itself. */
  lemma SplitSingle(w: string)
    requires w != [] && NoSpace(w)
    ensures Split(w) == [w]
  {
    SplitWord(w, []);
    assert w + [] == w;
  }

  /** Every character of every word is a character of `s`. */
  lemma {:induction false} SplitChars(s: string)
    ensures forall k, i :: 0 <= k < |Split(s)| && 0 <= i < |Split(s)[k]| ==> Split(s)[k][i] in s
    decreases |s|
  {
    if s == [] {
    } else if s[0] in Space {
      SplitChars(s[1..]);
    } else {
      var n := WordLength(s);
      SplitChars(s[n..]);
      var ws := Split(s);
      forall k, i | 0 <= k < |ws| && 0 <= i < |ws[k]| ensures ws[k][i] in s {
        if k == 0 {
          assert ws[0][i] == s[i];
        } else {
          assert ws[k] == Split(s[n..])[k - 1];
          assert ws[k][i] in s[n..];
        }
      }
    }
  }

  /** `s.replace(old, new)` for single characters. */
  function ReplaceChar(s: string, from: char, to: char): (r: string)
    ensures |r| == |s|
    ensures forall i :: 0 <= i < |s| ==> r[i] == (if s[i] == from then to else s[i])
  {
    seq(|s|, i requires 0 <= i < |s| => if s[i] == from then to else s[i])
  }

  /** Replacing a character that does not occur changes nothing. */
  lemma ReplaceAbsent(s: string, from: char, to: char)
    requires from !in s
    ensures ReplaceChar(s, from, to) == s
  {
  }

  // ---------------------------------------------------------------------------
  // Python's comparison of strings: lexicographic by code point

  predicate LexLess(a: string, b: string)
    decreases |a|
  {
    if a == [] then b != []
    else if b == [] then false
    else if a[0] != b[0] then a[0] < b[0]
    else LexLess(a[1..], b[1..])
  }

  predicate LexLe(a: string, b: string) {
    a == b || LexLess(a, b)
  }

  lemma {:induction false} LexLessIrreflexive(a: string)
    ensures !LexLess(a, a)
    decreases |a|
  {
    if a != [] {
      LexLessIrreflexive(a[1..]);
    }
  }

  lemma {:induction false} LexLessTransitive(a: string, b: string, c: string)
    requires LexLess(a, b) && LexLess(b, c)
    ensures LexLess(a, c)
    decreases |a|
  {
    if a != [] && b != [] && c != [] && a[0] == b[0] == c[0] {
      LexLessTransitive(a[1..], b[1..], c[1..]);
    }
  }

  lemma {:induction false} LexLessTotal(a: string, b: string)
    ensures a == b || LexLess(a, b) || LexLess(b, a)
    decreases |a|
  {
    if a != [] && b != [] && a[0] == b[0] {
      LexLessTotal(a[1..], b[1..]);
      if a[1..] == b[1..] {
        assert a == [a[0]] + a[1..] && b == [b[0]] + b[1..];
      }
    }
  }

  lemma LexLessAsymmetric(a: string, b: string)
    requires LexLess(a, b)
    ensures !LexLess(b, a) && a != b
  {
    if LexLess(b, a) {
      LexLessTransitive(a, b, a);
      LexLessIrreflexive(a);
    }
    if a == b {
      LexLessIrreflexive(a);
    }
  }

  lemma LexLeAntisymmetric(a: string, b: string)
    requires LexLe(a, b) && LexLe(b, a)
    ensures a == b
  {
    if a != b {
      LexLessAsymmetric(a, b);
    }
  }

  lemma LexLeTransitive(a: string, b: string, c: string)
    requires LexLe(a, b) && LexLe(b, c)
    ensures LexLe(a, c)
  {
    if a != b && b != c {
      LexLessTransitive(a, b, c);
    }
  }

  // ---------------------------------------------------------------------------
  // Decimal digits: int() on a digit string and format(n, "0Nd")

  predicate IsDigit(c: char) { '0' <= c <= '9' }

  /** A text that this model lets `int()` accept: one or more ASCII digits. */
  predicate IsDigits(s: string) {
    |s| > 0 && forall i :: 0 <= i < |s| ==> IsDigit(s[i])
  }

  function DigitChar(d: nat): (c: char)
    requires d < 10
    ensures IsDigit(c)
  {
    ('0' as int + d) as char
  }

  function DigitOf(c: char): (d: nat)
    requires IsDigit(c)
    ensures d < 10
  {
    c as int - '0' as int
  }

  /** The value of a string of digits, read in base 10. */
  function DigitsValue(s: string): nat
    requires forall i :: 0 <= i < |s| ==> IsDigit(s[i])
  {
    if s == [] then 0
    else
      assert IsDigit(s[|s| - 1]);
      DigitsValue(s[..|s| - 1]) * 10 + DigitOf(s[|s| - 1])
  }

  /** `int(text)` as an option: `None` when the text is absent or is not a number. */
  function ParseInt(text: Option<string>): (r: Option<nat>)
    ensures r.Some? <==> text.Some? && IsDigits(text.value)
  {
    if text.Some? && IsDigits(text.value) then Some(DigitsValue(text.value)) else None
  }

  /** `int(text)` with its exceptions: TypeError on `None`, ValueError on a text that is not a number. */
  function IntOf(text: Option<string>): (r: Result<nat, PyError>)
    ensures r == Err(TypeError) <==> text.None?
    ensures r == Err(ValueError) <==> text.Some? && !IsDigits(text.value)
    ensures r.Ok? ==> ParseInt(text) == Some(r.value)
  {
    match text
    case None => Err(TypeError)
    case Some(t) => if IsDigits(t) then Ok(DigitsValue(t)) else Err(ValueError)
  }

  /** `str(n)`: the shortest decimal form of `n`. */
  function NatToString(n: nat): (s: string)
    ensures IsDigits(s)
    ensures |s| > 1 ==> s[0] != '0'
  {
    if n < 10 then [DigitChar(n)] else NatToString(n / 10) + [DigitChar(n % 10)]
  }

  lemma {:induction false} NatToStringValue(n: nat)
    ensures DigitsValue(NatToString(n)) == n
  {
    if n >= 10 {
      var s := NatToString(n);
      assert s[..|s| - 1] == NatToString(n / 10);
      NatToStringValue(n / 10);
    }
  }

  lemma NatToStringInjective(m: nat, n: nat)
    requires NatToString(m) == NatToString(n)
    ensures m == n
  {
    NatToStringValue(m);
    NatToStringValue(n);
  }

  function Pow10(k: nat): (p: nat)
    ensures p >= 1
  {
    if k == 0 then 1 else 10 * Pow10(k - 1)
  }

  /** A number below `10^k` has at most `k` digits. */
  lemma {:induction false} NatToStringShort(n: nat, k: nat)
    requires k >= 1 && n < Pow10(k)
    ensures |NatToString(n)| <= k
    decreases k
  {
    if n >= 10 && k >= 2 {
      DivTenBelow(n, Pow10(k - 1));
      NatToStringShort(n / 10, k - 1);
    }
  }

  lemma DivTenBelow(n: nat, p: nat)
    requires n < 10 * p
    ensures n / 10 < p
  {
  }

  function Zeros(k: nat): (s: string)
    ensures |s| == k && forall i :: 0 <= i < k ==> s[i] == '0'
  {
    seq(k, _ => '0')
  }

  /** `format(n, "0wd")`: the decimal form of `n`, padded on the left with zeros to width `w`. */
  function ZeroPad(n: nat, w: nat): (s: string)
    ensures IsDigits(s)
    ensures |s| == if |NatToString(n)| < w then w else |NatToString(n)|
  {
    var digits := NatToString(n);
    if |digits| < w then Zeros(w - |digits|) + digits else digits
  }

  lemma {:induction false} LeadingZerosValue(k: nat, s: string)
    requires forall i :: 0 <= i < |s| ==> IsDigit(s[i])
    ensures DigitsValue(Zeros(k) + s) == DigitsValue(s)
    decreases |s|
  {
    var z := Zeros(k) + s;
    if s == [] {
      assert z == Zeros(k);
      ZerosValue(k);
    } else {
      assert z[..|z| - 1] == Zeros(k) + s[..|s| - 1];
      LeadingZerosValue(k, s[..|s| - 1]);
    }
  }

  lemma {:induction false} ZerosValue(k: nat)
    ensures DigitsValue(Zeros(k)) == 0
  {
    if k > 0 {
      assert Zeros(k)[..k - 1] == Zeros(k - 1);
      ZerosValue(k - 1);
    }
  }

  /** Zero padding can be read back: `int(format(n, "0wd")) == n`. */
  lemma ZeroPadValue(n: nat, w: nat)
    ensures DigitsValue(ZeroPad(n, w)) == n
  {
    NatToStringValue(n);
    var digits := NatToString(n);
    if |digits| < w {
      LeadingZerosValue(w - |digits|, digits);
    }
  }
}
