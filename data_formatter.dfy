/**
 * The count parser and the record normaliser of src/helpers/data_formatter.js:
 * `parseHumanNumber`, `normalizeString` and `formatVideoObject`.
 *
 * Numbers are exact: a parsed decimal is kept as an integer mantissa and a
 * power of ten, and `Math.round` is round-half-up on that exact value.
 */
module DataFormatter {
  import opened Wrappers
  import opened JsString
  import opened JsValue
  import opened JsObject

  // ---------------------------------------------------------------------
  // The cleaning pipeline of parseHumanNumber
  // ---------------------------------------------------------------------

  /**
   * `s.replace(/views?/gi, '')` with w = "view", and the same with
   * w = "subscriber": scanning left to right, each case-insensitive
   * occurrence of `w` is removed together with one s or S right after it.
   */
  function StripWord(s: string, w: string): (r: string)
    requires w != []
    ensures |r| <= |s|
    decreases |s|
  {
    if |s| < |w| then s
    else if MatchesAt(s, 0, w) then
      var rest := s[|w|..];
      if rest != [] && Lower(rest[0]) == 's' then StripWord(rest[1..], w) else StripWord(rest, w)
    else [s[0]] + StripWord(s[1..], w)
  }

  /**
   * The characters `[\d.,KMGBkmb]` admits: ASCII digits, '.', ',' and the
   * letters K, M, G, B, k, m, b. A lower-case g is not among them.
   */
  predicate IsCountChar(c: char) {
    || IsDigit(c) || c == '.' || c == ','
    || c == 'K' || c == 'M' || c == 'G' || c == 'B' || c == 'k' || c == 'm' || c == 'b'
  }

  /** No character the cleaning keeps is white space. */
  lemma CountCharIsNotSpace(c: char)
    requires IsCountChar(c)
    ensures !IsSpace(c)
  {
  }

  /** `s.replace(/[^\d.,KMGBkmb]/g, '')` */
  function KeepCountChars(s: string): (r: string)
    ensures forall i :: 0 <= i < |r| ==> IsCountChar(r[i])
  {
    if s == [] then []
    else (if IsCountChar(s[0]) then [s[0]] else []) + KeepCountChars(s[1..])
  }

  /** `s.replace(/,/g, '')` */
  function RemoveCommas(s: string): (r: string)
    ensures forall i :: 0 <= i < |r| ==> r[i] != ','
    ensures forall i :: 0 <= i < |s| && s[i] != ',' ==> s[i] in r
    ensures forall i :: 0 <= i < |r| ==> r[i] in s
  {
    if s == [] then []
    else (if s[0] == ',' then [] else [s[0]]) + RemoveCommas(s[1..])
  }

  /** A string made only of characters the cleaning keeps, and no comma. */
  predicate IsCleanText(s: string) {
    forall i :: 0 <= i < |s| ==> IsCountChar(s[i]) && s[i] != ','
  }

  /**
   * The cleaning pipeline: strip the words, keep the count characters, drop
   * the commas, trim. The final trim has nothing left to remove.
   */
  function Clean(str: string): (r: string)
    ensures IsCleanText(r)
  {
    var kept := RemoveCommas(KeepCountChars(StripWord(StripWord(str, "view"), "subscriber")));
    assert forall i :: 0 <= i < |kept| ==> IsCountChar(kept[i]) by {
      var k := KeepCountChars(StripWord(StripWord(str, "view"), "subscriber"));
      forall i | 0 <= i < |kept| ensures IsCountChar(kept[i]) {
        assert kept[i] in k;
      }
    }
    TrimUnchanged(kept);
    Trim(kept)
  }

  /** What remains of `input` when parseHumanNumber reaches its pattern match. */
  function CleanedText(input: Value): (r: string)
    ensures IsCleanText(r)
  {
    if IsNullish(input) then [] else Clean(Trim(ToJsString(input)))
  }

  // ---------------------------------------------------------------------
  // The strict pattern, parseFloat and parseInt
  // ---------------------------------------------------------------------

  /** A unit letter the strict pattern accepts: `[KMB]` under the `i` flag. */
  predicate IsUnit(c: char) {
    c == 'K' || c == 'M' || c == 'B' || c == 'k' || c == 'm' || c == 'b'
  }

  /** `[\d.]+` */
  predicate IsNumeral(s: string) {
    s != [] && forall i :: 0 <= i < |s| ==> IsDigit(s[i]) || s[i] == '.'
  }

  /**
   * `cleaned.match(/^([\d.]+)\s*([KMB])?$/i)` on a cleaned string (which has
   * no white space): the numeral and the unit letter when the whole string
   * matches.
   */
  function StrictMatch(c: string): (r: Option<(string, Option<char>)>)
    ensures r.Some? ==> IsNumeral(r.value.0)
    ensures r.Some? && r.value.1.Some? ==> IsUnit(r.value.1.value) && c == r.value.0 + [r.value.1.value]
    ensures r.Some? && r.value.1.None? ==> c == r.value.0
    ensures r.None? ==> !IsNumeral(c) && !(c != [] && IsUnit(c[|c| - 1]) && IsNumeral(c[..|c| - 1]))
  {
    if c != [] && IsUnit(c[|c| - 1]) && IsNumeral(c[..|c| - 1]) then Some((c[..|c| - 1], Some(c[|c| - 1])))
    else if IsNumeral(c) then Some((c, None))
    else None
  }

  /** The non-negative number `mantissa / 10^scale`. */
  datatype Decimal = Decimal(mantissa: nat, scale: nat)

  function Pow10(k: nat): (r: nat)
    ensures r >= 1
  {
    if k == 0 then 1 else 10 * Pow10(k - 1)
  }

  /**
   * `parseFloat(num)` on a numeral: the longest prefix of the form
   * digits, optionally '.', digits. None (NaN) when that prefix holds no
   * digit, which happens exactly when the numeral starts with '.' and no
   * digit follows it.
   */
  function ParseFloatPrefix(num: string): (r: Option<Decimal>)
    ensures r.None? <==> !(num != [] && IsDigit(num[0])) && !(|num| >= 2 && num[0] == '.' && IsDigit(num[1]))
  {
    var ip := LeadingDigits(num);
    var rest := num[|ip|..];
    var fp := if rest != [] && rest[0] == '.' then LeadingDigits(rest[1..]) else [];
    if ip == [] && fp == [] then None
    else
      assert AllDigits(ip + fp) by {
        forall i | 0 <= i < |ip + fp| ensures IsDigit((ip + fp)[i]) {
          if i >= |ip| { assert (ip + fp)[i] == fp[i - |ip|]; }
        }
      }
      Some(Decimal(DigitsValue(ip + fp), |fp|))
  }

  /** `m` times the unit's multiplier: K, M, B (either case) are 10^3, 10^6, 10^9. */
  function Scale(m: nat, unit: Option<char>): nat {
    if unit == Some('K') || unit == Some('k') then m * 1000
    else if unit == Some('M') || unit == Some('m') then m * 1000000
    else if unit == Some('B') || unit == Some('b') then m * 1000000000
    else m
  }

  /** Without a unit letter nothing is multiplied. */
  lemma ScaleWithoutUnit(m: nat)
    ensures Scale(m, None) == m
  {
  }

  /** `Math.round(x / p)` for a non-negative quotient, computed exactly. */
  function RoundHalfUp(x: nat, p: nat): nat
    requires p >= 1
  {
    (2 * x + p) / (2 * p)
  }

  /** RoundHalfUp gives the integer nearest to x / p, a half rounded up. */
  lemma RoundHalfUpIsNearest(x: nat, p: nat)
    requires p >= 1
    ensures var r := RoundHalfUp(x, p);
      r * (2 * p) <= 2 * x + p < r * (2 * p) + 2 * p
  {
    DivisionBounds(2 * x + p, 2 * p);
  }

  /** Dividing by one rounds nothing. */
  lemma RoundHalfUpByOne(x: nat)
    ensures RoundHalfUp(x, Pow10(0)) == x
  {
    DivisionBounds(2 * x + 1, 2);
  }

  lemma DivisionBounds(a: nat, m: nat)
    requires m > 0
    ensures (a / m) * m <= a < (a / m) * m + m
  {
  }

  /**
   * The tail of `parseHumanNumber`, from the emptiness test on the cleaned
   * text on: the strict pattern with parseFloat and the unit multiplier,
   * else the parseInt fallback. The result is null, NaN, or a non-negative
   * integer: no minus sign survives the cleaning.
   */
  function ParseCleaned(cleaned: string): (r: Value)
    ensures r == Null || r == NaN || (r.Num? && r.n >= 0)
    ensures cleaned == [] ==> r == Null
  {
    if cleaned == [] then Null
    else
      match StrictMatch(cleaned)
      case None =>
        // parseInt(cleaned, 10): the leading digits, NaN (here null) if none
        var ds := LeadingDigits(cleaned);
        if ds == [] then Null else Num(DigitsValue(ds))
      case Some((num, unit)) =>
        match ParseFloatPrefix(num)
        case None => NaN
        case Some(d) => Num(RoundHalfUp(Scale(d.mantissa, unit), Pow10(d.scale)))
  }

  /** `parseHumanNumber(input)`. */
  function ParseHumanNumber(input: Value): (r: Value)
    ensures r == Null || r == NaN || (r.Num? && r.n >= 0)
    ensures IsNullish(input) ==> r == Null
    ensures !IsNullish(input) && Trim(ToJsString(input)) == [] ==> r == Null
  {
    if IsNullish(input) then Null
    else
      var str := Trim(ToJsString(input));
      if str == [] then Null else ParseCleaned(Clean(str))
  }

  // ---------------------------------------------------------------------
  // Facts about the cleaning pipeline
  // ---------------------------------------------------------------------

  /** A character that cannot start the word is kept and the scan moves on. */
  lemma StripWordNoMatch(s: string, w: string)
    requires w != [] && s != [] && Lower(s[0]) != w[0]
    ensures StripWord(s, w) == [s[0]] + StripWord(s[1..], w)
  {
    if |s| >= |w| {
      assert !MatchesAt(s, 0, w);
    }
  }

  /** StripWord passes over a prefix in which no character could start the word. */
  lemma {:induction false} StripWordSkipsPrefix(a: string, b: string, w: string)
    requires w != []
    requires forall i :: 0 <= i < |a| ==> Lower(a[i]) != w[0]
    ensures StripWord(a + b, w) == a + StripWord(b, w)
    decreases |a|
  {
    if a == [] {
      assert a + b == b;
    } else {
      var s := a + b;
      assert s[0] == a[0] && s[1..] == a[1..] + b;
      StripWordNoMatch(s, w);
      StripWordSkipsPrefix(a[1..], b, w);
      HeadTailAppend(a, StripWord(b, w));
    }
  }

  lemma {:induction false} KeepCountCharsAppend(a: string, b: string)
    ensures KeepCountChars(a + b) == KeepCountChars(a) + KeepCountChars(b)
    decreases |a|
  {
    if a == [] {
      assert a + b == b;
    } else {
      assert (a + b)[1..] == a[1..] + b;
      KeepCountCharsAppend(a[1..], b);
    }
  }

  lemma {:induction false} KeepCountCharsUnchanged(s: string)
    requires forall i :: 0 <= i < |s| ==> IsCountChar(s[i])
    ensures KeepCountChars(s) == s
    decreases |s|
  {
    if s != [] {
      KeepCountCharsUnchanged(s[1..]);
    }
  }

  lemma {:induction false} RemoveCommasUnchanged(s: string)
    requires forall i :: 0 <= i < |s| ==> s[i] != ','
    ensures RemoveCommas(s) == s
    decreases |s|
  {
    if s != [] {
      RemoveCommasUnchanged(s[1..]);
    }
  }

  /** Neither stripped word can start inside count text: it has no v and no s. */
  lemma StripWordsKeepCountText(s: string)
    requires forall i :: 0 <= i < |s| ==> IsCountChar(s[i])
    ensures StripWord(StripWord(s, "view"), "subscriber") == s
  {
    CountTextHasNoWordLetter(s);
    StripWordSkipsPrefix(s, [], "view");
    StripWordSkipsPrefix(s, [], "subscriber");
    assert s + [] == s;
  }

  lemma CountTextHasNoWordLetter(s: string)
    requires forall i :: 0 <= i < |s| ==> IsCountChar(s[i])
    ensures forall i :: 0 <= i < |s| ==> Lower(s[i]) != 'v' && Lower(s[i]) != 's'
  {
  }

  /** Count text without commas passes through the whole cleaning unchanged. */
  lemma CleanKeepsCleanText(s: string)
    requires IsCleanText(s)
    ensures Clean(s) == s
  {
    StripWordsKeepCountText(s);
    KeepCountCharsUnchanged(s);
    RemoveCommasUnchanged(s);
    TrimUnchanged(s);
  }

  lemma {:induction false} LeadingDigitsOfDigits(a: string, b: string)
    requires AllDigits(a)
    requires b == [] || !IsDigit(b[0])
    ensures LeadingDigits(a + b) == a
    decreases |a|
  {
    if a == [] {
      assert a + b == b;
    } else {
      assert (a + b)[1..] == a[1..] + b;
      LeadingDigitsOfDigits(a[1..], b);
    }
  }

  // ---------------------------------------------------------------------
  // What parseHumanNumber computes
  // ---------------------------------------------------------------------

  /** Cleaning the empty string leaves it empty. */
  lemma CleanEmpty()
    ensures Clean([]) == []
  {
    CleanKeepsCleanText([]);
  }

  /**
   * The two early returns agree with the later emptiness test, so the
   * result is the tail applied to the cleaned text.
   */
  lemma ParseHumanNumberReadsCleanedText(input: Value)
    ensures ParseHumanNumber(input) == ParseCleaned(CleanedText(input))
  {
    CleanEmpty();
  }

  /** Text already in cleaned form goes straight to the tail. */
  lemma ParseOfCleanText(text: string)
    requires IsCleanText(text)
    ensures ParseHumanNumber(Str(text)) == ParseCleaned(text)
  {
    TrimUnchanged(text);
    CleanKeepsCleanText(text);
  }

  /** A string with nothing to trim goes straight to the cleaning. */
  lemma ParseOfTrimmedText(text: string)
    requires text != [] && Trim(text) == text
    ensures ParseHumanNumber(Str(text)) == ParseCleaned(Clean(text))
  {
  }

  /** Count text has nothing to trim. */
  lemma CountTextTrimmed(s: string)
    requires forall i :: 0 <= i < |s| ==> IsCountChar(s[i])
    ensures Trim(s) == s
  {
    if s != [] {
      CountCharIsNotSpace(s[0]);
      CountCharIsNotSpace(s[|s| - 1]);
    }
    TrimUnchanged(s);
  }

  /**
   * The tail yields null exactly when the text is empty, or fails the
   * strict pattern and does not start with a digit.
   */
  lemma ParseCleanedIsNull(c: string)
    ensures ParseCleaned(c) == Null <==> c == [] || (StrictMatch(c).None? && LeadingDigits(c) == [])
  {
  }

  /**
   * The tail yields NaN only through the float quirk: the text matches the
   * strict pattern but starts with a '.' that no digit follows (".", "..",
   * ".K").
   */
  lemma ParseCleanedIsNaN(c: string)
    ensures ParseCleaned(c) == NaN <==>
      StrictMatch(c).Some? && c[0] == '.' && !(|c| >= 2 && IsDigit(c[1]))
  {
    if StrictMatch(c).Some? {
      var num := StrictMatch(c).value.0;
      assert c[..|num|] == num;
    }
  }

  /**
   * parseHumanNumber is null exactly when nothing is left after cleaning,
   * or the leftover fails the strict pattern and does not start with a digit.
   */
  lemma ParseHumanNumberIsNull(input: Value)
    ensures ParseHumanNumber(input) == Null <==>
      var c := CleanedText(input);
      c == [] || (StrictMatch(c).None? && LeadingDigits(c) == [])
  {
    ParseHumanNumberReadsCleanedText(input);
    ParseCleanedIsNull(CleanedText(input));
  }

  /** parseHumanNumber is NaN exactly when the cleaned text shows the float quirk. */
  lemma ParseHumanNumberIsNaN(input: Value)
    ensures ParseHumanNumber(input) == NaN <==>
      var c := CleanedText(input);
      StrictMatch(c).Some? && c[0] == '.' && !(|c| >= 2 && IsDigit(c[1]))
  {
    ParseHumanNumberReadsCleanedText(input);
    ParseCleanedIsNaN(CleanedText(input));
  }

  /** The count text of a digit string, with a unit letter when one is given. */
  function WithUnit(num: string, unit: Option<char>): string {
    if unit.Some? then num + [unit.value] else num
  }

  /** A numeral with an optional unit letter matches the strict pattern. */
  lemma StrictMatchWithUnit(num: string, unit: Option<char>)
    requires IsNumeral(num)
    requires unit.None? || IsUnit(unit.value)
    ensures IsCleanText(WithUnit(num, unit))
    ensures StrictMatch(WithUnit(num, unit)) == Some((num, unit))
  {
    var text := WithUnit(num, unit);
    if unit.Some? {
      assert text[..|text| - 1] == num;
    }
  }

  /** parseFloat of a digit string is its value. */
  lemma ParseFloatOfDigits(ds: string)
    requires ds != [] && AllDigits(ds)
    ensures ParseFloatPrefix(ds) == Some(Decimal(DigitsValue(ds), 0))
  {
    LeadingDigitsOfDigits(ds, []);
    assert ds + [] == ds;
    assert ds[|ds|..] == [];
  }

  /** parseFloat of "ip.fp": the digits read as one integer, scaled by 10^|fp|. */
  lemma ParseFloatOfDecimal(ip: string, fp: string)
    requires AllDigits(ip) && fp != [] && AllDigits(fp)
    ensures AllDigits(ip + fp)
    ensures ParseFloatPrefix(ip + "." + fp) == Some(Decimal(DigitsValue(ip + fp), |fp|))
  {
    var num := ip + "." + fp;
    assert num == ip + ("." + fp);
    LeadingDigitsOfDigits(ip, "." + fp);
    assert num[|ip|..] == "." + fp;
    assert ("." + fp)[1..] == fp;
    LeadingDigitsOfDigits(fp, []);
    assert fp + [] == fp;
  }

  /** "ip.fp" is a numeral. */
  lemma DecimalIsNumeral(ip: string, fp: string)
    requires AllDigits(ip) && AllDigits(fp)
    ensures IsNumeral(ip + "." + fp)
  {
    var num := ip + "." + fp;
    forall i | 0 <= i < |num| ensures IsDigit(num[i]) || num[i] == '.' {
      if i < |ip| { assert num[i] == ip[i]; }
      else if i > |ip| { assert num[i] == fp[i - |ip| - 1]; }
    }
  }

  /** A digit string, with or without a unit letter, scales exactly. */
  lemma ParsesIntegerWithUnit(ds: string, unit: Option<char>)
    requires ds != [] && AllDigits(ds)
    requires unit.None? || IsUnit(unit.value)
    ensures ParseHumanNumber(Str(WithUnit(ds, unit))) == Num(Scale(DigitsValue(ds), unit))
  {
    StrictMatchWithUnit(ds, unit);
    ParseOfCleanText(WithUnit(ds, unit));
    ParseFloatOfDigits(ds);
    RoundHalfUpByOne(Scale(DigitsValue(ds), unit));
  }

  /**
   * A decimal "ip.fp" with an optional unit: the exact value times the
   * multiplier, rounded half up ("1.4K" is 1400, "27.2M" is 27200000).
   */
  lemma ParsesDecimalWithUnit(ip: string, fp: string, unit: Option<char>)
    requires AllDigits(ip) && fp != [] && AllDigits(fp)
    requires unit.None? || IsUnit(unit.value)
    ensures AllDigits(ip + fp)
    ensures ParseHumanNumber(Str(WithUnit(ip + "." + fp, unit)))
      == Num(RoundHalfUp(Scale(DigitsValue(ip + fp), unit), Pow10(|fp|)))
  {
    DecimalIsNumeral(ip, fp);
    StrictMatchWithUnit(ip + "." + fp, unit);
    ParseOfCleanText(WithUnit(ip + "." + fp, unit));
    ParseFloatOfDecimal(ip, fp);
  }

  /**
   * A G suffix is kept by the cleaning but refused by the strict pattern,
   * so the parseInt fallback reads the digits alone: "12G" is 12.
   */
  lemma GSuffixIsNotMultiplied(ds: string)
    requires ds != [] && AllDigits(ds)
    ensures ParseHumanNumber(Str(ds + "G")) == Num(DigitsValue(ds))
  {
    GSuffixFailsStrictMatch(ds);
    ParseOfCleanText(ds + "G");
    LeadingDigitsOfDigits(ds, "G");
  }

  lemma GSuffixFailsStrictMatch(ds: string)
    requires ds != [] && AllDigits(ds)
    ensures IsCleanText(ds + "G")
    ensures StrictMatch(ds + "G").None?
  {
    var text := ds + "G";
    assert text[|text| - 1] == 'G';
    assert !IsNumeral(text);
  }

  /** On count text the cleaning only drops the commas. */
  lemma CleanOfCountText(s: string)
    requires forall i :: 0 <= i < |s| ==> IsCountChar(s[i])
    ensures Clean(s) == RemoveCommas(s)
  {
    StripWordsKeepCountText(s);
    KeepCountCharsUnchanged(s);
    var rc := RemoveCommas(s);
    assert forall i :: 0 <= i < |rc| ==> IsCountChar(rc[i]) by {
      forall i | 0 <= i < |rc| ensures IsCountChar(rc[i]) {
        assert rc[i] in s;
      }
    }
    if rc != [] {
      CountCharIsNotSpace(rc[0]);
      CountCharIsNotSpace(rc[|rc| - 1]);
    }
    TrimUnchanged(rc);
  }

  /** Digits grouped by thousands separators read as the digits alone. */
  lemma ThousandsSeparatorsIgnored(s: string)
    requires forall i :: 0 <= i < |s| ==> IsDigit(s[i]) || s[i] == ','
    requires exists i :: 0 <= i < |s| && IsDigit(s[i])
    ensures AllDigits(RemoveCommas(s))
    ensures ParseHumanNumber(Str(s)) == Num(DigitsValue(RemoveCommas(s)))
  {
    var ds := RemoveCommas(s);
    var i :| 0 <= i < |s| && IsDigit(s[i]);
    assert s[i] in ds;
    assert forall c :: c in ds ==> IsDigit(c);
    CleanOfCountText(s);
    CountTextTrimmed(s);
    ParseOfTrimmedText(s);
    assert ParseHumanNumber(Str(s)) == ParseCleaned(ds);
    ParsesIntegerWithUnit(ds, None);
    assert WithUnit(ds, None) == ds;
    ParseOfCleanText(ds);
    assert ParseHumanNumber(Str(ds)) == ParseCleaned(ds);
    ScaleWithoutUnit(DigitsValue(ds));
    assert ParseCleaned(ds) == Num(DigitsValue(ds));
  }

  /** The words the cleaning strips: "subscriber" or "view". */
  function StrippedWord(subscriber: bool): (w: string)
    ensures w != [] && forall k :: 0 <= k < |w| ==> 'a' <= w[k] <= 'z'
  {
    if subscriber then "subscriber" else "view"
  }

  /** `u` is the lower-case word `w` written in any mix of letter cases. */
  predicate Spells(u: string, w: string) {
    |u| == |w| && MatchesAt(u, 0, w)
  }

  /** What may follow the word: nothing, or one s or S. */
  predicate PluralSuffix(tail: string) {
    tail == [] || (|tail| == 1 && Lower(tail[0]) == 's')
  }

  /** A count word as written after a count: a space, the word, an optional plural s. */
  function CountWord(u: string, tail: string): string {
    " " + (u + tail)
  }

  /** A character that folds to an ASCII lower-case letter is not white space. */
  lemma LetterIsNotSpace(c: char)
    requires 'a' <= Lower(c) <= 'z'
    ensures !IsSpace(c)
  {
  }

  /** A spelling of the word, alone or with a plural s in either case, is stripped entirely. */
  lemma StripWholeWord(w: string, u: string, tail: string)
    requires w != [] && Spells(u, w) && PluralSuffix(tail)
    ensures StripWord(u + tail, w) == []
  {
    var s := u + tail;
    assert MatchesAt(s, 0, w) by {
      forall k | 0 <= k < |w| ensures Lower(s[k]) == w[k] {
        assert s[k] == u[k];
      }
    }
    assert s[|w|..] == tail;
  }

  /** A separated word, alone or plural, leaves its space when stripped. */
  lemma StripSeparatedWord(w: string, u: string, tail: string)
    requires w != [] && w[0] != ' ' && Spells(u, w) && PluralSuffix(tail)
    ensures StripWord(CountWord(u, tail), w) == " "
  {
    StripWordSkipsPrefix(" ", u + tail, w);
    StripWholeWord(w, u, tail);
    assert " " + [] == " ";
  }

  /** " view" and " VIEWS" lose the word to the first strip; the second has nothing left to match. */
  lemma ViewWordStripped(u: string, tail: string)
    requires Spells(u, "view") && PluralSuffix(tail)
    ensures StripWord(StripWord(CountWord(u, tail), "view"), "subscriber") == " "
  {
    StripSeparatedWord("view", u, tail);
  }

  /** " Subscriber" and " subscribers" pass the first strip and lose the word to the second. */
  lemma SubscriberWordStripped(u: string, tail: string)
    requires Spells(u, "subscriber") && PluralSuffix(tail)
    ensures StripWord(StripWord(CountWord(u, tail), "view"), "subscriber") == " "
  {
    var word := CountWord(u, tail);
    forall i | 0 <= i < |word| ensures Lower(word[i]) != 'v' {
      if 1 <= i <= |u| {
        assert word[i] == u[i - 1];
        assert Lower(u[i - 1]) == "subscriber"[i - 1];
      }
    }
    StripWordSkipsPrefix(word, [], "view");
    assert word + [] == word;
    StripSeparatedWord("subscriber", u, tail);
  }

  /** Of a separated count word, in any letter case, only the space survives the two strips. */
  lemma CountWordStripped(subscriber: bool, u: string, tail: string)
    requires Spells(u, StrippedWord(subscriber)) && PluralSuffix(tail)
    ensures StripWord(StripWord(CountWord(u, tail), "view"), "subscriber") == " "
  {
    if subscriber {
      SubscriberWordStripped(u, tail);
    } else {
      ViewWordStripped(u, tail);
    }
  }

  /** Stripping the words from count text followed by a count word leaves the text and a space. */
  lemma StripWordsOfCountWord(s: string, subscriber: bool, u: string, tail: string)
    requires forall i :: 0 <= i < |s| ==> IsCountChar(s[i])
    requires Spells(u, StrippedWord(subscriber)) && PluralSuffix(tail)
    ensures StripWord(StripWord(s + CountWord(u, tail), "view"), "subscriber") == s + " "
  {
    var word := CountWord(u, tail);
    CountTextHasNoWordLetter(s);
    StripWordSkipsPrefix(s, word, "view");
    StripWordSkipsPrefix(s, StripWord(word, "view"), "subscriber");
    CountWordStripped(subscriber, u, tail);
  }

  /** Cleaning drops a count word, in any letter case, that follows count text. */
  lemma CleanIgnoresCountWord(s: string, subscriber: bool, u: string, tail: string)
    requires forall i :: 0 <= i < |s| ==> IsCountChar(s[i])
    requires Spells(u, StrippedWord(subscriber)) && PluralSuffix(tail)
    ensures Clean(s + CountWord(u, tail)) == Clean(s)
  {
    StripWordsOfCountWord(s, subscriber, u, tail);
    KeepCountCharsAppend(s, " ");
    KeepCountCharsUnchanged(s);
    assert s + [] == s;
    CleanOfCountText(s);
  }

  /** The last character of a count word is a letter, never white space. */
  lemma CountWordEndsInLetter(w: string, u: string, tail: string)
    requires w != [] && (forall k :: 0 <= k < |w| ==> 'a' <= w[k] <= 'z')
    requires Spells(u, w) && PluralSuffix(tail)
    ensures var word := CountWord(u, tail); !IsSpace(word[|word| - 1])
  {
    var word := CountWord(u, tail);
    if tail == [] {
      assert word[|word| - 1] == u[|u| - 1];
      assert Lower(u[|u| - 1]) == w[|w| - 1];
      LetterIsNotSpace(u[|u| - 1]);
    } else {
      assert word[|word| - 1] == tail[0];
      LetterIsNotSpace(tail[0]);
    }
  }

  /**
   * A count word after a count written in count characters (" view",
   * " Views", " subscriber", " SUBSCRIBERS", any letter case) changes nothing.
   */
  lemma WordSuffixIgnored(s: string, subscriber: bool, u: string, tail: string)
    requires s != [] && forall i :: 0 <= i < |s| ==> IsCountChar(s[i])
    requires Spells(u, StrippedWord(subscriber)) && PluralSuffix(tail)
    ensures ParseHumanNumber(Str(s + CountWord(u, tail))) == ParseHumanNumber(Str(s))
  {
    CleanIgnoresCountWord(s, subscriber, u, tail);
    CountWordEndsInLetter(StrippedWord(subscriber), u, tail);
    SuffixLostInCleaning(s, CountWord(u, tail));
  }

  /** A suffix that does not end in white space and that the cleaning drops leaves the parse unchanged. */
  lemma SuffixLostInCleaning(s: string, word: string)
    requires s != [] && forall i :: 0 <= i < |s| ==> IsCountChar(s[i])
    requires word != [] && !IsSpace(word[|word| - 1])
    requires Clean(s + word) == Clean(s)
    ensures ParseHumanNumber(Str(s + word)) == ParseHumanNumber(Str(s))
  {
    CountCharIsNotSpace(s[0]);
    assert (s + word)[0] == s[0];
    assert (s + word)[|s + word| - 1] == word[|word| - 1];
    TrimUnchanged(s + word);
    CountTextTrimmed(s);
    ParseOfTrimmedText(s + word);
    ParseOfTrimmedText(s);
  }

  // ---------------------------------------------------------------------
  // normalizeString
  // ---------------------------------------------------------------------

  /**
   * `normalizeString(value)`: null for null and undefined, otherwise the
   * trimmed text, with the empty result mapped to null. It never returns "".
   */
  function NormalizeString(value: Value): (r: Option<string>)
    ensures r.None? <==> IsNullish(value) || Trim(ToJsString(value)) == []
    ensures r.Some? ==> r.value != [] && r.value == Trim(ToJsString(value))
    ensures r.Some? ==> Trim(r.value) == r.value
  {
    if IsNullish(value) then None
    else
      var str := Trim(ToJsString(value));
      TrimIdempotent(ToJsString(value));
      if str == [] then None else Some(str)
  }

  /** Normalising a normalised string gives it back. */
  lemma {:induction false} NormalizeStringIdempotent(value: Value)
    ensures var r := NormalizeString(value);
      r.Some? ==> NormalizeString(Str(r.value)) == r
  {
    var r := NormalizeString(value);
    if r.Some? {
      var x := r.value;
      assert ToJsString(Str(x)) == x;
      assert Trim(x) == x && x != [];
    }
  }

  // ---------------------------------------------------------------------
  // formatVideoObject
  // ---------------------------------------------------------------------

  /**
   * The nested `channelInfo` of a raw record. `links` holds the entries of
   * the raw `links` object in enumeration order, or None when that field
   * is falsy or not an object.
   */
  datatype RawChannelInfo = RawChannelInfo(
    activeFrom: Value,
    viewCounter: Value,
    channelDescription: Value,
    country: Value,
    links: Option<seq<(string, Value)>>)

  /** The raw field bag the scraper hands over; an absent field is Undefined. */
  datatype RawVideo = RawVideo(
    title: Value,
    author: Value,
    videoUrl: Value,
    coverImage: Value,
    subscriberCount: Value,
    subscriberCountText: Value,
    likeCount: Value,
    likeCountText: Value,
    description: Value,
    viewCount: Value,
    viewCountText: Value,
    commentCount: Value,
    commentCountText: Value,
    publishedAt: Value,
    id: Value,
    amountOfVideos: Value,
    profilePicture: Value,
    transcript: Value,
    channelInfo: Option<RawChannelInfo>)

  datatype ChannelInfo = ChannelInfo(
    activeFrom: Option<string>,
    viewCounter: Option<string>,
    channelDescription: Option<string>,
    country: Option<string>,
    links: seq<(string, string)>)

  /** The output record; its fields are in the order the source writes them. */
  datatype Video = Video(
    title: Option<string>,
    author: Option<string>,
    videoUrl: Option<string>,
    coverImage: Option<string>,
    subscriberCount: Value,
    likeCount: Value,
    description: Option<string>,
    viewCount: Value,
    commentCount: Value,
    publishedAt: Option<string>,
    id: Option<string>,
    amountOfVideos: Value,
    profilePicture: Option<string>,
    transcript: Option<string>,
    channelInfo: Option<ChannelInfo>)

  /** The error `formatVideoObject` throws. */
  datatype FormatError = MissingVideoUrl

  /** A count: the numeric field unless it is null or undefined, else the parsed text field. */
  function CountField(numeric: Value, text: Value): Value {
    if !IsNullish(numeric) then numeric else ParseHumanNumber(text)
  }

  /**
   * The `links` object the `forEach` over the raw entries leaves behind:
   * each truthy href assigned, as a string, under its key, in order.
   */
  function CopiedLinks(entries: seq<(string, Value)>): (r: seq<(string, string)>)
    ensures DistinctKeys(r)
    ensures forall i :: 0 <= i < |r| ==> r[i].1 != [] && r[i].0 != ProtoKey
    decreases |entries|
  {
    if entries == [] then []
    else
      var key := entries[|entries| - 1].0;
      var href := entries[|entries| - 1].1;
      var prev := CopiedLinks(entries[..|entries| - 1]);
      if Truthy(href) then
        var r := Assign(prev, key, ToJsString(href));
        assert forall i :: 0 <= i < |r| ==> r[i] in r;
        r
      else prev
  }

  /**
   * The reference reading of that loop: the entries whose href is truthy,
   * href turned into a string, in their original order (a `__proto__`
   * key, whose assignment is a no-op, left out).
   */
  function TruthyLinks(entries: seq<(string, Value)>): (r: seq<(string, string)>)
    ensures |r| <= |entries|
    decreases |entries|
  {
    if entries == [] then []
    else
      var key := entries[|entries| - 1].0;
      var href := entries[|entries| - 1].1;
      TruthyLinks(entries[..|entries| - 1])
        + (if Truthy(href) && key != ProtoKey then [(key, ToJsString(href))] else [])
  }

  /** Every label the reference filter keeps is a label of the entries. */
  lemma {:induction false} TruthyLinksKeys(entries: seq<(string, Value)>)
    ensures forall i :: 0 <= i < |TruthyLinks(entries)| ==> TruthyLinks(entries)[i].0 in Keys(entries)
    decreases |entries|
  {
    if entries != [] {
      var n := |entries| - 1;
      var front := entries[..n];
      TruthyLinksKeys(front);
      var prev := TruthyLinks(front);
      var r := TruthyLinks(entries);
      forall i | 0 <= i < |r| ensures r[i].0 in Keys(entries) {
        if i < |prev| {
          var j :| 0 <= j < |front| && Keys(front)[j] == r[i].0;
          assert Keys(entries)[j] == r[i].0;
        } else {
          assert Keys(entries)[n] == r[i].0;
        }
      }
    }
  }

  /** On an object (distinct labels), the loop keeps exactly the truthy entries, in order. */
  lemma {:induction false} CopiedLinksAreTruthyLinks(entries: seq<(string, Value)>)
    requires DistinctKeys(entries)
    ensures CopiedLinks(entries) == TruthyLinks(entries)
    decreases |entries|
  {
    if entries != [] {
      var n := |entries| - 1;
      var key, href := entries[n].0, entries[n].1;
      var front := entries[..n];
      assert DistinctKeys(front);
      CopiedLinksAreTruthyLinks(front);
      var prev := TruthyLinks(front);
      if !Truthy(href) || key == ProtoKey {
        assert prev + [] == prev;
      } else {
        NewKeyNotCopied(entries);
        assert Assign(prev, key, ToJsString(href)) == prev + [(key, ToJsString(href))];
      }
    }
  }

  /** The last label of an object is not among the labels kept from the entries before it. */
  lemma NewKeyNotCopied(entries: seq<(string, Value)>)
    requires entries != [] && DistinctKeys(entries)
    ensures entries[|entries| - 1].0 !in Keys(TruthyLinks(entries[..|entries| - 1]))
  {
    TruthyLinksKeys(entries[..|entries| - 1]);
  }

  /** `formatVideoObject`'s per-field rules for the nested `channelInfo`. */
  function FormatChannelInfo(info: RawChannelInfo): ChannelInfo {
    ChannelInfo(
      NormalizeString(info.activeFrom),
      NormalizeString(info.viewCounter),
      NormalizeString(info.channelDescription),
      NormalizeString(info.country),
      if info.links.Some? then CopiedLinks(info.links.value) else [])
  }

  /** No string in the record is empty or has white space at either end. */
  predicate NormalizedText(o: Option<string>) {
    o.Some? ==> o.value != [] && Trim(o.value) == o.value
  }

  predicate NoBlankStrings(v: Video) {
    && NormalizedText(v.title) && NormalizedText(v.author) && NormalizedText(v.videoUrl)
    && NormalizedText(v.coverImage) && NormalizedText(v.description) && NormalizedText(v.publishedAt)
    && NormalizedText(v.id) && NormalizedText(v.profilePicture) && NormalizedText(v.transcript)
    && (v.channelInfo.Some? ==>
      var c := v.channelInfo.value;
      && NormalizedText(c.activeFrom) && NormalizedText(c.viewCounter)
      && NormalizedText(c.channelDescription) && NormalizedText(c.country))
  }

  /**
   * The specification of `formatVideoObject`. It fails exactly when the
   * raw record or its `videoUrl` is falsy; otherwise no output string is
   * blank, a count is its numeric field when that is present and otherwise
   * a parsed (so null, NaN or non-negative) count, `amountOfVideos` survives
   * only as a number, and `channelInfo` is present exactly when the raw one
   * is, with links whose labels are distinct and whose values are non-empty.
   */
  function FormatVideo(raw: Option<RawVideo>): (r: Result<Video, FormatError>)
    ensures r.Failure? <==> raw.None? || !Truthy(raw.value.videoUrl)
    ensures r.Success? ==> NoBlankStrings(r.value)
    ensures r.Success? ==> var x, v := raw.value, r.value;
      && (!IsNullish(x.subscriberCount) ==> v.subscriberCount == x.subscriberCount)
      && (!IsNullish(x.likeCount) ==> v.likeCount == x.likeCount)
      && (!IsNullish(x.viewCount) ==> v.viewCount == x.viewCount)
      && (!IsNullish(x.commentCount) ==> v.commentCount == x.commentCount)
      && (IsNumber(v.amountOfVideos) || v.amountOfVideos == Null)
      && (v.channelInfo.Some? <==> x.channelInfo.Some?)
      && (v.channelInfo.Some? ==> DistinctKeys(v.channelInfo.value.links))
    ensures r.Success? ==> var x, v := raw.value, r.value;
      && v.title == NormalizeString(x.title) && v.author == NormalizeString(x.author)
      && v.videoUrl == NormalizeString(x.videoUrl) && v.coverImage == NormalizeString(x.coverImage)
      && v.description == NormalizeString(x.description) && v.publishedAt == NormalizeString(x.publishedAt)
      && v.id == NormalizeString(x.id) && v.profilePicture == NormalizeString(x.profilePicture)
      && v.transcript == NormalizeString(x.transcript)
    ensures r.Success? ==> var x, v := raw.value, r.value;
      && (IsNullish(x.subscriberCount) ==> v.subscriberCount == ParseHumanNumber(x.subscriberCountText))
      && (IsNullish(x.likeCount) ==> v.likeCount == ParseHumanNumber(x.likeCountText))
      && (IsNullish(x.viewCount) ==> v.viewCount == ParseHumanNumber(x.viewCountText))
      && (IsNullish(x.commentCount) ==> v.commentCount == ParseHumanNumber(x.commentCountText))
      && v.amountOfVideos == (if IsNumber(x.amountOfVideos) then x.amountOfVideos else Null)
    ensures r.Success? && raw.value.channelInfo.Some? ==>
      var i, c := raw.value.channelInfo.value, r.value.channelInfo.value;
      && c.activeFrom == NormalizeString(i.activeFrom) && c.viewCounter == NormalizeString(i.viewCounter)
      && c.channelDescription == NormalizeString(i.channelDescription) && c.country == NormalizeString(i.country)
      && c.links == (if i.links.Some? then CopiedLinks(i.links.value) else [])
  {
    if raw.None? || !Truthy(raw.value.videoUrl) then Failure(MissingVideoUrl)
    else Success(FormatFields(raw.value))
  }

  /**
   * When the raw `links` is an object (distinct labels), the formatted
   * record's links are the reference filter's: the truthy hrefs as strings,
   * in order; a falsy or missing `links` gives none.
   */
  lemma FormatVideoLinks(raw: Option<RawVideo>)
    requires FormatVideo(raw).Success? && raw.value.channelInfo.Some?
    ensures var i := raw.value.channelInfo.value;
      FormatVideo(raw).value.channelInfo.value.links
        == if i.links.Some? && DistinctKeys(i.links.value) then TruthyLinks(i.links.value)
           else if i.links.Some? then CopiedLinks(i.links.value)
           else []
  {
    var i := raw.value.channelInfo.value;
    if i.links.Some? && DistinctKeys(i.links.value) {
      CopiedLinksAreTruthyLinks(i.links.value);
    }
  }

  /** The record `formatVideoObject` builds once the guard has passed. */
  function FormatFields(x: RawVideo): Video {
      Video(
        NormalizeString(x.title),
        NormalizeString(x.author),
        NormalizeString(x.videoUrl),
        NormalizeString(x.coverImage),
        CountField(x.subscriberCount, x.subscriberCountText),
        CountField(x.likeCount, x.likeCountText),
        NormalizeString(x.description),
        CountField(x.viewCount, x.viewCountText),
        CountField(x.commentCount, x.commentCountText),
        NormalizeString(x.publishedAt),
        NormalizeString(x.id),
        if IsNumber(x.amountOfVideos) then x.amountOfVideos else Null,
        // `normalizeString(...) || null` equals normalizeString(...): it never returns ""
        NormalizeString(x.profilePicture),
        NormalizeString(x.transcript),
        if x.channelInfo.Some? then Some(FormatChannelInfo(x.channelInfo.value)) else None)
  }

  /**
   * The `forEach` that copies the raw links into the fresh `channelInfo.links`
   * object: falsy hrefs are skipped, the others assigned as strings.
   */
  method CopyTruthyLinks(entries: seq<(string, Value)>) returns (links: seq<(string, string)>)
    ensures links == CopiedLinks(entries)
    ensures DistinctKeys(entries) ==> links == TruthyLinks(entries)
  {
    links := [];
    for i := 0 to |entries|
      invariant links == CopiedLinks(entries[..i])
    {
      var key, href := entries[i].0, entries[i].1;
      assert entries[..i + 1][..i] == entries[..i];
      if Truthy(href) {
        links := Assign(links, key, ToJsString(href));
      }
    }
    assert entries[..|entries|] == entries;
    if DistinctKeys(entries) {
      CopiedLinksAreTruthyLinks(entries);
    }
  }

  /** `formatVideoObject(raw)`, statement by statement. */
  method FormatVideoObject(raw: Option<RawVideo>) returns (r: Result<Video, FormatError>)
    ensures r == FormatVideo(raw)
  {
    if raw.None? || !Truthy(raw.value.videoUrl) {
      return Failure(MissingVideoUrl);
    }
    var x := raw.value;
    var video := Video(
      NormalizeString(x.title),
      NormalizeString(x.author),
      NormalizeString(x.videoUrl),
      NormalizeString(x.coverImage),
      CountField(x.subscriberCount, x.subscriberCountText),
      CountField(x.likeCount, x.likeCountText),
      NormalizeString(x.description),
      CountField(x.viewCount, x.viewCountText),
      CountField(x.commentCount, x.commentCountText),
      NormalizeString(x.publishedAt),
      NormalizeString(x.id),
      if IsNumber(x.amountOfVideos) then x.amountOfVideos else Null,
      NormalizeString(x.profilePicture),
      NormalizeString(x.transcript),
      None);
    if x.channelInfo.Some? {
      var info := x.channelInfo.value;
      var links := [];
      if info.links.Some? {
        links := CopyTruthyLinks(info.links.value);
      }
      video := video.(channelInfo := Some(ChannelInfo(
        NormalizeString(info.activeFrom),
        NormalizeString(info.viewCounter),
        NormalizeString(info.channelDescription),
        NormalizeString(info.country),
        links)));
    }
    r := Success(video);
  }

  // ---------------------------------------------------------------------
  // Facts about formatVideoObject
  // ---------------------------------------------------------------------

  /** A raw record with every field absent. */
  const EmptyRaw: RawVideo := RawVideo(
    Undefined, Undefined, Undefined, Undefined, Undefined, Undefined, Undefined, Undefined,
    Undefined, Undefined, Undefined, Undefined, Undefined, Undefined, Undefined, Undefined,
    Undefined, Undefined, None)

  /**
   * `formatVideoObject({})` throws; a record holding only a (trimmed,
   * non-empty) `videoUrl` comes out with every other field null.
   */
  lemma MinimalRecords(url: string)
    requires url != [] && Trim(url) == url
    ensures FormatVideo(Some(EmptyRaw)) == Failure(MissingVideoUrl)
    ensures FormatVideo(Some(EmptyRaw.(videoUrl := Str(url)))) == Success(Video(
      None, None, Some(url), None, Null, Null, None, Null, Null, None, None, Null, None, None, None))
  {
    var x := EmptyRaw.(videoUrl := Str(url));
    assert NormalizeString(Undefined) == None;
    assert ToJsString(Str(url)) == url;
    assert NormalizeString(Str(url)) == Some(url);
    assert CountField(Undefined, Undefined) == Null;
    assert FormatVideo(Some(x)) == Success(FormatFields(x));
  }

  /**
   * Numeric precedence: while a numeric count is present, its text variant
   * can be anything without changing the output.
   */
  lemma NumericCountIgnoresText(x: RawVideo, t: Value)
    ensures !IsNullish(x.subscriberCount) ==>
      FormatVideo(Some(x.(subscriberCountText := t))) == FormatVideo(Some(x))
    ensures !IsNullish(x.likeCount) ==>
      FormatVideo(Some(x.(likeCountText := t))) == FormatVideo(Some(x))
    ensures !IsNullish(x.viewCount) ==>
      FormatVideo(Some(x.(viewCountText := t))) == FormatVideo(Some(x))
    ensures !IsNullish(x.commentCount) ==>
      FormatVideo(Some(x.(commentCountText := t))) == FormatVideo(Some(x))
  {
  }

  /** Without a numeric count, the count is the parsed text. */
  lemma TextCountIsParsed(x: RawVideo)
    requires Truthy(x.videoUrl)
    ensures IsNullish(x.viewCount) ==> FormatVideo(Some(x)).value.viewCount == ParseHumanNumber(x.viewCountText)
    ensures IsNullish(x.subscriberCount) ==> FormatVideo(Some(x)).value.subscriberCount == ParseHumanNumber(x.subscriberCountText)
    ensures IsNullish(x.likeCount) ==> FormatVideo(Some(x)).value.likeCount == ParseHumanNumber(x.likeCountText)
    ensures IsNullish(x.commentCount) ==> FormatVideo(Some(x)).value.commentCount == ParseHumanNumber(x.commentCountText)
  {
  }

  function StrOrNull(o: Option<string>): Value {
    if o.Some? then Str(o.value) else Null
  }

  function RawLinks(links: seq<(string, string)>): (r: seq<(string, Value)>)
    ensures |r| == |links|
    ensures forall i :: 0 <= i < |links| ==> r[i] == (links[i].0, Str(links[i].1))
  {
    if links == [] then [] else [(links[0].0, Str(links[0].1))] + RawLinks(links[1..])
  }

  /** A canonical `channelInfo` handed back as raw input. */
  function AsRawChannelInfo(c: ChannelInfo): RawChannelInfo {
    RawChannelInfo(
      StrOrNull(c.activeFrom), StrOrNull(c.viewCounter),
      StrOrNull(c.channelDescription), StrOrNull(c.country),
      Some(RawLinks(c.links)))
  }

  /**
   * A canonical record handed back as raw input: strings or null, counts
   * in their numeric fields, no text variants.
   */
  function AsRaw(v: Video): RawVideo {
    RawVideo(
      StrOrNull(v.title), StrOrNull(v.author), StrOrNull(v.videoUrl), StrOrNull(v.coverImage),
      v.subscriberCount, Undefined, v.likeCount, Undefined,
      StrOrNull(v.description),
      v.viewCount, Undefined, v.commentCount, Undefined,
      StrOrNull(v.publishedAt), StrOrNull(v.id), v.amountOfVideos,
      StrOrNull(v.profilePicture), StrOrNull(v.transcript),
      if v.channelInfo.Some? then Some(AsRawChannelInfo(v.channelInfo.value)) else None)
  }

  /** A normalised string, or its null, normalises to itself. */
  lemma NormalizedStringStable(value: Value)
    ensures NormalizeString(StrOrNull(NormalizeString(value))) == NormalizeString(value)
  {
    NormalizeStringIdempotent(value);
  }

  /** A count field, handed back without its text variant, stays as it is. */
  lemma CountFieldStable(numeric: Value, text: Value)
    ensures CountField(CountField(numeric, text), Undefined) == CountField(numeric, text)
  {
  }

  /** Normalising a normalised `channelInfo` gives it back. */
  lemma FormatChannelInfoIdempotent(info: RawChannelInfo)
    ensures FormatChannelInfo(AsRawChannelInfo(FormatChannelInfo(info))) == FormatChannelInfo(info)
  {
    var c := FormatChannelInfo(info);
    var d := FormatChannelInfo(AsRawChannelInfo(c));
    NormalizedStringStable(info.activeFrom);
    NormalizedStringStable(info.viewCounter);
    NormalizedStringStable(info.channelDescription);
    NormalizedStringStable(info.country);
    FormattedLinksStable(info);
    assert d.links == c.links;
  }

  /** The formatted links, handed back as raw links, are copied unchanged. */
  lemma FormattedLinksStable(info: RawChannelInfo)
    ensures CopiedLinks(RawLinks(FormatChannelInfo(info).links)) == FormatChannelInfo(info).links
  {
    var links := if info.links.Some? then CopiedLinks(info.links.value) else [];
    assert FormatChannelInfo(info).links == links;
    CanonicalLinksCopied(links);
  }

  /** Links already in canonical form are copied unchanged. */
  lemma {:induction false} CanonicalLinksCopied(links: seq<(string, string)>)
    requires DistinctKeys(links)
    requires forall i :: 0 <= i < |links| ==> links[i].1 != [] && links[i].0 != ProtoKey
    ensures CopiedLinks(RawLinks(links)) == links
    decreases |links|
  {
    var e := RawLinks(links);
    assert DistinctKeys(e);
    CopiedLinksAreTruthyLinks(e);
    TruthyLinksOfCanonical(links);
  }

  lemma {:induction false} TruthyLinksOfCanonical(links: seq<(string, string)>)
    requires forall i :: 0 <= i < |links| ==> links[i].1 != [] && links[i].0 != ProtoKey
    ensures TruthyLinks(RawLinks(links)) == links
    decreases |links|
  {
    if links != [] {
      var n := |links| - 1;
      TruthyLinksOfCanonical(links[..n]);
      CanonicalLinkKept(links);
      assert links[..n] + [links[n]] == links;
    }
  }

  /** The last canonical link is kept after the ones before it. */
  lemma CanonicalLinkKept(links: seq<(string, string)>)
    requires links != []
    requires links[|links| - 1].1 != [] && links[|links| - 1].0 != ProtoKey
    ensures TruthyLinks(RawLinks(links)) == TruthyLinks(RawLinks(links[..|links| - 1])) + [links[|links| - 1]]
  {
    var n := |links| - 1;
    var e := RawLinks(links);
    var key, href := links[n].0, Str(links[n].1);
    assert e[..n] == RawLinks(links[..n]);
    assert e[n] == (key, href);
    assert Truthy(href) && ToJsString(href) == links[n].1;
    assert TruthyLinks(e) == TruthyLinks(e[..n]) + [(key, ToJsString(href))];
  }

  /**
   * Normalising an already normalised record gives it back, provided its
   * `videoUrl` survived normalisation (see WhitespaceUrlIsNotStable).
   */
  lemma FormatVideoIdempotent(raw: Option<RawVideo>)
    requires FormatVideo(raw).Success? && FormatVideo(raw).value.videoUrl.Some?
    ensures FormatVideo(Some(AsRaw(FormatVideo(raw).value))) == FormatVideo(raw)
  {
    var v := FormatFields(raw.value);
    FormatFieldsIdempotent(raw.value);
    assert Truthy(StrOrNull(v.videoUrl));
  }

  /** The field rules, applied to their own output, change nothing. */
  lemma FormatFieldsIdempotent(x: RawVideo)
    ensures FormatFields(AsRaw(FormatFields(x))) == FormatFields(x)
  {
    TextFieldsStable(x);
    CountFieldsStable(x);
    if x.channelInfo.Some? {
      FormatChannelInfoIdempotent(x.channelInfo.value);
    }
  }

  lemma TextFieldsStable(x: RawVideo)
    ensures var v := FormatFields(x); var y := FormatFields(AsRaw(v));
      && y.title == v.title && y.author == v.author && y.videoUrl == v.videoUrl
      && y.coverImage == v.coverImage && y.description == v.description
      && y.publishedAt == v.publishedAt && y.id == v.id
      && y.profilePicture == v.profilePicture && y.transcript == v.transcript
  {
    NormalizedStringStable(x.title);
    NormalizedStringStable(x.author);
    NormalizedStringStable(x.videoUrl);
    NormalizedStringStable(x.coverImage);
    NormalizedStringStable(x.description);
    NormalizedStringStable(x.publishedAt);
    NormalizedStringStable(x.id);
    NormalizedStringStable(x.profilePicture);
    NormalizedStringStable(x.transcript);
  }

  lemma CountFieldsStable(x: RawVideo)
    ensures var v := FormatFields(x); var y := FormatFields(AsRaw(v));
      && y.subscriberCount == v.subscriberCount && y.likeCount == v.likeCount
      && y.viewCount == v.viewCount && y.commentCount == v.commentCount
      && y.amountOfVideos == v.amountOfVideos
  {
    CountFieldStable(x.subscriberCount, x.subscriberCountText);
    CountFieldStable(x.likeCount, x.likeCountText);
    CountFieldStable(x.viewCount, x.viewCountText);
    CountFieldStable(x.commentCount, x.commentCountText);
  }

  /**
   * The guard tests `videoUrl` before trimming it: a blank URL passes,
   * comes out as null, and the output no longer passes the guard.
   */
  lemma WhitespaceUrlIsNotStable()
    ensures var r := FormatVideo(Some(EmptyRaw.(videoUrl := Str(" "))));
      && r.Success? && r.value.videoUrl.None?
      && FormatVideo(Some(AsRaw(r.value))).Failure?
  {
    assert Trim(" ") == [];
  }
}
