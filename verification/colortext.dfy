/** The colour strings of the converter: the per-cell `rgb(R, G, B)` text,
    the regex that reads it back, the nearest-of-16 ANSI quantiser
    (`rgbToAnsi`) and the `#rrggbb` parser (`hexToRgb`). */
module ColorText {
  import opened Wrappers
  import opened Pixels

  predicate IsDigit(c: char) {
    '0' <= c <= '9'
  }

  /** The characters `\s` matches in a JavaScript regular expression. */
  predicate IsJsSpace(c: char) {
    || '\U{0009}' <= c <= '\U{000D}' || c == ' ' || c == '\U{00A0}' || c == '\U{1680}'
    || '\U{2000}' <= c <= '\U{200A}' || c == '\U{2028}' || c == '\U{2029}' || c == '\U{202F}'
    || c == '\U{205F}' || c == '\U{3000}' || c == '\U{FEFF}'
  }

  function DigitChar(d: int): (c: char)
    requires 0 <= d < 10
    ensures IsDigit(c)
  {
    ('0' as int + d) as char
  }

  function DigitValue(c: char): int {
    c as int - '0' as int
  }

  predicate AllDigits(s: string) {
    forall k | 0 <= k < |s| :: IsDigit(s[k])
  }

  /** The decimal text of a non-negative integer, as a template literal writes it. */
  function Decimal(n: nat): (s: string)
    ensures |s| >= 1 && AllDigits(s)
  {
    if n < 10 then [DigitChar(n)] else Decimal(n / 10) + [DigitChar(n % 10)]
  }

  /** `parseInt` of a run of decimal digits (only ever applied to one). */
  function ParseDecimal(s: string): (v: int)
    ensures |s| > 0 && IsDigit(s[|s| - 1]) ==> v % 10 == DigitValue(s[|s| - 1])
  {
    if |s| == 0 then 0 else ParseDecimal(s[..|s| - 1]) * 10 + DigitValue(s[|s| - 1])
  }

  /** A run of digits reads as a non-negative number. */
  lemma {:induction false} ParseDecimalNonNegative(s: string)
    requires AllDigits(s)
    ensures ParseDecimal(s) >= 0
  {
    if |s| > 0 {
      var front := s[..|s| - 1];
      assert AllDigits(front) by {
        forall k | 0 <= k < |front| ensures IsDigit(front[k]) {
          assert front[k] == s[k];
        }
      }
      ParseDecimalNonNegative(front);
      assert IsDigit(s[|s| - 1]);
    }
  }



  /** Reading back the decimal text of n gives n. */
  lemma {:induction false} DecimalRoundTrip(n: nat)
    ensures ParseDecimal(Decimal(n)) == n
  {
    if n >= 10 {
      var s := Decimal(n);
      assert s[..|s| - 1] == Decimal(n / 10);
      DecimalRoundTrip(n / 10);
    }
  }

  /** `parseInt` of the digits of s from i up to j, read in place. */
  function DigitsValue(s: string, i: nat, j: nat): int
    requires i <= j <= |s|
    decreases j - i
  {
    if j == i then 0 else DigitsValue(s, i, j - 1) * 10 + DigitValue(s[j - 1])
  }

  /** The length of the run of digits that starts at i. */
  function DigitRun(s: string, i: nat): (n: nat)
    requires i <= |s|
    decreases |s| - i
    ensures i + n <= |s|
  {
    if i < |s| && IsDigit(s[i]) then 1 + DigitRun(s, i + 1) else 0
  }

  /** The length of the run of `\s` characters that starts at i. */
  function SpaceRun(s: string, i: nat): (n: nat)
    requires i <= |s|
    decreases |s| - i
    ensures i + n <= |s|
  {
    if i < |s| && IsJsSpace(s[i]) then 1 + SpaceRun(s, i + 1) else 0
  }

  /** A number read by `(\d+)` and the position just after the character
      that closed it. */
  datatype FieldRead = FieldRead(value: int, next: nat)

  /** `(\d+)` followed by the character `close`, starting at i. */
  function Field(s: string, i: nat, close: char): (r: Option<FieldRead>)
    requires i <= |s|
    ensures r.Some? ==> i + 2 <= r.value.next <= |s| && s[r.value.next - 1] == close
  {
    var j := i + DigitRun(s, i);
    if j == i || j >= |s| || s[j] != close then None
    else Some(FieldRead(DigitsValue(s, i, j), j + 1))
  }

  /** `,\s*(\d+)` and its closing character, after the comma at e - 1. */
  function NextField(s: string, e: nat, close: char): (r: Option<FieldRead>)
    requires e <= |s|
    ensures r.Some? ==> e + 2 <= r.value.next <= |s| && s[r.value.next - 1] == close
  {
    Field(s, e + SpaceRun(s, e), close)
  }

  predicate OpensAt(s: string, p: nat) {
    p + 4 <= |s| && s[p] == 'r' && s[p + 1] == 'g' && s[p + 2] == 'b' && s[p + 3] == '('
  }

  /** An attempt of `/rgb\((\d+),\s*(\d+),\s*(\d+)\)/` at position p. Each
      `\d+` and `\s*` is followed by a character it cannot match, so the
      greedy run is the only one that can succeed and no backtracking is
      needed. */
  function MatchRgbAt(s: string, p: nat): (r: Option<Rgb>)
    requires p <= |s|
    ensures r.Some? ==> OpensAt(s, p) && p + 10 <= |s|
  {
    if !OpensAt(s, p) then None
    else
      var f1 := Field(s, p + 4, ',');
      if f1.None? then None
      else
        var f2 := NextField(s, f1.value.next, ',');
        if f2.None? then None
        else
          var f3 := NextField(s, f2.value.next, ')');
          if f3.None? then None
          else Some(Rgb(f1.value.value, f2.value.value, f3.value.value))
  }

  /** The leftmost position at or after p where the pattern matches. */
  function SearchFrom(s: string, p: nat): (r: Option<nat>)
    requires p <= |s|
    decreases |s| - p
    ensures r.Some? ==> p <= r.value <= |s|
  {
    if MatchRgbAt(s, p).Some? then Some(p)
    else if p == |s| then None
    else SearchFrom(s, p + 1)
  }

  /** The search finds no match only when there is none at or after p. */
  lemma {:induction false} SearchFromNone(s: string, p: nat)
    requires p <= |s|
    decreases |s| - p
    ensures SearchFrom(s, p).None? ==> forall q | p <= q <= |s| :: MatchRgbAt(s, q).None?
  {
    if MatchRgbAt(s, p).None? && p < |s| {
      SearchFromNone(s, p + 1);
    }
  }

  /** The search stops on a match, and on the leftmost one at or after p. */
  lemma {:induction false} SearchFromLeftmost(s: string, p: nat)
    requires p <= |s|
    decreases |s| - p
    ensures SearchFrom(s, p).Some? ==> MatchRgbAt(s, SearchFrom(s, p).value).Some?
    ensures SearchFrom(s, p).Some? ==> forall q | p <= q < SearchFrom(s, p).value :: MatchRgbAt(s, q).None?
  {
    if MatchRgbAt(s, p).None? && p < |s| {
      SearchFromLeftmost(s, p + 1);
    }
  }

  /** `s.match(/rgb\((\d+),\s*(\d+),\s*(\d+)\)/)`: the three numbers of the
      leftmost match, or None. */
  function MatchRgb(s: string): (r: Option<Rgb>)
    ensures r.None? <==> forall q | 0 <= q <= |s| :: MatchRgbAt(s, q).None?
  {
    SearchFromNone(s, 0);
    SearchFromLeftmost(s, 0);
    match SearchFrom(s, 0)
    case None => None
    case Some(q) => MatchRgbAt(s, q)
  }

  /** `rgb(` R sep G sep B `)` with decimal channels. */
  function FormatRgb(c: Rgb, sep: string): (text: string)
    requires c.r >= 0 && c.g >= 0 && c.b >= 0
    ensures |text| >= 8 + 2 * |sep|
    ensures OpensAt(text, 0) && text[|text| - 1] == ')'
  {
    "rgb(" + Decimal(c.r) + sep + Decimal(c.g) + sep + Decimal(c.b) + ")"
  }

  /** The colour string recorded for every cell: `rgb(R, G, B)`, at least
      `rgb(0, 0, 0)` long. `CellColorRoundTrip` reads it back. */
  function CellColor(c: Rgb): (text: string)
    requires c.r >= 0 && c.g >= 0 && c.b >= 0
    ensures |text| >= 12 && OpensAt(text, 0) && text[|text| - 1] == ')'
  {
    FormatRgb(c, ", ")
  }

  /** A comma followed by nothing but `\s` characters. */
  predicate IsSeparator(sep: string) {
    |sep| >= 1 && sep[0] == ',' && forall k | 1 <= k < |sep| :: IsJsSpace(sep[k])
  }

  lemma {:induction false} DigitRunExact(s: string, i: nat, n: nat)
    requires i + n <= |s|
    requires forall k | i <= k < i + n :: IsDigit(s[k])
    requires i + n == |s| || !IsDigit(s[i + n])
    ensures DigitRun(s, i) == n
    decreases n
  {
    if n > 0 {
      DigitRunExact(s, i + 1, n - 1);
    }
  }

  lemma {:induction false} SpaceRunExact(s: string, i: nat, n: nat)
    requires i + n <= |s|
    requires forall k | i <= k < i + n :: IsJsSpace(s[k])
    requires i + n == |s| || !IsJsSpace(s[i + n])
    ensures SpaceRun(s, i) == n
    decreases n
  {
    if n > 0 {
      SpaceRunExact(s, i + 1, n - 1);
    }
  }

  /** A run of n digits at i, followed by `close`, is read as one field. */
  lemma FieldAt(s: string, i: nat, n: nat, close: char)
    requires i + n < |s| && n >= 1
    requires forall k | i <= k < i + n :: IsDigit(s[k])
    requires s[i + n] == close && !IsDigit(close)
    ensures Field(s, i, close) == Some(FieldRead(DigitsValue(s, i, i + n), i + n + 1))
  {
    DigitRunExact(s, i, n);
  }

  /** s holds t from position lo on. */
  predicate Holds(s: string, lo: nat, t: string)
    decreases |t|
  {
    lo + |t| <= |s| && (|t| == 0 || (s[lo] == t[0] && Holds(s, lo + 1, t[1..])))
  }

  /** Each character of a held piece sits at its place in s. */
  lemma {:induction false} HoldsAt(s: string, lo: nat, t: string, k: nat)
    requires Holds(s, lo, t) && k < |t|
    ensures lo + k < |s| && s[lo + k] == t[k]
    decreases k
  {
    if k > 0 {
      HoldsAt(s, lo + 1, t[1..], k - 1);
    }
  }

  /** A piece whose every character sits at its place in s is held. */
  lemma {:induction false} HoldsOf(s: string, lo: nat, t: string)
    requires lo + |t| <= |s| && forall k | 0 <= k < |t| :: s[lo + k] == t[k]
    ensures Holds(s, lo, t)
    decreases |t|
  {
    if |t| > 0 {
      assert s[lo + 0] == t[0];
      forall k | 0 <= k < |t| - 1 ensures s[lo + 1 + k] == t[1..][k] {
        assert s[lo + (k + 1)] == t[k + 1];
      }
      HoldsOf(s, lo + 1, t[1..]);
    }
  }

  /** A string laid out as `rgb(` d1 sep d2 sep d3 `)`. */
  predicate LaidOut(s: string, d1: string, d2: string, d3: string, sep: string) {
    var b1 := 4 + |d1|;
    var b2 := b1 + |sep| + |d2|;
    var b3 := b2 + |sep| + |d3|;
    && |s| == b3 + 1
    && OpensAt(s, 0)
    && Holds(s, 4, d1)
    && Holds(s, b1, sep)
    && Holds(s, b1 + |sep|, d2)
    && Holds(s, b2, sep)
    && Holds(s, b2 + |sep|, d3)
    && s[b3] == ')'
  }

  /** The piece appended last is held where it starts. */
  lemma HoldsAppended(t: string, u: string, at: nat)
    requires at == |t|
    ensures Holds(t + u, at, u)
  {
    forall k | 0 <= k < |u| ensures (t + u)[at + k] == u[k] {
    }
    HoldsOf(t + u, at, u);
  }

  /** Appending keeps every piece already held. */
  lemma HoldsExtended(t: string, u: string, lo: nat, v: string)
    requires Holds(t, lo, v)
    ensures Holds(t + u, lo, v)
  {
    forall k | 0 <= k < |v| ensures (t + u)[lo + k] == v[k] {
      HoldsAt(t, lo, v, k);
    }
    HoldsOf(t + u, lo, v);
  }

  lemma OpensExtended(t: string, u: string)
    requires OpensAt(t, 0)
    ensures OpensAt(t + u, 0)
  {
  }

  /** Where the pieces of a formatted colour string sit. */
  lemma FormatLayout(c: Rgb, sep: string)
    requires c.r >= 0 && c.g >= 0 && c.b >= 0
    ensures LaidOut(FormatRgb(c, sep), Decimal(c.r), Decimal(c.g), Decimal(c.b), sep)
  {
    LayoutOfPieces(Decimal(c.r), Decimal(c.g), Decimal(c.b), sep);
  }

  lemma LayoutOfPieces(d1: string, d2: string, d3: string, sep: string)
    ensures LaidOut("rgb(" + d1 + sep + d2 + sep + d3 + ")", d1, d2, d3, sep)
  {
    var b1 := 4 + |d1|;
    var b2 := b1 + |sep| + |d2|;
    var b3 := b2 + |sep| + |d3|;
    var t3 := "rgb(" + d1 + sep + d2;
    var t4 := t3 + sep;
    var t5 := t4 + d3;
    var s := t5 + ")";
    LayoutFront(d1, d2, sep);
    HoldsAppended(t3, sep, b2);
    HoldsAppended(t4, d3, b2 + |sep|);
    HoldsExtended(t3, sep, 4, d1);
    HoldsExtended(t4, d3, 4, d1);
    HoldsExtended(t5, ")", 4, d1);
    HoldsExtended(t3, sep, b1, sep);
    HoldsExtended(t4, d3, b1, sep);
    HoldsExtended(t5, ")", b1, sep);
    HoldsExtended(t3, sep, b1 + |sep|, d2);
    HoldsExtended(t4, d3, b1 + |sep|, d2);
    HoldsExtended(t5, ")", b1 + |sep|, d2);
    HoldsExtended(t4, d3, b2, sep);
    HoldsExtended(t5, ")", b2, sep);
    HoldsExtended(t5, ")", b2 + |sep|, d3);
    OpensExtended(t3, sep);
    OpensExtended(t4, d3);
    OpensExtended(t5, ")");
    assert s[b3] == ')';
  }

  /** The pieces of `rgb(` d1 sep d2. */
  lemma LayoutFront(d1: string, d2: string, sep: string)
    ensures var t3, b1 := "rgb(" + d1 + sep + d2, 4 + |d1|;
      OpensAt(t3, 0) && Holds(t3, 4, d1) && Holds(t3, b1, sep) && Holds(t3, b1 + |sep|, d2)
  {
    var b1 := 4 + |d1|;
    var t1 := "rgb(" + d1;
    var t2 := t1 + sep;
    HoldsAppended("rgb(", d1, 4);
    HoldsAppended(t1, sep, b1);
    HoldsAppended(t2, d2, b1 + |sep|);
    HoldsExtended(t1, sep, 4, d1);
    HoldsExtended(t2, d2, 4, d1);
    HoldsExtended(t2, d2, b1, sep);
    assert OpensAt(t1, 0);
    OpensExtended(t1, sep);
    OpensExtended(t2, d2);
  }

  /** The pattern matches where `rgb(` opens three fields that read c. */
  lemma MatchOfFields(s: string, f1: FieldRead, f2: FieldRead, f3: FieldRead)
    requires OpensAt(s, 0)
    requires Field(s, 4, ',') == Some(f1) && f1.next <= |s|
    requires NextField(s, f1.next, ',') == Some(f2) && f2.next <= |s|
    requires NextField(s, f2.next, ')') == Some(f3)
    ensures MatchRgbAt(s, 0) == Some(Rgb(f1.value, f2.value, f3.value))
  {
  }

  /** A match at the very start is the leftmost one. */
  lemma MatchAtStart(s: string, c: Rgb)
    requires MatchRgbAt(s, 0) == Some(c)
    ensures MatchRgb(s) == Some(c)
  {
  }

  lemma DigitsHeld(s: string, i: nat, d: string)
    requires Holds(s, i, d) && AllDigits(d)
    ensures forall k | i <= k < i + |d| :: IsDigit(s[k])
  {
    forall k | i <= k < i + |d| ensures IsDigit(s[k]) {
      HoldsAt(s, i, d, k - i);
    }
  }

  /** Digits held in s read in place as they read on their own. */
  lemma {:induction false} DigitsValueHeld(s: string, i: nat, d: string, n: nat)
    requires Holds(s, i, d) && n <= |d|
    ensures i + n <= |s| && DigitsValue(s, i, i + n) == ParseDecimal(d[..n])
  {
    if n > 0 {
      DigitsValueHeld(s, i, d, n - 1);
      HoldsAt(s, i, d, n - 1);
      assert d[..n][..n - 1] == d[..n - 1];
    }
  }

  /** A copy of the digits d at i, followed by `close`, is read as d. */
  lemma DigitsField(s: string, i: nat, d: string, close: char)
    requires Holds(s, i, d) && i + |d| < |s| && s[i + |d|] == close
    requires |d| >= 1 && AllDigits(d) && !IsDigit(close)
    ensures Field(s, i, close) == Some(FieldRead(ParseDecimal(d), i + |d| + 1))
  {
    DigitsHeld(s, i, d);
    FieldAt(s, i, |d|, close);
    DigitsValueHeld(s, i, d, |d|);
    assert d[..|d|] == d;
  }

  /** A separator at c, followed by a digit, leaves `\s*` from c + 1 to
      skip exactly its spacing. */
  lemma SpacesSkipped(s: string, c: nat, sep: string)
    requires IsSeparator(sep) && Holds(s, c, sep)
    requires c + |sep| < |s| && IsDigit(s[c + |sep|])
    ensures SpaceRun(s, c + 1) == |sep| - 1
  {
    forall k | c + 1 <= k < c + |sep| ensures IsJsSpace(s[k]) {
      HoldsAt(s, c, sep, k - c);
    }
    SpaceRunExact(s, c + 1, |sep| - 1);
  }

  /** The comma opening a separator. */
  lemma CommaHeld(s: string, c: nat, sep: string)
    requires IsSeparator(sep) && Holds(s, c, sep)
    ensures c < |s| && s[c] == ','
  {
    HoldsAt(s, c, sep, 0);
  }

  lemma FirstFieldLaidOut(s: string, d1: string, d2: string, d3: string, sep: string)
    requires LaidOut(s, d1, d2, d3, sep) && IsSeparator(sep)
    requires |d1| >= 1 && AllDigits(d1)
    ensures Field(s, 4, ',') == Some(FieldRead(ParseDecimal(d1), 5 + |d1|))
  {
    CommaHeld(s, 4 + |d1|, sep);
    DigitsField(s, 4, d1, ',');
  }

  /** A field after the comma at c whose spacing is n long is the field at
      c + 1 + n. */
  lemma NextFieldSkips(s: string, c: nat, n: nat, close: char, r: Option<FieldRead>)
    requires c + 1 + n <= |s| && SpaceRun(s, c + 1) == n && Field(s, c + 1 + n, close) == r
    ensures NextField(s, c + 1, close) == r
  {
  }

  /** A separator at c, then the digits d, then `close`, read as the field
      after the comma. */
  lemma NextFieldOf(s: string, c: nat, sep: string, d: string, close: char)
    requires IsSeparator(sep) && |d| >= 1 && AllDigits(d) && !IsDigit(close)
    requires Holds(s, c, sep) && Holds(s, c + |sep|, d) && c + |sep| + |d| < |s| && s[c + |sep| + |d|] == close
    ensures NextField(s, c + 1, close) == Some(FieldRead(ParseDecimal(d), c + |sep| + |d| + 1))
  {
    var i := c + |sep|;
    HoldsAt(s, i, d, 0);
    SpacesSkipped(s, c, sep);
    DigitsField(s, i, d, close);
    NextFieldSkips(s, c, |sep| - 1, close, Some(FieldRead(ParseDecimal(d), i + |d| + 1)));
  }

  lemma SecondFieldLaidOut(s: string, d1: string, d2: string, d3: string, sep: string)
    requires LaidOut(s, d1, d2, d3, sep) && IsSeparator(sep)
    requires |d2| >= 1 && AllDigits(d2)
    ensures NextField(s, 5 + |d1|, ',') == Some(FieldRead(ParseDecimal(d2), 5 + |d1| + |sep| + |d2|))
  {
    var b2 := 4 + |d1| + |sep| + |d2|;
    CommaHeld(s, b2, sep);
    NextFieldOf(s, 4 + |d1|, sep, d2, ',');
  }

  lemma ThirdFieldLaidOut(s: string, d1: string, d2: string, d3: string, sep: string)
    requires LaidOut(s, d1, d2, d3, sep) && IsSeparator(sep)
    requires |d3| >= 1 && AllDigits(d3)
    ensures NextField(s, 5 + |d1| + |sep| + |d2|, ')') == Some(FieldRead(ParseDecimal(d3), |s|))
  {
    NextFieldOf(s, 4 + |d1| + |sep| + |d2|, sep, d3, ')');
  }

  /** The three fields of a laid-out string, as the pattern reads them. */
  lemma LaidOutFields(s: string, d1: string, d2: string, d3: string, sep: string)
    requires LaidOut(s, d1, d2, d3, sep) && IsSeparator(sep)
    requires |d1| >= 1 && AllDigits(d1) && |d2| >= 1 && AllDigits(d2) && |d3| >= 1 && AllDigits(d3)
    ensures OpensAt(s, 0)
    ensures Field(s, 4, ',') == Some(FieldRead(ParseDecimal(d1), 5 + |d1|))
    ensures NextField(s, 5 + |d1|, ',') == Some(FieldRead(ParseDecimal(d2), 5 + |d1| + |sep| + |d2|))
    ensures NextField(s, 5 + |d1| + |sep| + |d2|, ')') == Some(FieldRead(ParseDecimal(d3), |s|))
  {
    FirstFieldLaidOut(s, d1, d2, d3, sep);
    SecondFieldLaidOut(s, d1, d2, d3, sep);
    ThirdFieldLaidOut(s, d1, d2, d3, sep);
  }

  /** The pattern matches a formatted colour string at its start, reading
      the three integers back. */
  lemma FormatMatchesAtStart(c: Rgb, sep: string)
    requires c.r >= 0 && c.g >= 0 && c.b >= 0
    requires IsSeparator(sep)
    ensures MatchRgbAt(FormatRgb(c, sep), 0) == Some(c)
  {
    FormatLayout(c, sep);
    DecimalRoundTrip(c.r);
    DecimalRoundTrip(c.g);
    DecimalRoundTrip(c.b);
    LaidOutMatchesAtStart(FormatRgb(c, sep), Decimal(c.r), Decimal(c.g), Decimal(c.b), sep);
  }

  /** A laid-out string is matched at its start, reading its three digit
      runs. */
  lemma LaidOutMatchesAtStart(s: string, d1: string, d2: string, d3: string, sep: string)
    requires LaidOut(s, d1, d2, d3, sep) && IsSeparator(sep)
    requires |d1| >= 1 && AllDigits(d1) && |d2| >= 1 && AllDigits(d2) && |d3| >= 1 && AllDigits(d3)
    ensures MatchRgbAt(s, 0) == Some(Rgb(ParseDecimal(d1), ParseDecimal(d2), ParseDecimal(d3)))
  {
    var f1 := FieldRead(ParseDecimal(d1), 5 + |d1|);
    var f2 := FieldRead(ParseDecimal(d2), 5 + |d1| + |sep| + |d2|);
    var f3 := FieldRead(ParseDecimal(d3), |s|);
    LaidOutFields(s, d1, d2, d3, sep);
    MatchOfFields(s, f1, f2, f3);
  }

  /** Formatting three non-negative integers and matching the pattern against
      the text gives the integers back, whatever the spacing after the commas. */
  lemma FormatRgbRoundTrip(c: Rgb, sep: string)
    requires c.r >= 0 && c.g >= 0 && c.b >= 0
    requires IsSeparator(sep)
    ensures MatchRgb(FormatRgb(c, sep)) == Some(c)
  {
    FormatMatchesAtStart(c, sep);
    MatchAtStart(FormatRgb(c, sep), c);
  }

  /** A cell's colour string reads back as the cell's colour. */
  lemma CellColorRoundTrip(c: Rgb)
    requires c.r >= 0 && c.g >= 0 && c.b >= 0
    ensures MatchRgb(CellColor(c)) == Some(c)
  {
    FormatRgbRoundTrip(c, ", ");
  }

  /** The 16-colour palette, as strings and as the colours they spell. */
  const PaletteRgb: seq<Rgb> := [
    Rgb(0, 0, 0), Rgb(128, 0, 0), Rgb(0, 128, 0), Rgb(128, 128, 0),
    Rgb(0, 0, 128), Rgb(128, 0, 128), Rgb(0, 128, 128), Rgb(192, 192, 192),
    Rgb(128, 128, 128), Rgb(255, 0, 0), Rgb(0, 255, 0), Rgb(255, 255, 0),
    Rgb(0, 0, 255), Rgb(255, 0, 255), Rgb(0, 255, 255), Rgb(255, 255, 255)]

  const Palette: seq<string> := [
    "rgb(0,0,0)", "rgb(128,0,0)", "rgb(0,128,0)", "rgb(128,128,0)",
    "rgb(0,0,128)", "rgb(128,0,128)", "rgb(0,128,128)", "rgb(192,192,192)",
    "rgb(128,128,128)", "rgb(255,0,0)", "rgb(0,255,0)", "rgb(255,255,0)",
    "rgb(0,0,255)", "rgb(255,0,255)", "rgb(0,255,255)", "rgb(255,255,255)"]

  lemma DecimalLiterals()
    ensures Decimal(0) == "0" && Decimal(128) == "128" && Decimal(192) == "192" && Decimal(255) == "255"
  {
    assert Decimal(12) == "12";
    assert Decimal(19) == "19";
    assert Decimal(25) == "25";
  }

  /** Palette entries come in pairs below: each string is the compact
      `rgb(R,G,B)` text of its colour. */
  lemma PaletteBlackMaroon(k: int)
    requires 0 <= k < 2
    ensures Palette[k] == FormatRgb(PaletteRgb[k], ",")
  {
    DecimalLiterals();
    if k == 0 {
      assert FormatRgb(Rgb(0, 0, 0), ",") == "rgb(0,0,0)";
    } else {
      assert FormatRgb(Rgb(128, 0, 0), ",") == "rgb(128,0,0)";
    }
  }

  lemma PaletteGreenOlive(k: int)
    requires 2 <= k < 4
    ensures Palette[k] == FormatRgb(PaletteRgb[k], ",")
  {
    DecimalLiterals();
    if k == 2 {
      assert FormatRgb(Rgb(0, 128, 0), ",") == "rgb(0,128,0)";
    } else {
      assert FormatRgb(Rgb(128, 128, 0), ",") == "rgb(128,128,0)";
    }
  }

  lemma PaletteNavyPurple(k: int)
    requires 4 <= k < 6
    ensures Palette[k] == FormatRgb(PaletteRgb[k], ",")
  {
    DecimalLiterals();
    if k == 4 {
      assert FormatRgb(Rgb(0, 0, 128), ",") == "rgb(0,0,128)";
    } else {
      assert FormatRgb(Rgb(128, 0, 128), ",") == "rgb(128,0,128)";
    }
  }

  lemma PaletteTealSilver(k: int)
    requires 6 <= k < 8
    ensures Palette[k] == FormatRgb(PaletteRgb[k], ",")
  {
    DecimalLiterals();
    if k == 6 {
      assert FormatRgb(Rgb(0, 128, 128), ",") == "rgb(0,128,128)";
    } else {
      assert FormatRgb(Rgb(192, 192, 192), ",") == "rgb(192,192,192)";
    }
  }

  lemma PaletteGreyRed(k: int)
    requires 8 <= k < 10
    ensures Palette[k] == FormatRgb(PaletteRgb[k], ",")
  {
    DecimalLiterals();
    if k == 8 {
      assert FormatRgb(Rgb(128, 128, 128), ",") == "rgb(128,128,128)";
    } else {
      assert FormatRgb(Rgb(255, 0, 0), ",") == "rgb(255,0,0)";
    }
  }

  lemma PaletteLimeYellow(k: int)
    requires 10 <= k < 12
    ensures Palette[k] == FormatRgb(PaletteRgb[k], ",")
  {
    DecimalLiterals();
    if k == 10 {
      assert FormatRgb(Rgb(0, 255, 0), ",") == "rgb(0,255,0)";
    } else {
      assert FormatRgb(Rgb(255, 255, 0), ",") == "rgb(255,255,0)";
    }
  }

  lemma PaletteBlueFuchsia(k: int)
    requires 12 <= k < 14
    ensures Palette[k] == FormatRgb(PaletteRgb[k], ",")
  {
    DecimalLiterals();
    if k == 12 {
      assert FormatRgb(Rgb(0, 0, 255), ",") == "rgb(0,0,255)";
    } else {
      assert FormatRgb(Rgb(255, 0, 255), ",") == "rgb(255,0,255)";
    }
  }

  lemma PaletteAquaWhite(k: int)
    requires 14 <= k < 16
    ensures Palette[k] == FormatRgb(PaletteRgb[k], ",")
  {
    DecimalLiterals();
    if k == 14 {
      assert FormatRgb(Rgb(0, 255, 255), ",") == "rgb(0,255,255)";
    } else {
      assert FormatRgb(Rgb(255, 255, 255), ",") == "rgb(255,255,255)";
    }
  }

  /** Each palette string is the compact `rgb(R,G,B)` text of its colour. */
  lemma PaletteEntry(k: int)
    requires 0 <= k < 16
    ensures Palette[k] == FormatRgb(PaletteRgb[k], ",")
  {
    if k < 2 {
      PaletteBlackMaroon(k);
    } else if k < 4 {
      PaletteGreenOlive(k);
    } else if k < 6 {
      PaletteNavyPurple(k);
    } else if k < 8 {
      PaletteTealSilver(k);
    } else if k < 10 {
      PaletteGreyRed(k);
    } else if k < 12 {
      PaletteLimeYellow(k);
    } else if k < 14 {
      PaletteBlueFuchsia(k);
    } else {
      PaletteAquaWhite(k);
    }
  }

  /** Each palette string is matched by the pattern, and reads as its colour. */
  lemma PaletteParses(k: int)
    requires 0 <= k < 16
    ensures MatchRgb(Palette[k]) == Some(PaletteRgb[k])
  {
    PaletteEntry(k);
    FormatRgbRoundTrip(PaletteRgb[k], ",");
  }

  /** k is the first palette entry at least distance from c. */
  predicate IsFirstNearest(c: Rgb, k: int) {
    && 0 <= k < 16
    && (forall j | 0 <= j < 16 :: SqDist(c, PaletteRgb[k]) <= SqDist(c, PaletteRgb[j]))
    && (forall j | 0 <= j < k :: SqDist(c, PaletteRgb[j]) > SqDist(c, PaletteRgb[k]))
  }

  /** There is at most one first-nearest entry. */
  lemma FirstNearestUnique(c: Rgb, k1: int, k2: int)
    requires IsFirstNearest(c, k1) && IsFirstNearest(c, k2)
    ensures k1 == k2
  {
    assert SqDist(c, PaletteRgb[k1]) == SqDist(c, PaletteRgb[k2]);
  }

  /** The `forEach` scan with `dist < minDist`, from entry i on, with the best
      entry so far in `best`. Distances are compared squared: the square root
      the source takes is increasing, so it picks the same entry. */
  function NearestFrom(c: Rgb, i: nat, best: nat): (k: nat)
    requires best < i <= 16
    requires forall j | 0 <= j < best :: SqDist(c, PaletteRgb[j]) > SqDist(c, PaletteRgb[best])
    requires forall j | best <= j < i :: SqDist(c, PaletteRgb[best]) <= SqDist(c, PaletteRgb[j])
    decreases 16 - i
    ensures IsFirstNearest(c, k)
  {
    if i == 16 then best
    else if SqDist(c, PaletteRgb[i]) < SqDist(c, PaletteRgb[best]) then NearestFrom(c, i + 1, i)
    else NearestFrom(c, i + 1, best)
  }

  /** The scan starts on entry 0, which always beats the initial Infinity. */
  function Nearest(c: Rgb): (k: nat)
    ensures IsFirstNearest(c, k)
  {
    NearestFrom(c, 1, 0)
  }

  /** `rgbToAnsi`: a string the pattern does not match comes back unchanged;
      otherwise the result is the palette string of the first entry nearest
      to the matched colour. */
  function RgbToAnsi(s: string): (r: string)
    ensures MatchRgb(s).None? ==> r == s
    ensures MatchRgb(s).Some? ==> exists k :: IsFirstNearest(MatchRgb(s).value, k) && r == Palette[k]
  {
    match MatchRgb(s)
    case None => s
    case Some(c) => Palette[Nearest(c)]
  }

  lemma PaletteDistinct()
    ensures forall i, j | 0 <= i < j < 16 :: PaletteRgb[i] != PaletteRgb[j]
  {
  }

  /** A palette colour's own string maps to itself. */
  lemma AnsiFixesPalette(k: int)
    requires 0 <= k < 16
    ensures RgbToAnsi(Palette[k]) == Palette[k]
  {
    PaletteParses(k);
    PaletteDistinct();
    var c := PaletteRgb[k];
    var m := Nearest(c);
    assert SqDist(c, PaletteRgb[m]) <= SqDist(c, c) == 0;
  }

  /** A cell's colour string quantises to the first nearest palette entry. */
  lemma AnsiOfCellColor(c: Rgb)
    requires c.r >= 0 && c.g >= 0 && c.b >= 0
    ensures IsFirstNearest(c, Nearest(c))
    ensures RgbToAnsi(CellColor(c)) == Palette[Nearest(c)]
  {
    CellColorRoundTrip(c);
  }

  /** The colour string of a cell whose colour is exactly palette entry k
      maps to that entry's own string. */
  lemma AnsiOfPaletteColor(k: int)
    requires 0 <= k < 16
    ensures RgbToAnsi(CellColor(PaletteRgb[k])) == Palette[k]
  {
    var c := PaletteRgb[k];
    PaletteDistinct();
    forall j | 0 <= j < k
      ensures SqDist(c, PaletteRgb[j]) > SqDist(c, PaletteRgb[k])
    {
      assert PaletteRgb[j] != c;
    }
    assert IsFirstNearest(c, k);
    NearestIsFirstNearest(c, k);
    AnsiOfCellColor(c);
  }

  /** The scan's answer is the one first-nearest entry. */
  lemma NearestIsFirstNearest(c: Rgb, k: int)
    requires IsFirstNearest(c, k)
    ensures Nearest(c) == k
  {
    FirstNearestUnique(c, Nearest(c), k);
  }

  /** Black is entry 0, at distance zero. */
  lemma NearestOfBlack(c: Rgb)
    requires c == Rgb(0, 0, 0)
    ensures Nearest(c) == 0
  {
    assert PaletteRgb[0] == c;
    NearestIsFirstNearest(c, 0);
  }

  /** (254, 1, 1) is nearest to bright red, entry 9, at squared distance 3. */
  lemma NearestOfNearRed(c: Rgb)
    requires c == Rgb(254, 1, 1)
    ensures Nearest(c) == 9
  {
    assert SqDist(c, PaletteRgb[9]) == 3;
    forall j | 0 <= j < 16 && j != 9
      ensures SqDist(c, PaletteRgb[j]) > 3
    {
      NearRedFar(c, j);
    }
    NearestIsFirstNearest(c, 9);
  }

  /** Every entry but bright red is more than distance 3 from (254, 1, 1):
      each is at least 62 off in red, or 254 off in green or blue. */
  lemma NearRedFar(c: Rgb, j: int)
    requires c == Rgb(254, 1, 1) && 0 <= j < 16 && j != 9
    ensures SqDist(c, PaletteRgb[j]) > 3
  {
    var e := PaletteRgb[j];
    assert e.r <= 192 || e.g == 255 || e.b == 255;
  }

  /** Black's colour string maps to black. */
  lemma AnsiOfBlack(c: Rgb)
    requires c == Rgb(0, 0, 0)
    ensures RgbToAnsi(CellColor(c)) == "rgb(0,0,0)"
  {
    NearestOfBlack(c);
    AnsiOfCellColor(c);
  }

  /** The colour string of (254, 1, 1) maps to bright red, `rgb(255,0,0)`. */
  lemma AnsiOfNearRed(c: Rgb)
    requires c == Rgb(254, 1, 1)
    ensures RgbToAnsi(CellColor(c)) == Palette[9]
  {
    NearestOfNearRed(c);
    AnsiOfCellColor(c);
  }

  /** The white every malformed colour string falls back to. */
  const White: Rgb := Rgb(255, 255, 255)

  predicate IsHexDigit(c: char) {
    '0' <= c <= '9' || 'a' <= c <= 'f' || 'A' <= c <= 'F'
  }

  function HexValue(c: char): (v: int)
    requires IsHexDigit(c)
    ensures 0 <= v < 16
  {
    if '0' <= c <= '9' then c as int - '0' as int
    else if 'a' <= c <= 'f' then c as int - 'a' as int + 10
    else c as int - 'A' as int + 10
  }

  /** Six hex digits, the body `#?` leaves to `([a-f\d]{2}){3}` under the `i` flag. */
  predicate IsHexBody(s: string) {
    |s| == 6 && forall k | 0 <= k < 6 :: IsHexDigit(s[k])
  }

  /** `hexToRgb`: `/^#?([a-f\d]{2})([a-f\d]{2})([a-f\d]{2})$/i`, each pair read
      base 16; any other string gives white. */
  function HexToRgb(s: string): (c: Rgb)
    ensures c.IsBytes()
    ensures !IsHexBody(s) && !(|s| == 7 && s[0] == '#' && IsHexBody(s[1..])) ==> c == White
  {
    var body := if |s| == 7 && s[0] == '#' then s[1..] else s;
    if IsHexBody(body) then
      Rgb(16 * HexValue(body[0]) + HexValue(body[1]),
          16 * HexValue(body[2]) + HexValue(body[3]),
          16 * HexValue(body[4]) + HexValue(body[5]))
    else White
  }

  function HexDigit(d: int, upper: bool): (c: char)
    requires 0 <= d < 16
    ensures IsHexDigit(c) && HexValue(c) == d
  {
    if d < 10 then ('0' as int + d) as char
    else if upper then ('A' as int + d - 10) as char
    else ('a' as int + d - 10) as char
  }

  /** The `#rrggbb` (or bare `rrggbb`) text of a colour; `upper[k]` chooses
      the case of the k-th digit, so every mixed-case spelling is one of these. */
  function FormatHex(c: Rgb, hash: bool, upper: seq<bool>): (text: string)
    requires c.IsBytes() && |upper| == 6
    ensures |text| == if hash then 7 else 6
  {
    (if hash then "#" else "") +
    [HexDigit(c.r / 16, upper[0]), HexDigit(c.r % 16, upper[1]),
     HexDigit(c.g / 16, upper[2]), HexDigit(c.g % 16, upper[3]),
     HexDigit(c.b / 16, upper[4]), HexDigit(c.b % 16, upper[5])]
  }

  /** Parsing the hex text of a colour gives the colour back, with or without
      the `#`, whatever the case of each digit. */
  lemma HexRoundTrip(c: Rgb, hash: bool, upper: seq<bool>)
    requires c.IsBytes() && |upper| == 6
    ensures HexToRgb(FormatHex(c, hash, upper)) == c
  {
    var s := FormatHex(c, hash, upper);
    var body := if hash then s[1..] else s;
    assert IsHexBody(body);
  }

  lemma HexExamples()
    ensures HexToRgb("#ffffff") == White
    ensures HexToRgb("#00FF00") == Rgb(0, 255, 0)
    ensures HexToRgb("00ff00") == Rgb(0, 255, 0)
    ensures HexToRgb("#aAbBcC") == Rgb(170, 187, 204)
    ensures HexToRgb("#fff") == White
    ensures HexToRgb("#00ff0g") == White
  {
    assert !IsHexDigit('g');
  }
}
