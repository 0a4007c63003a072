/**
  The price normaliser that link_scraper.py, new_main.py and main.py each carry
  a copy of: `convert_to_float` reads a Brazilian-formatted price
  ("R$ 1.234,56") as a number, and `format_to_currency` renders a number in
  that format again. A number is an exact decimal here, and the amounts
  `format_to_currency` renders are whole cents.
 */
module Prices {
  import opened Text

  /** The exact non-negative decimal `digits / 10^scale`. */
  datatype Decimal = Decimal(digits: nat, scale: nat)

  const ZERO := Decimal(0, 0)

  // ---------------------------------------------------------------------------
  // convert_to_float
  // ---------------------------------------------------------------------------

  /**
    The text `convert_to_float` hands to `float()`: every "R$" and then every
    "$" deleted, every "." deleted, every "," turned into ".", and the
    whitespace at both ends stripped. (`ReplaceChar` is `str.replace` with a
    one-character pattern; `Text.ReplaceCharIsReplace` shows the two agree.)
   */
  function CleanPrice(s: string): string
  {
    Strip(ReplaceChar(ReplaceChar(ReplaceChar(Replace(s, "R$", ""), '$', ""), '.', ""), ',', "."))
  }

  /**
    `float(t)` on the decimal literals a price can turn into: digits with at
    most one ".", and at least one digit. `None` where `float` raises
    `ValueError`.
   */
  function ParseFloat(t: string): Option<Decimal>
  {
    match IndexOf(t, ".")
    case None =>
      if t != [] && AllDigits(t) then Some(Decimal(DigitsValue(t), 0)) else None
    case Some(i) =>
      var whole, frac := t[..i], t[i + 1..];
      if whole + frac != [] && AllDigits(whole + frac)
      then Some(Decimal(DigitsValue(whole + frac), |frac|))
      else None
  }

  /** `convert_to_float(price_str)`: 0 for the empty string and for anything `float` refuses. */
  function ConvertToFloat(s: string): Decimal
  {
    if s == [] then ZERO
    else match ParseFloat(CleanPrice(s))
      case Some(d) => d
      case None => ZERO
  }

  // ---------------------------------------------------------------------------
  // format_to_currency
  // ---------------------------------------------------------------------------

  /** The digits `ds` split into groups of three from the right, joined by `sep`. */
  function Group(ds: string, sep: string): string
    decreases |ds|
  {
    if |ds| <= 3 then ds else Group(ds[..|ds| - 3], sep) + sep + ds[|ds| - 3..]
  }

  function TwoDigits(n: nat): string
    requires n < 100
  {
    [DigitChar(n / 10), DigitChar(n % 10)]
  }

  /** Python's `f"{value:,.2f}"` for `value == cents / 100`: "1,234.56". */
  function FixedPointWithCommas(cents: nat): string
  {
    Group(NatToString(cents / 100), ",") + "." + TwoDigits(cents % 100)
  }

  /**
    `format_to_currency(value)`: `f"R$ {value:,.2f}"`, then every "," turned
    into "X", every "." into ",", and every "X" into ".".
   */
  function FormatToCurrency(cents: nat): string
  {
    ReplaceChar(ReplaceChar(ReplaceChar("R$ " + FixedPointWithCommas(cents), ',', "X"), '.', ","), 'X', ".")
  }

  /**
    The rounding `:.2f` applies: the nearest whole number of cents, ties to
    the even neighbour.
   */
  function RoundHalfEven(n: nat, p: nat): (q: nat)
    requires p >= 1
    ensures q == n / p || q == n / p + 1
    ensures q == n / p ==> 2 * (n % p) <= p
    ensures q == n / p + 1 ==> 2 * (n % p) >= p
    ensures 2 * (n % p) == p ==> q % 2 == 0
  {
    var q, rem := n / p, n % p;
    if 2 * rem < p then q
    else if 2 * rem > p then q + 1
    else if q % 2 == 0 then q
    else q + 1
  }

  /** The whole number of cents `format_to_currency` renders for the number `d`. */
  function ToCents(d: Decimal): nat
  {
    if d.scale <= 2 then d.digits * Pow10(2 - d.scale)
    else RoundHalfEven(d.digits, Pow10(d.scale - 2))
  }

  /** `format_to_currency(convert_to_float(s))`, the normalisation every scraped price goes through. */
  function Normalize(s: string): string
  {
    FormatToCurrency(ToCents(ConvertToFloat(s)))
  }


  // ---------------------------------------------------------------------------
  // Properties of convert_to_float
  // ---------------------------------------------------------------------------

  /** Text without a single digit, "N/A", " " and "" among it, converts to 0. */
  lemma ConvertWithoutDigitsIsZero(s: string)
    requires forall i :: 0 <= i < |s| ==> !IsDigit(s[i])
    ensures ConvertToFloat(s) == ZERO
  {
    if s != [] {
      NoDigitsSurviveCleaning(s);
      ParseWithoutDigits(CleanPrice(s));
    }
  }

  /** `float` refuses a string without a single digit. */
  lemma ParseWithoutDigits(t: string)
    requires forall i :: 0 <= i < |t| ==> !IsDigit(t[i])
    ensures ParseFloat(t) == None
  {
    match IndexOf(t, ".")
    case None =>
      if t != [] { assert !IsDigit(t[0]); }
    case Some(i) =>
      var whole, frac := t[..i], t[i + 1..];
      if whole != [] { assert whole[0] == t[0]; }
      if frac != [] { assert frac[0] == t[i + 1]; }
  }

  /** Cleaning only deletes and rewrites "R", "$", "." and ",": it never produces a digit. */
  lemma NoDigitsSurviveCleaning(s: string)
    requires forall i :: 0 <= i < |s| ==> !IsDigit(s[i])
    ensures forall i :: 0 <= i < |CleanPrice(s)| ==> !IsDigit(CleanPrice(s)[i])
  {
    forall c: char | IsDigit(c)
      ensures c !in CleanPrice(s)
    {
      var s1 := Replace(s, "R$", "");
      var s2 := ReplaceChar(s1, '$', "");
      var s3 := ReplaceChar(s2, '.', "");
      var s4 := ReplaceChar(s3, ',', ".");
      ReplaceKeepsAbsent(s, "R$", "", c);
      ReplaceCharKeepsAbsent(s1, '$', "", c);
      ReplaceCharKeepsAbsent(s2, '.', "", c);
      ReplaceCharKeepsAbsent(s3, ',', ".", c);
      StripKeepsAbsent(s4, c);
    }
  }

  /** A string of digits and "." reads with every "." taken as a thousands separator: "1.5" is 15. */
  lemma ConvertDotsAreThousands(s: string)
    requires forall i :: 0 <= i < |s| ==> IsDigit(s[i]) || s[i] == '.'
    requires exists i :: 0 <= i < |s| && IsDigit(s[i])
    ensures AllDigits(ReplaceChar(s, '.', ""))
    ensures ConvertToFloat(s) == Decimal(DigitsValue(ReplaceChar(s, '.', "")), 0)
  {
    var t := ReplaceChar(s, '.', "");
    DeleteDots(s);
    CleanDigitsAndDots(s, t);
    ParseDigits(t);
    assert s != [];
  }

  /** `float` of a string of digits is that whole number. */
  lemma ParseDigits(t: string)
    requires t != [] && AllDigits(t)
    ensures ParseFloat(t) == Some(Decimal(DigitsValue(t), 0))
  {
    NoPointInDigits(t);
  }

  lemma CleanDigitsAndDots(s: string, t: string)
    requires forall i :: 0 <= i < |s| ==> IsDigit(s[i]) || s[i] == '.'
    requires t == ReplaceChar(s, '.', "") && t != [] && AllDigits(t)
    ensures CleanPrice(s) == t
  {
    NoCurrencySymbols(s);
    NoCommas(t);
    StripDigits(t);
    CleanSteps(s, s, s, t, t, t);
  }

  lemma NoCurrencySymbols(s: string)
    requires forall i :: 0 <= i < |s| ==> IsDigit(s[i]) || s[i] == '.'
    ensures Replace(s, "R$", "") == s && ReplaceChar(s, '$', "") == s
  {
    ReplaceAbsent(s, "R$", "");
    ReplaceCharAbsent(s, '$', "");
  }

  lemma NoCommas(t: string)
    requires AllDigits(t)
    ensures ReplaceChar(t, ',', ".") == t
  {
    ReplaceCharAbsent(t, ',', ".");
  }

  lemma StripDigits(t: string)
    requires t != [] && AllDigits(t)
    ensures Strip(t) == t
  {
    StripUnpadded(t);
  }

  /** `CleanPrice` from the results of its four replacements and the strip. */
  lemma CleanSteps(s: string, a: string, b: string, c: string, u: string, r: string)
    requires Replace(s, "R$", "") == a
    requires ReplaceChar(a, '$', "") == b
    requires ReplaceChar(b, '.', "") == c
    requires ReplaceChar(c, ',', ".") == u
    requires Strip(u) == r
    ensures CleanPrice(s) == r
  {
  }

  lemma NoPointInDigits(t: string)
    requires AllDigits(t)
    ensures IndexOf(t, ".") == None
  {
    forall j: nat | j + 1 <= |t|
      ensures !OccursAt(t, ".", j)
    {
      assert t[j..j + 1][0] == t[j];
    }
  }

  lemma {:induction false} DeleteDots(s: string)
    requires forall i :: 0 <= i < |s| ==> IsDigit(s[i]) || s[i] == '.'
    ensures AllDigits(ReplaceChar(s, '.', ""))
    ensures (exists i :: 0 <= i < |s| && IsDigit(s[i])) ==> ReplaceChar(s, '.', "") != []
  {
    if s != [] {
      DeleteDots(s[1..]);
      if exists i :: 0 <= i < |s| && IsDigit(s[i]) {
        var i :| 0 <= i < |s| && IsDigit(s[i]);
        if s[0] == '.' { assert s[1..][i - 1] == s[i]; }
      }
    }
  }

  /** "N/A", the placeholder the scrapers pass for a missing price, converts to 0. */
  lemma ConvertNotAvailable()
    ensures ConvertToFloat("N/A") == ZERO
  {
    ConvertWithoutDigitsIsZero("N/A");
  }

  /** "1.5" is fifteen, not one and a half. */
  lemma ConvertPointExample()
    ensures ConvertToFloat("1.5") == Decimal(15, 0)
  {
    assert IsDigit("1.5"[0]);
    ConvertDotsAreThousands("1.5");
    DeleteDotExample();
  }

  lemma DeleteDotExample()
    ensures ReplaceChar("1.5", '.', "") == "15"
    ensures DigitsValue("15") == 15
  {
    assert "1.5"[1..] == ".5" && ".5"[1..] == "5" && "5"[1..] == [];
    assert "15"[..1] == "1";
  }

  // ---------------------------------------------------------------------------
  // Properties of format_to_currency
  // ---------------------------------------------------------------------------

  predicate DigitsOr(s: string, c: char)
  {
    forall i :: 0 <= i < |s| ==> IsDigit(s[i]) || s[i] == c
  }

  /** Every character of a grouped number is a digit or the separator. */
  lemma {:induction false} GroupChars(ds: string, c: char)
    requires AllDigits(ds)
    ensures DigitsOr(Group(ds, [c]), c)
    decreases |ds|
  {
    if |ds| > 3 {
      GroupChars(ds[..|ds| - 3], c);
    }
  }

  /** Replacing the separator of a grouped number regroups it with the new separator. */
  lemma {:induction false} GroupReplace(ds: string, c: char, rep: string)
    requires AllDigits(ds) && !IsDigit(c)
    ensures ReplaceChar(Group(ds, [c]), c, rep) == Group(ds, rep)
    decreases |ds|
  {
    if |ds| <= 3 {
      ReplaceCharAbsent(ds, c, rep);
    } else {
      var hd, tl := ds[..|ds| - 3], ds[|ds| - 3..];
      GroupReplace(hd, c, rep);
      ReplaceCharConcat(Group(hd, [c]) + [c], tl, c, rep);
      ReplaceCharConcat(Group(hd, [c]), [c], c, rep);
      assert ReplaceChar([c], c, rep) == rep by {
        assert [c][1..] == [];
      }
      ReplaceCharAbsent(tl, c, rep);
    }
  }

  /** Grouping with an empty separator gives the digits back. */
  lemma {:induction false} GroupWithoutSeparator(ds: string)
    ensures Group(ds, "") == ds
    decreases |ds|
  {
    if |ds| > 3 {
      GroupWithoutSeparator(ds[..|ds| - 3]);
      assert ds[..|ds| - 3] + "" + ds[|ds| - 3..] == ds;
    }
  }

  /**
    The grouping is in threes: in a grouped number of length L the separator
    stands exactly at the positions i with L - i a multiple of 4, so the first
    group has one to three digits and every later group exactly three.
   */
  lemma {:induction false} GroupShape(ds: string, c: char)
    requires ds != [] && AllDigits(ds) && !IsDigit(c)
    ensures var g := Group(ds, [c]);
      && |g| % 4 != 0
      && forall i :: 0 <= i < |g| ==> (g[i] == c <==> (|g| - i) % 4 == 0)
    decreases |ds|
  {
    var g := Group(ds, [c]);
    if |ds| > 3 {
      var hd, tl := ds[..|ds| - 3], ds[|ds| - 3..];
      GroupShape(hd, c);
      assert g == Group(hd, [c]) + [c] + tl;
      SeparatorShapeStep(Group(hd, [c]), c, tl);
    } else {
      forall i | 0 <= i < |g|
        ensures g[i] != c && 1 <= |g| - i <= 3
      {
        assert g[i] == ds[i];
      }
    }
  }

  /** Appending a separator and a group of three digits keeps the separators every fourth position from the right. */
  lemma SeparatorShapeStep(h: string, c: char, tl: string)
    requires |h| % 4 != 0 && forall i :: 0 <= i < |h| ==> (h[i] == c <==> (|h| - i) % 4 == 0)
    requires |tl| == 3 && AllDigits(tl) && !IsDigit(c)
    ensures var g := h + [c] + tl;
      && |g| % 4 != 0
      && forall i :: 0 <= i < |g| ==> (g[i] == c <==> (|g| - i) % 4 == 0)
  {
    var g := h + [c] + tl;
    forall i | 0 <= i < |g|
      ensures g[i] == c <==> (|g| - i) % 4 == 0
    {
      if i < |h| {
        SeparatorInHead(h, c, tl, i);
      } else if i > |h| {
        SeparatorInTail(h, c, tl, i);
      }
    }
    ShiftByFour(|h|);
  }

  lemma SeparatorInHead(h: string, c: char, tl: string, i: nat)
    requires i < |h| && (h[i] == c <==> (|h| - i) % 4 == 0) && |tl| == 3
    ensures (h + [c] + tl)[i] == c <==> (|h + [c] + tl| - i) % 4 == 0
  {
    assert (h + [c] + tl)[i] == h[i];
    ShiftByFour(|h| - i);
  }

  lemma SeparatorInTail(h: string, c: char, tl: string, i: nat)
    requires |h| < i < |h| + 4 && |tl| == 3 && AllDigits(tl) && !IsDigit(c)
    ensures (h + [c] + tl)[i] != c && (|h + [c] + tl| - i) % 4 != 0
  {
    assert (h + [c] + tl)[i] == tl[i - |h| - 1];
  }

  lemma ShiftByFour(a: int)
    ensures (a + 4) % 4 == a % 4
  {
  }

  /**
    Replacing a character that is not a digit in "P" + grouped digits + "Q" +
    more digits, with P and Q free of it, touches only the groups and Q.
   */
  lemma ReplaceAroundDigits(p: string, g: string, q: string, t: string, c: char, rep: string)
    requires AllDigits(t) && !IsDigit(c) && c !in p
    ensures ReplaceChar(p + g + q + t, c, rep)
         == p + ReplaceChar(g, c, rep) + ReplaceChar(q, c, rep) + t
  {
    ReplaceCharConcat(p + g + q, t, c, rep);
    ReplaceCharConcat(p + g, q, c, rep);
    ReplaceCharConcat(p, g, c, rep);
    ReplaceCharAbsent(p, c, rep);
    ReplaceCharAbsent(t, c, rep);
  }

  /**
    The shape of `format_to_currency`'s output: "R$ ", the whole reais grouped
    in threes with ".", then ",", then exactly two digits of cents.
   */
  lemma FormatShape(cents: nat)
    ensures FormatToCurrency(cents)
         == "R$ " + Group(NatToString(cents / 100), ".") + "," + TwoDigits(cents % 100)
  {
    var n, t := NatToString(cents / 100), TwoDigits(cents % 100);
    TwoDigitsValue(cents % 100);
    assert "R$ " + FixedPointWithCommas(cents) == "R$ " + Group(n, ",") + "." + t;
    SwapSeparators(n, t);
  }

  /** The three `replace` calls of `format_to_currency` swap "," and "." in "R$ 1,234.56". */
  lemma SwapSeparators(n: string, t: string)
    requires AllDigits(n) && AllDigits(t)
    ensures ReplaceChar(ReplaceChar(ReplaceChar("R$ " + Group(n, ",") + "." + t, ',', "X"), '.', ","), 'X', ".")
         == "R$ " + Group(n, ".") + "," + t
  {
    var s1 := "R$ " + Group(n, "X") + "." + t;
    var s2 := "R$ " + Group(n, "X") + "," + t;
    ReplaceAroundDigits("R$ ", Group(n, ","), ".", t, ',', "X");
    GroupReplace(n, ',', "X");
    ReplaceCharAbsent(".", ',', "X");
    assert ReplaceChar("R$ " + Group(n, ",") + "." + t, ',', "X") == s1;
    ReplaceAroundDigits("R$ ", Group(n, "X"), ".", t, '.', ",");
    GroupChars(n, 'X');
    ReplaceCharAbsent(Group(n, "X"), '.', ",");
    assert ReplaceChar(".", '.', ",") == ",";
    assert ReplaceChar(s1, '.', ",") == s2;
    ReplaceAroundDigits("R$ ", Group(n, "X"), ",", t, 'X', ".");
    GroupReplace(n, 'X', ".");
    ReplaceCharAbsent(",", 'X', ".");
  }

  lemma FormatZero()
    ensures FormatToCurrency(0) == "R$ 0,00"
  {
    FormatShape(0);
    assert NatToString(0) == "0";
    assert TwoDigits(0) == "00";
  }

  lemma FormatThousands()
    ensures FormatToCurrency(123456) == "R$ 1.234,56"
  {
    FormatShape(123456);
    assert 123456 / 100 == 1234 && 123456 % 100 == 56;
    NatToString1234();
    assert TwoDigits(56) == "56";
    assert "R$ " + "1.234" + "," + "56" == "R$ 1.234,56";
  }

  lemma NatToString1234()
    ensures NatToString(1234) == "1234"
    ensures Group("1234", ".") == "1.234"
  {
    assert NatToString(1) == "1";
    assert NatToString(12) == "12";
    assert NatToString(123) == "123";
    assert "1234"[..1] == "1";
    assert "1234"[1..] == "234";
  }

  // ---------------------------------------------------------------------------
  // The round trip
  // ---------------------------------------------------------------------------

  /**
    Reading back a rendered amount gives exactly that amount: the text
    `format_to_currency` produces for `cents` converts to `cents / 100`.
   */
  lemma ConvertFormatted(cents: nat)
    ensures ConvertToFloat(FormatToCurrency(cents)) == Decimal(cents, 2)
  {
    var n, t := NatToString(cents / 100), TwoDigits(cents % 100);
    CleanFormatted(cents);
    ReadCents(cents);
    TwoDigitsValue(cents % 100);
    ConvertCentsText(FormatToCurrency(cents), n, t, cents);
  }

  /** A price whose clean-up is "n.t", with two digits `t`, converts to the amount `nt` in cents. */
  lemma ConvertCentsText(f: string, n: string, t: string, cents: nat)
    requires n != [] && AllDigits(n) && AllDigits(t) && |t| == 2
    requires CleanPrice(f) == n + "." + t
    requires DigitsValue(n + t) == cents
    ensures ConvertToFloat(f) == Decimal(cents, 2)
  {
    ConvertFixedPoint(f, n, t);
  }

  /** Rendering whole cents and reading them back loses nothing: the amount is `cents` again. */
  lemma FormattedRoundTrip(cents: nat)
    ensures ToCents(ConvertToFloat(FormatToCurrency(cents))) == cents
  {
    ConvertFormatted(cents);
    assert ToCents(Decimal(cents, 2)) == cents * Pow10(0);
  }

  /** The digits of the whole reais followed by the two digits of cents read back as the amount in cents. */
  lemma ReadCents(cents: nat)
    ensures AllDigits(NatToString(cents / 100) + TwoDigits(cents % 100))
    ensures DigitsValue(NatToString(cents / 100) + TwoDigits(cents % 100)) == cents
  {
    var n, t := NatToString(cents / 100), TwoDigits(cents % 100);
    TwoDigitsValue(cents % 100);
    DigitsValueAppend(n, t);
    assert Pow10(2) == 100;
  }

  lemma TwoDigitsValue(n: nat)
    requires n < 100
    ensures AllDigits(TwoDigits(n)) && DigitsValue(TwoDigits(n)) == n
  {
    var t := TwoDigits(n);
    var hi, lo := n / 10, n % 10;
    assert t[..1] == [DigitChar(hi)];
    assert DigitsValue(t[..1]) == DigitsValue([DigitChar(hi)]) == hi by {
      assert [DigitChar(hi)][..0] == [];
    }
    assert DigitValue(t[1]) == lo;
    assert hi * 10 + lo == n;
  }

  lemma ConvertFixedPoint(f: string, whole: string, frac: string)
    requires whole != [] && AllDigits(whole) && AllDigits(frac)
    requires CleanPrice(f) == whole + "." + frac
    ensures AllDigits(whole + frac)
    ensures ConvertToFloat(f) == Decimal(DigitsValue(whole + frac), |frac|)
  {
    ParseFixedPoint(whole, frac);
  }

  /** What `convert_to_float` hands to `float()` for a rendered amount: "1234.56". */
  lemma CleanFormatted(cents: nat)
    ensures CleanPrice(FormatToCurrency(cents)) == NatToString(cents / 100) + "." + TwoDigits(cents % 100)
  {
    FormatShape(cents);
    TwoDigitsValue(cents % 100);
    CleanShaped(NatToString(cents / 100), TwoDigits(cents % 100));
  }

  lemma CleanShaped(n: string, t: string)
    requires n != [] && AllDigits(n) && AllDigits(t) && |t| == 2
    ensures CleanPrice("R$ " + Group(n, ".") + "," + t) == n + "." + t
  {
    var g := Group(n, ".");
    var rest := " " + g + "," + t;
    var u := n + "." + t;
    SplitCurrencySymbol(g, t);
    DropCurrencySymbols(rest, g, t, n);
    DeleteGroupDots(n, t);
    CommaToPoint(n, t);
    StripSpacedAmount(n, t);
    CleanSteps("R$ " + g + "," + t, rest, rest, " " + n + "," + t, " " + n + "." + t, u);
  }

  lemma SplitCurrencySymbol(g: string, t: string)
    ensures "R$ " + g + "," + t == "R$" + (" " + g + "," + t)
  {
    assert "R$ " == "R$" + " ";
  }

  lemma StripSpacedAmount(n: string, t: string)
    requires n != [] && AllDigits(n) && AllDigits(t) && |t| == 2
    ensures Strip(" " + n + "." + t) == n + "." + t
  {
    var u := n + "." + t;
    assert " " + n + "." + t == [' '] + u;
    StripLeadingSpace(' ', u);
  }

  lemma DropCurrencySymbols(rest: string, g: string, t: string, n: string)
    requires rest == " " + g + "," + t && g == Group(n, ".") && AllDigits(n) && AllDigits(t)
    ensures Replace("R$" + rest, "R$", "") == rest && ReplaceChar(rest, '$', "") == rest
  {
    GroupChars(n, '.');
    assert 'R' !in rest && '$' !in rest;
    assert ("R$" + rest)[..2] == "R$" && ("R$" + rest)[2..] == rest;
    ReplaceAbsent(rest, "R$", "");
    ReplaceCharAbsent(rest, '$', "");
  }

  lemma DeleteGroupDots(n: string, t: string)
    requires AllDigits(n) && AllDigits(t)
    ensures ReplaceChar(" " + Group(n, ".") + "," + t, '.', "") == " " + n + "," + t
  {
    ReplaceAroundDigits(" ", Group(n, "."), ",", t, '.', "");
    GroupReplace(n, '.', "");
    GroupWithoutSeparator(n);
    ReplaceCharAbsent(",", '.', "");
  }

  lemma CommaToPoint(n: string, t: string)
    requires AllDigits(n) && AllDigits(t)
    ensures ReplaceChar(" " + n + "," + t, ',', ".") == " " + n + "." + t
  {
    ReplaceAroundDigits(" ", n, ",", t, ',', ".");
    ReplaceCharAbsent(n, ',', ".");
    assert ReplaceChar(",", ',', ".") == ".";
  }

  /** `float("1234.56")`: the digits before and after the point, read as one exact decimal. */
  lemma ParseFixedPoint(whole: string, frac: string)
    requires whole != [] && AllDigits(whole) && AllDigits(frac)
    ensures AllDigits(whole + frac)
    ensures ParseFloat(whole + "." + frac) == Some(Decimal(DigitsValue(whole + frac), |frac|))
  {
    DigitsValueAppend(whole, frac);
    var s := whole + "." + frac;
    assert s[|whole|..|whole| + 1] == ".";
    assert OccursAt(s, ".", |whole|);
    var r := IndexOf(s, ".");
    assert r.Some?;
    var i := r.value;
    assert i == |whole|;
    assert s[..i] == whole && s[i + 1..] == frac;
  }

  /** Normalising an already normalised price changes nothing. */
  lemma NormalizeIdempotent(s: string)
    ensures Normalize(Normalize(s)) == Normalize(s)
  {
    FormattedRoundTrip(ToCents(ConvertToFloat(s)));
  }

  /** A rendered amount is normalised already. */
  lemma NormalizeFormatted(cents: nat)
    ensures Normalize(FormatToCurrency(cents)) == FormatToCurrency(cents)
  {
    FormattedRoundTrip(cents);
  }

  /** "R$ 1.234,56" reads as 1234.56. */
  lemma ConvertBrazilianExample()
    ensures ConvertToFloat("R$ 1.234,56") == Decimal(123456, 2)
  {
    FormatThousands();
    ConvertFormatted(123456);
  }
}
