/** How the database-backed evaluation pass of app/app.py turns the quote
    of stock/stock_utils.py into a number: the quote carries the current
    price as a dollar string ("$123.45"), as "N/A", or not at all when the
    provider call failed; the pass strips "$" and "," and parses the rest
    as a float, and falls back to the last daily close when the quote has
    no price. */
module PriceParsing {
  import opened Common

  /** The `current_price` entry of a quote. */
  datatype PriceField = Text(text: string) | Number(amount: real) | OtherValue

  /** A quote: `Failed` is the dictionary holding only an `error` key. */
  datatype StockInfo = Failed | Info(currentPrice: PriceField)

  predicate IsDigit(c: char)
  {
    '0' <= c <= '9'
  }

  predicate AllDigits(s: string)
  {
    forall i :: 0 <= i < |s| ==> IsDigit(s[i])
  }

  function DigitValue(c: char): nat
    requires IsDigit(c)
  {
    c as int - '0' as int
  }

  /** The number a string of decimal digits denotes (0 for the empty string). */
  function DigitsValue(s: string): nat
    requires AllDigits(s)
  {
    if s == [] then 0 else DigitsValue(s[..|s| - 1]) * 10 + DigitValue(s[|s| - 1])
  }

  function Pow10(n: nat): (r: nat)
    ensures r >= 1
  {
    if n == 0 then 1 else 10 * Pow10(n - 1)
  }

  /** The value of the decimal literal `whole` "." `frac`. */
  function DecimalValue(whole: string, frac: string): real
    requires AllDigits(whole) && AllDigits(frac)
  {
    DigitsValue(whole) as real + DigitsValue(frac) as real / Pow10(|frac|) as real
  }

  /** The index of the first '.', if any. */
  function FindDot(s: string): (r: Option<nat>)
    ensures r.Some? ==> r.value < |s| && s[r.value] == '.' && '.' !in s[..r.value]
    ensures r.None? ==> '.' !in s
  {
    if s == [] then None
    else if s[0] == '.' then Some(0)
    else match FindDot(s[1..])
      case Some(k) =>
        assert s[..k + 1] == [s[0]] + s[1..][..k];
        Some(k + 1)
      case None =>
        assert s == [s[0]] + s[1..];
        None
  }

  /** Some character of `s` is a decimal digit. */
  predicate HasDigit(s: string)
  {
    exists i :: 0 <= i < |s| && IsDigit(s[i])
  }

  lemma HasDigitPrefix(s: string, k: nat)
    requires k <= |s| && HasDigit(s[..k])
    ensures HasDigit(s)
  {
    var i :| 0 <= i < k && IsDigit(s[..k][i]);
    assert s[i] == s[..k][i];
  }

  lemma HasDigitSuffix(s: string, k: nat)
    requires k <= |s| && HasDigit(s[k..])
    ensures HasDigit(s)
  {
    var i :| 0 <= i < |s| - k && IsDigit(s[k..][i]);
    assert s[k + i] == s[k..][i];
  }

  /** A decimal literal without sign or exponent: digits, optionally
      followed by '.' and more digits, with at least one digit in all. */
  function ParseDecimal(s: string): (r: Option<real>)
    ensures r.Some? ==> HasDigit(s)
  {
    match FindDot(s)
    case None =>
      if |s| > 0 && AllDigits(s) then
        assert IsDigit(s[0]);
        Some(DigitsValue(s) as real)
      else None
    case Some(k) =>
      var whole := s[..k];
      var frac := s[k + 1..];
      if AllDigits(whole) && AllDigits(frac) && |whole| + |frac| > 0 then
        assert if |whole| > 0 then s[0] == whole[0] && IsDigit(s[0]) else s[k + 1] == frac[0] && IsDigit(s[k + 1]);
        Some(DecimalValue(whole, frac))
      else
        None
  }

  predicate IsExponentMark(c: char)
  {
    c == 'e' || c == 'E'
  }

  /** The index of the first 'e' or 'E', if any. */
  function FindExponent(s: string): (r: Option<nat>)
    ensures r.Some? ==> r.value < |s| && IsExponentMark(s[r.value]) && forall i :: 0 <= i < r.value ==> !IsExponentMark(s[i])
    ensures r.None? ==> forall i :: 0 <= i < |s| ==> !IsExponentMark(s[i])
  {
    if s == [] then None
    else if IsExponentMark(s[0]) then Some(0)
    else match FindExponent(s[1..])
      case Some(k) =>
        assert forall i :: 1 <= i < k + 1 ==> s[i] == s[1..][i - 1];
        Some(k + 1)
      case None =>
        assert forall i :: 1 <= i < |s| ==> s[i] == s[1..][i - 1];
        None
  }

  predicate IsSign(c: char)
  {
    c == '+' || c == '-'
  }

  /** The exponent after 'e': an optional sign and at least one digit. */
  function ParseExponent(s: string): (r: Option<int>)
    ensures r.Some? ==> HasDigit(s)
  {
    if |s| > 0 && IsSign(s[0]) then
      var d := s[1..];
      if |d| > 0 && AllDigits(d) then
        assert s[1] == d[0] && IsDigit(s[1]);
        var n: int := DigitsValue(d);
        Some(if s[0] == '-' then -n else n)
      else None
    else if |s| > 0 && AllDigits(s) then
      assert IsDigit(s[0]);
      Some(DigitsValue(s))
    else None
  }

  /** Ten to the power minus `n`. */
  function InversePow10(n: nat): (r: real)
    ensures r > 0.0
  {
    if n == 0 then 1.0 else InversePow10(n - 1) / 10.0
  }

  lemma {:induction false} InversePow10Inverse(n: nat)
    ensures InversePow10(n) * Pow10(n) as real == 1.0
  {
    if n > 0 {
      InversePow10Inverse(n - 1);
      calc {
        InversePow10(n) * Pow10(n) as real;
        (InversePow10(n - 1) / 10.0) * (10.0 * Pow10(n - 1) as real);
        InversePow10(n - 1) * Pow10(n - 1) as real;
      }
    }
  }

  /** `m` times ten to the power `e`. */
  function Scale(m: real, e: int): real
  {
    if e >= 0 then m * Pow10(e) as real else m * InversePow10(-e)
  }

  /** An unsigned literal: a decimal literal, optionally followed by 'e' or
      'E' and an exponent. */
  function ParseUnsigned(s: string): (r: Option<real>)
    ensures r.Some? ==> HasDigit(s)
  {
    match FindExponent(s)
    case None => ParseDecimal(s)
    case Some(k) =>
      match (ParseDecimal(s[..k]), ParseExponent(s[k + 1..]))
      case (Some(m), Some(e)) =>
        HasDigitPrefix(s, k);
        Some(Scale(m, e))
      case _ => None
  }

  /** Python's `float()` on a finite literal: an optional sign, then an
      unsigned literal. A literal without any digit never parses, and a
      string of digits parses to the number it denotes. */
  function ParseFloat(s: string): (r: Option<real>)
    ensures r.Some? ==> HasDigit(s)
    ensures |s| > 0 && AllDigits(s) ==> r == Some(DigitsValue(s) as real)
  {
    if |s| > 0 && IsSign(s[0]) then
      match ParseUnsigned(s[1..])
      case Some(x) =>
        HasDigitSuffix(s, 1);
        Some(if s[0] == '-' then -x else x)
      case None => None
    else
      if |s| > 0 && AllDigits(s) then
        assert IsDigit(s[0]);
        assert FindExponent(s) == None by {
          assert forall i :: 0 <= i < |s| ==> !IsExponentMark(s[i]) by {
            forall i | 0 <= i < |s| ensures !IsExponentMark(s[i]) {
              assert IsDigit(s[i]);
            }
          }
        }
        assert FindDot(s) == None by {
          NoDotInDigits(s);
        }
        ParseUnsigned(s)
      else
        ParseUnsigned(s)
  }

  /** `price_str.replace("$", "").replace(",", "")`. */
  function StripPrice(s: string): (r: string)
    ensures '$' !in r && ',' !in r
  {
    if s == [] then []
    else (if s[0] == '$' || s[0] == ',' then [] else [s[0]]) + StripPrice(s[1..])
  }

  /** Every character left after stripping was in the text. */
  lemma {:induction false} StripSubset(s: string)
    ensures forall c :: c in StripPrice(s) ==> c in s
  {
    if s != [] {
      StripSubset(s[1..]);
      assert forall c :: c in s[1..] ==> c in s;
    }
  }

  lemma StripKeepsDigit(s: string)
    requires HasDigit(StripPrice(s))
    ensures HasDigit(s)
  {
    var r := StripPrice(s);
    var i :| 0 <= i < |r| && IsDigit(r[i]);
    StripSubset(s);
    assert r[i] in s;
    var j :| 0 <= j < |s| && s[j] == r[i];
  }

  /** The price the pass uses for an order, or none when it skips the
      order: a failed quote or "N/A" falls back to the last close, a
      dollar string is stripped and parsed (a parse error skips), a number
      is taken as it is, and any other value skips. */
  function CurrentPrice(info: StockInfo, fallbackClose: Option<real>): (r: Option<real>)
    ensures info.Failed? || info.currentPrice == Text("N/A") ==> r == fallbackClose
    ensures info.Info? && info.currentPrice.Number? ==> r == Some(info.currentPrice.amount)
    ensures info.Info? && info.currentPrice.Text? && info.currentPrice.text != "N/A" ==>
      (r.Some? ==> |info.currentPrice.text| > 0 && info.currentPrice.text[0] == '$' && HasDigit(info.currentPrice.text))
    ensures info.Info? && info.currentPrice.OtherValue? ==> r.None?
  {
    if info.Failed? || info.currentPrice == Text("N/A") then fallbackClose
    else match info.currentPrice
      case Text(s) =>
        if |s| > 0 && s[0] == '$' then
          var p := ParseFloat(StripPrice(s));
          if p.Some? then StripKeepsDigit(s); p else p
        else None
      case Number(x) => Some(x)
      case OtherValue => None
  }

  // ---------------------------------------------------------------------
  // properties

  lemma {:induction false} StripConcat(a: string, b: string)
    ensures StripPrice(a + b) == StripPrice(a) + StripPrice(b)
  {
    if a == [] {
      assert a + b == b;
    } else {
      assert (a + b)[0] == a[0] && (a + b)[1..] == a[1..] + b;
      StripConcat(a[1..], b);
    }
  }

  /** Text holding neither "$" nor "," is left as it is. */
  lemma {:induction false} StripClean(s: string)
    requires '$' !in s && ',' !in s
    ensures StripPrice(s) == s
  {
    if s != [] {
      assert s[0] in s;
      assert forall c :: c in s[1..] ==> c in s;
      StripClean(s[1..]);
      assert s == [s[0]] + s[1..];
    }
  }

  /** Text starting with "$" (so not "N/A") is stripped and parsed. */
  lemma DollarText(x: string, fallbackClose: Option<real>)
    requires |x| > 0 && x[0] == '$'
    ensures CurrentPrice(Info(Text(x)), fallbackClose) == ParseFloat(StripPrice(x))
  {
    assert x != "N/A" by {
      assert "N/A"[0] == 'N';
    }
  }

  /** Stripping drops a "," wherever it stands. */
  lemma StripSeparator(a: string, b: string)
    ensures StripPrice(a + "," + b) == StripPrice(a + b)
  {
    assert a + "," + b == a + ("," + b);
    StripConcat(a, "," + b);
    StripConcat(a, b);
    assert ("," + b)[0] == ',' && ("," + b)[1..] == b;
  }

  /** Thousands separators do not change the parsed price. */
  lemma ThousandsSeparatorIgnored(a: string, b: string, fallbackClose: Option<real>)
    ensures CurrentPrice(Info(Text("$" + a + "," + b)), fallbackClose) == CurrentPrice(Info(Text("$" + a + b)), fallbackClose)
  {
    var x, y := "$" + a + "," + b, "$" + a + b;
    assert x[0] == '$' && y[0] == '$';
    DollarText(x, fallbackClose);
    DollarText(y, fallbackClose);
    StripSeparator("$" + a, b);
  }

  lemma {:induction false} FindDotAfter(w: string, f: string)
    requires AllDigits(w)
    ensures FindDot(w + "." + f) == Some(|w|)
  {
    if w == [] {
      assert (w + "." + f)[0] == '.';
    } else {
      assert (w + "." + f)[0] == w[0];
      assert (w + "." + f)[1..] == w[1..] + "." + f;
      assert AllDigits(w[1..]) by {
        forall i | 0 <= i < |w[1..]| ensures IsDigit(w[1..][i]) {
          assert w[1..][i] == w[i + 1];
        }
      }
      FindDotAfter(w[1..], f);
    }
  }

  lemma {:induction false} NoDotInDigits(w: string)
    requires AllDigits(w)
    ensures '.' !in w
  {
    forall i | 0 <= i < |w| ensures w[i] != '.' {
      assert IsDigit(w[i]);
    }
  }

  /** A decimal literal "<whole>.<fraction>" parses to its value. */
  lemma DecimalRoundTrip(whole: string, frac: string)
    requires AllDigits(whole) && AllDigits(frac) && |whole| > 0
    ensures ParseFloat(whole + "." + frac) == Some(DecimalValue(whole, frac))
    ensures ParseFloat(whole) == Some(DigitsValue(whole) as real)
  {
    var s := whole + "." + frac;
    FindDotAfter(whole, frac);
    assert s[..|whole|] == whole;
    assert s[|whole| + 1..] == frac;
    NoDotInDigits(whole);
  }

  /** A leading "-" negates the parsed value, a leading "+" keeps it. */
  lemma SignedLiteral(t: string)
    requires t == [] || !IsSign(t[0])
    ensures ParseFloat("-" + t) == (match ParseFloat(t) case Some(x) => Some(-x) case None => None)
    ensures ParseFloat("+" + t) == ParseFloat(t)
  {
    assert ("-" + t)[0] == '-' && ("-" + t)[1..] == t;
    assert ("+" + t)[0] == '+' && ("+" + t)[1..] == t;
  }

  /** A literal whose first exponent mark is at `k` is the mantissa
      before it scaled by the exponent after it. */
  lemma ExponentAt(s: string, k: nat, v: real, e: int)
    requires k < |s| && s[k] == 'e'
    requires forall i :: 0 <= i < k ==> !IsExponentMark(s[i])
    requires ParseDecimal(s[..k]) == Some(v) && ParseExponent(s[k + 1..]) == Some(e)
    ensures ParseUnsigned(s) == Some(Scale(v, e))
  {
    assert FindExponent(s) == Some(k);
  }

  /** The mantissas of the scientific forms: decimal literals holding no
      exponent mark. */
  lemma Mantissas(whole: string, frac: string)
    requires AllDigits(whole) && AllDigits(frac) && |whole| > 0
    ensures ParseDecimal(whole + "." + frac) == Some(DecimalValue(whole, frac))
    ensures forall i :: 0 <= i < |whole + "." + frac| ==> !IsExponentMark((whole + "." + frac)[i])
  {
    var m := whole + "." + frac;
    forall i | 0 <= i < |m| ensures !IsExponentMark(m[i]) {
      if i < |whole| {
        assert m[i] == whole[i] && IsDigit(whole[i]);
      } else if i > |whole| {
        assert m[i] == frac[i - |whole| - 1] && IsDigit(frac[i - |whole| - 1]);
      }
    }
    FindDotAfter(whole, frac);
    assert m[..|whole|] == whole && m[|whole| + 1..] == frac;
  }

  lemma WholeMantissa(whole: string)
    requires AllDigits(whole) && |whole| > 0
    ensures ParseDecimal(whole) == Some(DigitsValue(whole) as real)
    ensures forall i :: 0 <= i < |whole| ==> !IsExponentMark(whole[i])
  {
    forall i | 0 <= i < |whole| ensures !IsExponentMark(whole[i]) {
      assert IsDigit(whole[i]);
    }
    NoDotInDigits(whole);
  }

  /** An exponent of digits, with or without a "-" in front. */
  lemma Exponents(n: string)
    requires AllDigits(n) && |n| > 0
    ensures ParseExponent(n) == Some(DigitsValue(n))
    ensures ParseExponent("-" + n) == Some(-(DigitsValue(n) as int))
  {
    assert IsDigit(n[0]);
    assert ("-" + n)[0] == '-' && ("-" + n)[1..] == n;
  }

  /** A literal starting with a digit has no sign. */
  lemma UnsignedLiteral(s: string)
    requires |s| > 0 && IsDigit(s[0])
    ensures ParseFloat(s) == ParseUnsigned(s)
  {
  }

  /** Scientific notation: "<whole>.<fraction>e<n>" is the decimal value
      scaled by ten to the n. */
  lemma ScientificRoundTrip(whole: string, frac: string, n: string)
    requires AllDigits(whole) && AllDigits(frac) && AllDigits(n) && |whole| > 0 && |n| > 0
    ensures ParseFloat(whole + "." + frac + "e" + n) == Some(Scale(DecimalValue(whole, frac), DigitsValue(n)))
  {
    var m := whole + "." + frac;
    var s := whole + "." + frac + "e" + n;
    Mantissas(whole, frac);
    Exponents(n);
    assert s[..|m|] == m && s[|m| + 1..] == n && s[|m|] == 'e';
    assert forall i :: 0 <= i < |m| ==> s[i] == m[i];
    ExponentAt(s, |m|, DecimalValue(whole, frac), DigitsValue(n));
    assert s[0] == whole[0] && IsDigit(whole[0]);
    UnsignedLiteral(s);
  }

  /** "<whole>e-<n>", the form `str()` prints for small floats ("5e-05"),
      is the whole number scaled by ten to the minus n. */
  lemma SmallScientificRoundTrip(whole: string, n: string)
    requires AllDigits(whole) && AllDigits(n) && |whole| > 0 && |n| > 0
    ensures ParseFloat(whole + "e-" + n) == Some(Scale(DigitsValue(whole) as real, -(DigitsValue(n) as int)))
  {
    var s := whole + "e-" + n;
    WholeMantissa(whole);
    Exponents(n);
    assert s[..|whole|] == whole && s[|whole| + 1..] == "-" + n && s[|whole|] == 'e';
    assert forall i :: 0 <= i < |whole| ==> s[i] == whole[i];
    ExponentAt(s, |whole|, DigitsValue(whole) as real, -(DigitsValue(n) as int));
    assert s[0] == whole[0] && IsDigit(whole[0]);
    UnsignedLiteral(s);
  }

  /** A quote in scientific notation, "$5e-05", is read as the number it denotes. */
  lemma DollarScientific(whole: string, n: string, fallbackClose: Option<real>)
    requires AllDigits(whole) && AllDigits(n) && |whole| > 0 && |n| > 0
    ensures CurrentPrice(Info(Text("$" + whole + "e-" + n)), fallbackClose) == Some(Scale(DigitsValue(whole) as real, -(DigitsValue(n) as int)))
  {
    var t := whole + "e-" + n;
    DigitsClean(whole);
    DigitsClean(n);
    assert '$' !in t && ',' !in t by {
      assert forall i :: 0 <= i < |t| ==> t[i] in whole || t[i] == 'e' || t[i] == '-' || t[i] in n;
    }
    assert "$" + whole + "e-" + n == "$" + t;
    DollarPrefix(t, fallbackClose);
    SmallScientificRoundTrip(whole, n);
  }

  lemma {:induction false} DigitsClean(w: string)
    requires AllDigits(w)
    ensures '$' !in w && ',' !in w
  {
    forall i | 0 <= i < |w| ensures w[i] != '$' && w[i] != ',' {
      assert IsDigit(w[i]);
    }
  }

  /** A dollar string holding no other "$" or "," parses as its remainder. */
  lemma {:induction false} DollarPrefix(t: string, fallbackClose: Option<real>)
    requires '$' !in t && ',' !in t
    ensures CurrentPrice(Info(Text("$" + t)), fallbackClose) == ParseFloat(t)
  {
    var x := "$" + t;
    assert x[0] == '$';
    assert x != "N/A" by {
      assert "N/A"[0] == 'N';
    }
    StripConcat("$", t);
    assert StripPrice("$") == [];
    StripClean(t);
    assert StripPrice(x) == t;
  }

  /** The dollar text the quote carries for a decimal price ("$" + whole +
      "." + fraction) is read back as that price. */
  lemma DollarQuoteRoundTrip(whole: string, frac: string, fallbackClose: Option<real>)
    requires AllDigits(whole) && AllDigits(frac) && |whole| > 0
    ensures CurrentPrice(Info(Text("$" + whole + "." + frac)), fallbackClose) == Some(DecimalValue(whole, frac))
    ensures CurrentPrice(Info(Text("$" + whole)), fallbackClose) == Some(DigitsValue(whole) as real)
  {
    var s := whole + "." + frac;
    DigitsClean(whole);
    DigitsClean(frac);
    assert '$' !in s && ',' !in s;
    assert "$" + whole + "." + frac == "$" + s;
    DollarPrefix(s, fallbackClose);
    DollarPrefix(whole, fallbackClose);
    DecimalRoundTrip(whole, frac);
  }

  /** The decimal digits of a natural number, as `str()` prints it. */
  function NatDigits(n: nat): (r: string)
    ensures AllDigits(r) && |r| > 0
  {
    if n < 10 then [('0' as int + n) as char]
    else NatDigits(n / 10) + [('0' as int + n % 10) as char]
  }

  lemma {:induction false} NatDigitsValue(n: nat)
    ensures DigitsValue(NatDigits(n)) == n
  {
    var r := NatDigits(n);
    if n >= 10 {
      NatDigitsValue(n / 10);
      assert r[..|r| - 1] == NatDigits(n / 10);
    }
  }

  /** A whole-dollar quote "$<n>" is read back as n. */
  lemma WholeDollarRoundTrip(n: nat, fallbackClose: Option<real>)
    ensures CurrentPrice(Info(Text("$" + NatDigits(n))), fallbackClose) == Some(n as real)
  {
    NatDigitsValue(n);
    DigitsClean(NatDigits(n));
    DollarPrefix(NatDigits(n), fallbackClose);
    DecimalRoundTrip(NatDigits(n), "");
  }

  /** A quote without a usable price falls back to the last close, and a
      text that is neither "N/A" nor a dollar string skips the order. */
  lemma NoPriceFallsBack(text: string, fallbackClose: Option<real>)
    ensures CurrentPrice(Failed, fallbackClose) == fallbackClose
    ensures CurrentPrice(Info(Text("N/A")), fallbackClose) == fallbackClose
    ensures text != "N/A" && (text == [] || text[0] != '$') ==> CurrentPrice(Info(Text(text)), fallbackClose) == None
    ensures CurrentPrice(Info(Text("$None")), fallbackClose) == None
  {
    NoneTextSkips(fallbackClose);
  }

  /** The text of a missing price ("$None") skips the order. */
  lemma NoneTextSkips(fallbackClose: Option<real>)
    ensures CurrentPrice(Info(Text("$None")), fallbackClose) == None
  {
    var t := "None";
    assert '$' !in t && ',' !in t;
    DollarPrefix(t, fallbackClose);
    assert !HasDigit(t) by {
      assert forall i :: 0 <= i < |t| ==> !IsDigit(t[i]);
    }
  }
}
