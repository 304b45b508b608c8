/**
  Money as the statement prints it. Amounts are integer cents; Python's
  `f"{x:,.2f}"` becomes `Grouped2`, and the three `str.replace` calls that
  turn it into the Brazilian form (`1.234,56`) become `SwapSeparators`.
  `ParseCents` is the lenient `float(valor)` of a movement amount.
*/
module Money {
  import opened Wrappers
  import opened Text

  function Abs(c: int): nat { if c < 0 then -c else c }

  function Sign(c: int): string { if c < 0 then "-" else "" }

  /** The digits of `ds` with a ',' before every full group of three from the right. */
  function Group(ds: string): (r: string)
    requires AllDigits(ds)
    ensures forall i :: 0 <= i < |r| ==> IsDigit(r[i]) || r[i] == ','
    ensures ds != [] ==> r != [] && IsDigit(r[0])
    decreases |ds|
  {
    if |ds| <= 3 then ds else Group(ds[..|ds| - 3]) + "," + ds[|ds| - 3..]
  }

  function TwoDigits(f: nat): (r: string)
    requires f < 100
    ensures |r| == 2 && AllDigits(r)
  {
    [DigitChar(f / 10), DigitChar(f % 10)]
  }

  /** `f"{x:.2f}"` for an amount of `c` cents. */
  function Fixed2(c: int): string
  {
    Sign(c) + Unsigned2(Abs(c))
  }

  /** `f"{x:.2f}"` for a non-negative amount of `a` cents. */
  function Unsigned2(a: nat): (r: string)
    ensures r != [] && IsDigit(r[0]) && IsDigit(r[|r| - 1])
  {
    var r := NatDigits(a / 100) + "." + TwoDigits(a % 100);
    assert r[0] == NatDigits(a / 100)[0];
    r
  }

  /**
    `f"{x:,.2f}"` for an amount of `c` cents: the `.2f` rendering with a ','
    between thousands, so made only of digits, ',', '.' and the sign.
  */
  function Grouped2(c: int): (r: string)
    ensures Without(r, ',') == Fixed2(c)
    ensures forall i :: 0 <= i < |r| ==> IsDigit(r[i]) || r[i] in {',', '.', '-'}
  {
    var a := Abs(c);
    var g, two := Group(NatDigits(a / 100)), TwoDigits(a % 100);
    var r := Sign(c) + GroupedUnsigned2(a);
    assert r == Sign(c) + (g + "." + two);
    assert Without(r, ',') == Fixed2(c) by {
      UngroupParts(NatDigits(a / 100), two);
      WithoutAppend(Sign(c), g + "." + two, ',');
      WithoutAbsent(Sign(c), ',');
    }
    assert forall i :: 0 <= i < |r| ==> IsDigit(r[i]) || r[i] in {',', '.', '-'} by {
      forall i | 0 <= i < |r| ensures IsDigit(r[i]) || r[i] in {',', '.', '-'} {
        if i < |Sign(c)| {
        } else if i < |Sign(c)| + |g| {
          assert r[i] == g[i - |Sign(c)|];
        } else if i == |Sign(c)| + |g| {
        } else {
          assert r[i] == two[i - |Sign(c)| - |g| - 1];
        }
      }
    }
    r
  }

  /** `f"{x:,.2f}"` for a non-negative amount of `a` cents. */
  function GroupedUnsigned2(a: nat): string
  {
    Group(NatDigits(a / 100)) + "." + TwoDigits(a % 100)
  }

  /** `s.replace(",", "X").replace(".", ",").replace("X", ".")`. */
  function SwapSeparators(s: string): string
  {
    ReplaceChar(ReplaceChar(ReplaceChar(s, ',', 'X'), '.', ','), 'X', '.')
  }

  /**
    The amount as printed on the statement, `1.234,56` or `-0,05`: the
    `,.2f` rendering with ',' and '.' exchanged and every other character kept.
  */
  function Brazilian(c: int): (r: string)
    ensures |r| == |Grouped2(c)|
    ensures forall i :: 0 <= i < |r| ==>
      r[i] == (if Grouped2(c)[i] == ',' then '.' else if Grouped2(c)[i] == '.' then ',' else Grouped2(c)[i])
  {
    var g := Grouped2(c);
    SwapSeparatorsAt(g);
    SwapSeparators(g)
  }

  /** A Brazilian-form amount read back into cents. */
  function ParseBrazilian(s: string): Option<int>
  {
    ParseCents(Without(SwapSeparators(s), ','))
  }

  // ---------------------------------------------------------------- parsing

  function Negate(o: Option<int>): Option<int>
  {
    if o.Some? then Some(-o.value) else None
  }

  /**
    `float(valor)` on the forms an amount takes: surrounding whitespace, an
    optional sign, digits, and an optional '.' with at most two decimals.
    `None` is where the source's `float()` raises and the amount counts as 0.
  */
  function ParseCents(s: string): (r: Option<int>)
    ensures Trim(s) == [] ==> r.None?
    ensures r.Some? && r.value < 0 ==> Trim(s)[0] == '-'
  {
    ParseSigned(Trim(s))
  }

  /** The sign-and-digits reader reads every `.2f` rendering back. */
  lemma ParseSignedFixed2()
    ensures forall c :: ParseSigned(Fixed2(c)) == Some(c)
  {
    forall c ensures ParseSigned(Fixed2(c)) == Some(c) {
      ParseUnsigned2(Abs(c));
      ParseSignedOfSign(c, Unsigned2(Abs(c)));
    }
  }

  function ParseSigned(t: string): Option<int>
  {
    if t != [] && t[0] == '-' then Negate(ParseUnsigned(t[1..]))
    else if t != [] && t[0] == '+' then ParseUnsigned(t[1..])
    else ParseUnsigned(t)
  }

  function ParseUnsigned(s: string): Option<int>
  {
    var k := IndexOf(s, '.');
    var whole := s[..k];
    var frac := if k < |s| then s[k + 1..] else "";
    if AllDigits(whole) && AllDigits(frac) && |frac| <= 2 && |whole| + |frac| > 0 then
      Some(DecimalCents(whole, frac))
    else None
  }

  /** Whole units and up to two decimals, in cents: one decimal counts tenths. */
  function DecimalCents(whole: string, frac: string): nat
    requires AllDigits(whole) && AllDigits(frac) && |frac| <= 2
  {
    DigitsValue(whole) * 100 + (if |frac| == 1 then DigitsValue(frac) * 10 else DigitsValue(frac))
  }

  /** The digits of an amount with its decimals padded to two places. */
  function CentsDigits(whole: string, frac: string): (r: string)
    requires AllDigits(whole) && AllDigits(frac) && |frac| <= 2
    ensures |r| == |whole| + 2 && AllDigits(r)
  {
    whole + frac + Repeat('0', 2 - |frac|)
  }

  /** Digits with the decimals padded to two places denote the number of cents `ParseUnsigned` reads. */
  lemma PaddedCents(whole: string, frac: string)
    requires AllDigits(whole) && AllDigits(frac) && |frac| <= 2
    ensures DigitsValue(CentsDigits(whole, frac)) == DecimalCents(whole, frac)
  {
    var p := CentsDigits(whole, frac);
    if |frac| == 0 {
      assert p == whole + ['0'] + ['0'];
      DigitsValueAppend(whole, '0');
      DigitsValueAppend(whole + ['0'], '0');
    } else if |frac| == 1 {
      assert p == whole + [frac[0]] + ['0'];
      DigitsValueAppend(whole, frac[0]);
      DigitsValueAppend(whole + [frac[0]], '0');
      assert frac == [] + [frac[0]];
      DigitsValueAppend([], frac[0]);
    } else {
      var a, b := frac[0], frac[1];
      assert p == whole + [a] + [b];
      DigitsValueAppend(whole, a);
      DigitsValueAppend(whole + [a], b);
      assert frac == [] + [a] + [b];
      DigitsValueAppend([], a);
      DigitsValueAppend([a], b);
    }
  }

  /** The first and last characters of an unsigned decimal are a digit or the '.'. */
  lemma DecimalEdges(whole: string, point: string, frac: string)
    requires AllDigits(whole) && AllDigits(frac) && |whole| + |frac| > 0
    requires point == "." || point == ""
    ensures var n := whole + point + frac;
      n != [] && (IsDigit(n[0]) || n[0] == '.') && (IsDigit(n[|n| - 1]) || n[|n| - 1] == '.')
  {
    var n := whole + point + frac;
    if whole != [] { assert n[0] == whole[0]; }
    else if point != [] { assert n[0] == '.'; }
    else { assert n[0] == frac[0]; }
    if frac != [] { assert n[|n| - 1] == frac[|frac| - 1]; }
    else if point != [] { assert n[|n| - 1] == '.'; }
    else { assert n[|n| - 1] == whole[|whole| - 1]; }
  }

  /** An unsigned decimal reads as its digits, with the decimals padded to two places. */
  lemma ParseDecimal(whole: string, point: string, frac: string)
    requires AllDigits(whole) && AllDigits(frac) && |frac| <= 2 && |whole| + |frac| > 0
    requires point == "." || (point == "" && frac == "")
    ensures ParseUnsigned(whole + point + frac) == Some(DigitsValue(CentsDigits(whole, frac)))
  {
    var n := whole + point + frac;
    assert IndexOf(n, '.') == |whole| by {
      forall i | 0 <= i < |whole| ensures n[i] != '.' { assert n[i] == whole[i]; }
      if point != [] { assert n[|whole|] == '.'; } else { assert n == whole; }
    }
    assert n[..|whole|] == whole;
    assert (if |whole| < |n| then n[|whole| + 1..] else "") == frac;
    ParseUnsignedSplit(n, whole, frac);
    PaddedCents(whole, frac);
  }

  /** `ParseUnsigned` reads the digits before the first '.' as whole units and those after it as decimals. */
  lemma ParseUnsignedSplit(n: string, whole: string, frac: string)
    requires IndexOf(n, '.') == |whole| && n[..|whole|] == whole
    requires (if |whole| < |n| then n[|whole| + 1..] else "") == frac
    requires AllDigits(whole) && AllDigits(frac) && |frac| <= 2 && |whole| + |frac| > 0
    ensures ParseUnsigned(n) == Some(DecimalCents(whole, frac))
  {
  }

  lemma Regroup<T>(ws: seq<T>, sign: seq<T>, whole: seq<T>, point: seq<T>, frac: seq<T>, ws2: seq<T>)
    ensures ws + sign + whole + point + frac + ws2 == ws + (sign + (whole + point + frac)) + ws2
  {
  }

  /** Around a number that starts and ends with a digit or '.', `ParseCents` strips the whitespace and reads the sign. */
  lemma ParseCentsSigned(ws: string, sign: string, number: string, ws2: string)
    requires forall i :: 0 <= i < |ws| ==> IsSpace(ws[i])
    requires forall i :: 0 <= i < |ws2| ==> IsSpace(ws2[i])
    requires sign == "" || sign == "-" || sign == "+"
    requires number != [] && (IsDigit(number[0]) || number[0] == '.')
    requires IsDigit(number[|number| - 1]) || number[|number| - 1] == '.'
    ensures ParseCents(ws + (sign + number) + ws2) ==
      (if sign == "-" then Negate(ParseUnsigned(number)) else ParseUnsigned(number))
  {
    var t := sign + number;
    assert t[0] == (if sign == "" then number[0] else sign[0]);
    assert t[|t| - 1] == number[|number| - 1];
    TrimSurrounded(ws, t, ws2);
    if sign != "" { assert t[1..] == number; } else { assert t == number; }
  }

  /**
    The language `ParseCents` accepts: optional whitespace, an optional '-' or
    '+', digits, an optional '.' followed by at most two digits (not both parts
    empty), optional whitespace. It reads the digits, with the decimals padded
    to two places, as the number of cents, negated after a '-'.
  */
  lemma ParseCentsAccepts(ws: string, sign: string, whole: string, point: string, frac: string, ws2: string)
    requires forall i :: 0 <= i < |ws| ==> IsSpace(ws[i])
    requires forall i :: 0 <= i < |ws2| ==> IsSpace(ws2[i])
    requires sign == "" || sign == "-" || sign == "+"
    requires AllDigits(whole) && AllDigits(frac) && |frac| <= 2 && |whole| + |frac| > 0
    requires point == "." || (point == "" && frac == "")
    ensures ParseCents(ws + sign + whole + point + frac + ws2) ==
      Some(if sign == "-" then -(DigitsValue(CentsDigits(whole, frac)) as int) else DigitsValue(CentsDigits(whole, frac)))
  {
    var number := whole + point + frac;
    DecimalEdges(whole, point, frac);
    ParseDecimal(whole, point, frac);
    ParseCentsSigned(ws, sign, number, ws2);
    Regroup(ws, sign, whole, point, frac, ws2);
  }

  // ---------------------------------------------------------------- removing a character

  /** `s` with every `ch` deleted. */
  function Without(s: string, ch: char): (r: string)
    ensures ch !in r
  {
    if s == [] then [] else Without(s[..|s| - 1], ch) + (if s[|s| - 1] == ch then [] else [s[|s| - 1]])
  }

  lemma {:induction false} WithoutAppend(a: string, b: string, ch: char)
    ensures Without(a + b, ch) == Without(a, ch) + Without(b, ch)
    decreases |b|
  {
    if b != [] {
      var b' := b[..|b| - 1];
      assert (a + b)[..|a + b| - 1] == a + b';
      WithoutAppend(a, b', ch);
    } else {
      assert a + b == a;
    }
  }

  lemma {:induction false} WithoutAbsent(s: string, ch: char)
    requires ch !in s
    ensures Without(s, ch) == s
    decreases |s|
  {
    if s != [] {
      WithoutAbsent(s[..|s| - 1], ch);
    }
  }

  /** Deleting the thousands separators gives back the digits. */
  lemma {:induction false} UngroupGroup(ds: string)
    requires AllDigits(ds)
    ensures Without(Group(ds), ',') == ds
    decreases |ds|
  {
    if |ds| <= 3 {
      WithoutAbsent(ds, ',');
    } else {
      var pre, suf := ds[..|ds| - 3], ds[|ds| - 3..];
      assert AllDigits(suf) by {
        forall i | 0 <= i < |suf| ensures IsDigit(suf[i]) { assert suf[i] == ds[|ds| - 3 + i]; }
      }
      UngroupGroup(pre);
      WithoutGroupStep(Group(pre), suf);
      assert pre + suf == ds;
    }
  }

  /** One more group of digits after a separator survives the deletion whole. */
  lemma WithoutGroupStep(g: string, suf: string)
    requires AllDigits(suf)
    ensures Without(g + "," + suf, ',') == Without(g, ',') + suf
  {
    assert Without(g + ",", ',') == Without(g, ',') by {
      WithoutAppend(g, ",", ',');
      WithoutSeparator(',');
    }
    assert Without(suf, ',') == suf by {
      assert ',' !in suf by {
        forall i | 0 <= i < |suf| ensures suf[i] != ',' { assert IsDigit(suf[i]); }
      }
      WithoutAbsent(suf, ',');
    }
    WithoutAppend(g + ",", suf, ',');
  }

  lemma WithoutSeparator(ch: char)
    ensures Without([ch], ch) == []
  {
    assert [ch][..0] == [];
  }

  lemma UngroupParts(ds: string, two: string)
    requires AllDigits(ds) && AllDigits(two)
    ensures Without(Group(ds) + "." + two, ',') == ds + "." + two
  {
    var g := Group(ds);
    UngroupGroup(ds);
    WithoutAppend(g + ".", two, ',');
    WithoutAppend(g, ".", ',');
    WithoutAbsent(".", ',');
    assert ',' !in two by {
      forall i | 0 <= i < |two| ensures two[i] != ',' { assert IsDigit(two[i]); }
    }
    WithoutAbsent(two, ',');
  }

  // ---------------------------------------------------------------- properties

  /** On a string without 'X' the three replaces exchange ',' and '.' character by character. */
  lemma SwapSeparatorsAt(s: string)
    requires 'X' !in s
    ensures |SwapSeparators(s)| == |s|
    ensures forall i :: 0 <= i < |s| ==>
      SwapSeparators(s)[i] == (if s[i] == ',' then '.' else if s[i] == '.' then ',' else s[i])
  {
    forall i | 0 <= i < |s| ensures s[i] != 'X' {
      assert s[i] in s;
    }
  }

  /** Without 'X' in the input, the three replaces undo themselves. */
  lemma SwapSeparatorsInvolution(s: string)
    requires 'X' !in s
    ensures 'X' !in SwapSeparators(s)
    ensures SwapSeparators(SwapSeparators(s)) == s
  {
    var t := SwapSeparators(s);
    SwapSeparatorsAt(s);
    assert 'X' !in t by {
      forall i | 0 <= i < |t| ensures t[i] != 'X' {
        assert s[i] in s;
      }
    }
    SwapSeparatorsAt(t);
  }

  lemma BrazilianSwapsBack(c: int)
    ensures 'X' !in Grouped2(c)
    ensures SwapSeparators(Brazilian(c)) == Grouped2(c)
  {
    SwapSeparatorsInvolution(Grouped2(c));
  }

  lemma TwoDigitsValue(f: nat)
    requires f < 100
    ensures DigitsValue(TwoDigits(f)) == f
  {
    var a, b := DigitChar(f / 10), DigitChar(f % 10);
    assert [] + [a] == [a];
    DigitsValueAppend([], a);
    assert [a] + [b] == TwoDigits(f);
    DigitsValueAppend([a], b);
  }

  lemma ParseUnsigned2(a: nat)
    ensures ParseUnsigned(Unsigned2(a)) == Some(a)
  {
    var w, f := a / 100, a % 100;
    var ds := NatDigits(w);
    var two := TwoDigits(f);
    var u := ds + "." + two;
    assert u == Unsigned2(a);
    assert IndexOf(u, '.') == |ds| by {
      forall i | 0 <= i < |ds| ensures u[i] != '.' { assert u[i] == ds[i]; }
      assert u[|ds|] == '.';
    }
    assert u[..|ds|] == ds;
    assert u[|ds| + 1..] == two;
    NatDigitsRoundTrip(w);
    TwoDigitsValue(f);
  }

  /** The `.2f` rendering neither starts nor ends with whitespace. */
  lemma Fixed2Trimmed(c: int)
    ensures Trim(Fixed2(c)) == Fixed2(c)
  {
    var s := Fixed2(c);
    var u := Unsigned2(Abs(c));
    assert s == Sign(c) + u;
    if c < 0 { assert s[0] == '-'; } else { assert s[0] == u[0]; }
    assert s[|s| - 1] == u[|u| - 1];
    TrimOfTrimmed(s);
  }

  lemma ParseSignedOfSign(c: int, u: string)
    requires ParseUnsigned(u) == Some(Abs(c))
    requires u != [] && IsDigit(u[0])
    ensures ParseSigned(Sign(c) + u) == Some(c)
  {
    if c < 0 {
      assert (Sign(c) + u)[1..] == u;
    } else {
      assert Sign(c) + u == u;
    }
  }

  /** Reading back the `.2f` rendering of an amount gives the amount. */
  lemma Fixed2RoundTrip(c: int)
    ensures ParseCents(Fixed2(c)) == Some(c)
  {
    Fixed2Trimmed(c);
    ParseSignedFixed2();
  }

  /** Reading back a printed amount gives the amount: the printed form loses nothing. */
  lemma BrazilianRoundTrip(c: int)
    ensures ParseBrazilian(Brazilian(c)) == Some(c)
  {
    BrazilianSwapsBack(c);
    Fixed2RoundTrip(c);
  }

  /** Two amounts print the same exactly when they are equal. */
  lemma BrazilianInjective(a: int, b: int)
    ensures Brazilian(a) == Brazilian(b) <==> a == b
  {
    BrazilianRoundTrip(a);
    BrazilianRoundTrip(b);
  }

  /** A ',' sits exactly where a multiple of four characters, counted from the right, begins. */
  predicate Separated(r: string)
  {
    forall i :: 0 <= i < |r| ==> (r[i] == ',' <==> (|r| - i) % 4 == 0)
  }

  /** Appending ',' and three digits to a separated string keeps it separated. */
  lemma SeparatedStep(p: string, tail: string)
    requires Separated(p) && |tail| == 3 && AllDigits(tail)
    ensures Separated(p + "," + tail)
  {
    var r := p + "," + tail;
    forall i | 0 <= i < |r| ensures r[i] == ',' <==> (|r| - i) % 4 == 0 {
      if i < |p| {
        assert r[i] == p[i] && |r| - i == (|p| - i) + 4;
      } else if i > |p| {
        assert r[i] == tail[i - |p| - 1];
      }
    }
  }

  /**
    The separators of grouped digits: one ',' per full group of three below
    the leading group, sitting exactly where a multiple of four characters
    (counted from the right) begins.
  */
  lemma {:induction false} GroupSeparators(ds: string)
    requires AllDigits(ds) && ds != []
    ensures |Group(ds)| == |ds| + (|ds| - 1) / 3 && Separated(Group(ds))
    decreases |ds|
  {
    if |ds| > 3 {
      GroupSeparators(ds[..|ds| - 3]);
      SeparatedStep(Group(ds[..|ds| - 3]), ds[|ds| - 3..]);
    } else {
      assert forall i :: 0 <= i < |ds| ==> ds[i] != ',' by {
        forall i | 0 <= i < |ds| ensures ds[i] != ',' { assert IsDigit(ds[i]); }
      }
    }
  }

  /** A separated middle part keeps its separators, counted from its right end, inside a larger string. */
  lemma SeparatedInside(pre: string, g: string, post: string)
    requires Separated(g)
    ensures var s, e := pre + g + post, |pre| + |g|;
      forall i :: |pre| <= i < e ==> (s[i] == ',' <==> (e - i) % 4 == 0)
  {
    var s := pre + g + post;
    forall i | |pre| <= i < |pre| + |g| ensures s[i] == g[i - |pre|] { }
  }

  /**
    In the `,.2f` rendering the whole part, after the sign, starts with a
    digit and has a ',' exactly at every fourth position counting back from
    the '.'.
  */
  lemma Grouped2Separators(c: int)
    ensures var s, m := Grouped2(c), |Sign(c)|;
      m < |s| - 3 && IsDigit(s[m]) &&
      forall i :: m <= i < |s| - 3 ==> (s[i] == ',' <==> (|s| - 3 - i) % 4 == 0)
  {
    var ds := NatDigits(Abs(c) / 100);
    var g, post := Group(ds), "." + TwoDigits(Abs(c) % 100);
    var s := Grouped2(c);
    assert s == Sign(c) + g + post && |post| == 3;
    GroupSeparators(ds);
    SeparatedInside(Sign(c), g, post);
    assert s[|Sign(c)|] == g[0];
  }

  /** The `,.2f` rendering ends with '.' and two digits, and '-' can only lead it. */
  lemma Grouped2Shape(c: int)
    ensures var s := Grouped2(c);
      |s| >= 4 && s[|s| - 3] == '.' && IsDigit(s[|s| - 2]) && IsDigit(s[|s| - 1]) &&
      (forall i :: 0 <= i < |s| - 3 ==> s[i] != '.' && (s[i] == '-' ==> i == 0)) &&
      (s[0] == '-' <==> c < 0)
  {
    var g := Group(NatDigits(Abs(c) / 100));
    var two := TwoDigits(Abs(c) % 100);
    var s := Grouped2(c);
    assert s == Sign(c) + (g + "." + two);
    assert |s| >= 4 && s[|s| - 3] == '.' && IsDigit(s[|s| - 2]) && IsDigit(s[|s| - 1]) by {
      assert s[|s| - 2] == two[0] && s[|s| - 1] == two[1];
    }
    assert forall i :: 0 <= i < |s| - 3 ==> s[i] != '.' && (s[i] == '-' ==> i == 0) by {
      forall i | 0 <= i < |s| - 3 ensures s[i] != '.' && (s[i] == '-' ==> i == 0) {
        if i >= |Sign(c)| {
          assert s[i] == g[i - |Sign(c)|];
        }
      }
    }
    assert s[0] == '-' <==> c < 0 by {
      if c >= 0 {
        assert s[0] == g[0];
      }
    }
  }

  /**
    The printed form: an optional '-', digits and '.' thousands separators,
    then ',' and exactly two decimals; the ',' occurs nowhere else.
  */
  lemma BrazilianShape(c: int)
    ensures var r := Brazilian(c);
      |r| >= 4 && r[|r| - 3] == ',' && IsDigit(r[|r| - 2]) && IsDigit(r[|r| - 1]) &&
      (forall i :: 0 <= i < |r| - 3 ==> IsDigit(r[i]) || r[i] == '.' || r[i] == '-') &&
      (r[0] == '-' <==> c < 0)
  {
    var s, r := Grouped2(c), Brazilian(c);
    Grouped2Shape(c);
    forall i | 0 <= i < |r| - 3 ensures IsDigit(r[i]) || r[i] == '.' || r[i] == '-' {
      assert IsDigit(s[i]) || s[i] in {',', '.', '-'};
    }
  }

  /** The opening balance of a statement with 1000,00 of capital and 200,00 of movement. */
  lemma ExampleOpeningBalance()
    ensures Brazilian(100000 - 20000) == "800,00"
  {
    assert NatDigits(800) == "800" by {
      assert NatDigits(8) == "8" && NatDigits(80) == "80";
    }
    assert Grouped2(80000) == "800.00";
  }
}
