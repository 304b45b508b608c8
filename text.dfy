/**
  The few Python string builtins the statement pipeline relies on, stated over
  `seq<char>`: `str.isspace`, `str.strip`, `str.split(sep)`, `sep.join`,
  `str.replace` of one character, `str.zfill`, the `<`/`>` alignment of
  `str.format`, `str(int)` and the first word of `str.split()`.
*/
module Text {
  import opened Wrappers

  function Max(a: int, b: int): int { if a < b then b else a }

  /** Python's `str.isspace()` for one character. */
  predicate IsSpace(c: char) {
    c == ' ' || ('\t' <= c <= '\r') || ('\U{1c}' <= c <= '\U{1f}') ||
    c == '\U{85}' || c == '\U{a0}' || c == '\U{1680}' ||
    ('\U{2000}' <= c <= '\U{200a}') || c == '\U{2028}' || c == '\U{2029}' ||
    c == '\U{202f}' || c == '\U{205f}' || c == '\U{3000}'
  }

  predicate IsDigit(c: char) { '0' <= c <= '9' }

  predicate AllDigits(s: string) { forall i :: 0 <= i < |s| ==> IsDigit(s[i]) }

  function Repeat(c: char, n: nat): (r: string)
    ensures |r| == n
  {
    seq(n, _ => c)
  }

  // ---------------------------------------------------------------- padding

  /** `"{:<w}".format(s)`: pads on the right with spaces, never truncates. */
  function PadRight(s: string, w: int): (r: string)
    ensures |r| == Max(w, |s|)
  {
    if |s| < w then s + Repeat(' ', w - |s|) else s
  }

  /** Left alignment keeps the text at the start and fills the rest with spaces. */
  lemma PadRightShape(s: string, w: int)
    ensures var r := PadRight(s, w);
      r[..|s|] == s && forall i :: |s| <= i < |r| ==> r[i] == ' '
  {
  }

  /** `"{:>w}".format(s)`: pads on the left with spaces, never truncates. */
  function PadLeft(s: string, w: int): (r: string)
    ensures |r| == Max(w, |s|)
  {
    if |s| < w then Repeat(' ', w - |s|) + s else s
  }

  /** Right alignment keeps the text at the end and fills the front with spaces. */
  lemma PadLeftShape(s: string, w: int)
    ensures var r := PadLeft(s, w);
      r[|r| - |s|..] == s && forall i :: 0 <= i < |r| - |s| ==> r[i] == ' '
  {
  }

  /**
    Python's `str.zfill(w)`: left-pads with '0' up to width `w`; a leading
    sign stays in front of the zeros; a string already `w` long is kept.
  */
  function ZFill(s: string, w: int): (r: string)
    ensures |r| == Max(w, |s|)
  {
    if |s| >= w then s
    else if s != [] && (s[0] == '+' || s[0] == '-') then [s[0]] + Repeat('0', w - |s|) + s[1..]
    else Repeat('0', w - |s|) + s
  }

  lemma ZFillUnsigned(s: string, w: int)
    requires s == [] || (s[0] != '+' && s[0] != '-')
    ensures ZFill(s, w) == Repeat('0', Max(w, |s|) - |s|) + s
  {
  }

  // ---------------------------------------------------------------- strip

  /** Python's `str.lstrip()`. */
  function TrimLeft(s: string): (r: string)
    ensures |r| <= |s|
  {
    if s != [] && IsSpace(s[0]) then TrimLeft(s[1..]) else s
  }

  /** Python's `str.rstrip()`. */
  function TrimRight(s: string): (r: string)
    ensures |r| <= |s|
  {
    if s != [] && IsSpace(s[|s| - 1]) then TrimRight(s[..|s| - 1]) else s
  }

  /** `lstrip()` removes exactly the leading whitespace: what is left is a suffix that does not start with it. */
  lemma {:induction false} TrimLeftShape(s: string)
    ensures var r := TrimLeft(s);
      r == s[|s| - |r|..] && (forall i :: 0 <= i < |s| - |r| ==> IsSpace(s[i])) &&
      (r != [] ==> !IsSpace(r[0]))
  {
    if s != [] && IsSpace(s[0]) {
      TrimLeftShape(s[1..]);
    }
  }

  /** `rstrip()` removes exactly the trailing whitespace: what is left is a prefix that does not end with it. */
  lemma {:induction false} TrimRightShape(s: string)
    ensures var r := TrimRight(s);
      r == s[..|r|] && (forall i :: |r| <= i < |s| ==> IsSpace(s[i])) &&
      (r != [] ==> !IsSpace(r[|r| - 1]))
  {
    if s != [] && IsSpace(s[|s| - 1]) {
      TrimRightShape(s[..|s| - 1]);
    }
  }

  /** `t` is the tail of `s`. */
  predicate EndsWith(s: string, t: string)
  {
    |t| <= |s| && s[|s| - |t|..] == t
  }

  /** Python's `str.strip()`: the result neither starts nor ends with whitespace. */
  function Trim(s: string): (r: string)
    ensures |r| <= |s|
    ensures r != [] ==> !IsSpace(r[0]) && !IsSpace(r[|r| - 1])
  {
    var l := TrimLeft(s);
    TrimLeftShape(s);
    TrimRightShape(l);
    var r := TrimRight(l);
    assert r != [] ==> r[0] == l[0];
    r
  }

  /** `strip()` only removes characters: everything left was in the input. */
  lemma TrimChars(s: string)
    ensures forall c :: c in Trim(s) ==> c in s
  {
    var l := TrimLeft(s);
    var r := Trim(s);
    var k := |s| - |l|;
    TrimLeftShape(s);
    TrimRightShape(l);
    forall c | c in r ensures c in s {
      var i :| 0 <= i < |r| && r[i] == c;
      assert l[i] == c;
      assert s[k + i] == c;
    }
  }

  /** Stripping a stripped string changes nothing. */
  lemma TrimIdempotent(s: string)
    ensures Trim(Trim(s)) == Trim(s)
  {
    TrimOfTrimmed(Trim(s));
  }

  /** A string that neither starts nor ends with whitespace is its own strip. */
  lemma TrimOfTrimmed(t: string)
    requires t != [] ==> !IsSpace(t[0]) && !IsSpace(t[|t| - 1])
    ensures Trim(t) == t
  {
    assert TrimLeft(t) == t;
    assert TrimRight(t) == t;
  }

  /** `lstrip()` skips any run of whitespace put in front. */
  lemma {:induction false} TrimLeftSpaces(ws: string, u: string)
    requires forall i :: 0 <= i < |ws| ==> IsSpace(ws[i])
    ensures TrimLeft(ws + u) == TrimLeft(u)
    decreases |ws|
  {
    if ws != [] {
      assert (ws + u)[1..] == ws[1..] + u;
      TrimLeftSpaces(ws[1..], u);
    } else {
      assert ws + u == u;
    }
  }

  /** `rstrip()` skips any run of whitespace put behind. */
  lemma {:induction false} TrimRightSpaces(u: string, ws: string)
    requires forall i :: 0 <= i < |ws| ==> IsSpace(ws[i])
    ensures TrimRight(u + ws) == TrimRight(u)
    decreases |ws|
  {
    if ws != [] {
      var k := |ws| - 1;
      assert (u + ws)[..|u| + k] == u + ws[..k];
      assert (u + ws)[|u| + k] == ws[k];
      TrimRightSpaces(u, ws[..k]);
    } else {
      assert u + ws == u;
    }
  }

  /** `strip()` of text padded with whitespace on both sides gives the text back. */
  lemma TrimSurrounded(ws: string, t: string, ws2: string)
    requires forall i :: 0 <= i < |ws| ==> IsSpace(ws[i])
    requires forall i :: 0 <= i < |ws2| ==> IsSpace(ws2[i])
    requires t != [] && !IsSpace(t[0]) && !IsSpace(t[|t| - 1])
    ensures Trim(ws + t + ws2) == t
  {
    assert ws + t + ws2 == ws + (t + ws2);
    TrimLeftSpaces(ws, t + ws2);
    assert TrimLeft(t + ws2) == t + ws2;
    TrimRightSpaces(t, ws2);
    assert TrimRight(t) == t;
  }

  /** Leading whitespace does not survive `strip()`. */
  lemma TrimSpacePrefix(c: char, t: string)
    requires IsSpace(c)
    ensures Trim([c] + t) == Trim(t)
  {
    assert ([c] + t)[1..] == t;
  }

  // ---------------------------------------------------------------- split / join

  /** Index of the first `c` in `s`, or `|s|` when there is none. */
  function IndexOf(s: string, c: char): (k: nat)
    ensures k <= |s|
    ensures forall i :: 0 <= i < k ==> s[i] != c
    ensures k < |s| ==> s[k] == c
  {
    if s == [] then 0
    else if s[0] == c then 0
    else 1 + IndexOf(s[1..], c)
  }

  /** `sep.join(xs)`. */
  function Join(xs: seq<string>, sep: string): string
  {
    if xs == [] then ""
    else if |xs| == 1 then xs[0]
    else xs[0] + sep + Join(xs[1..], sep)
  }

  /**
    Python's `s.split(c)` for a one-character separator: always at least one
    piece, no piece holds the separator, and joining the pieces back with the
    separator gives `s` again.
  */
  function SplitOn(s: string, c: char): (r: seq<string>)
    ensures |r| >= 1
    ensures forall p :: p in r ==> c !in p
    ensures Join(r, [c]) == s
    decreases |s|
  {
    var k := IndexOf(s, c);
    if k == |s| then
      assert s[..k] == s;
      [s]
    else
      var rest := SplitOn(s[k + 1..], c);
      assert s == s[..k] + [c] + s[k + 1..];
      [s[..k]] + rest
  }

  /** A string without the separator is one piece. */
  lemma SplitOnAbsent(s: string, c: char)
    requires c !in s
    ensures SplitOn(s, c) == [s]
  {
    assert IndexOf(s, c) == |s|;
  }

  /** `t` put in front of every element. */
  function PrefixAll(t: string, ys: seq<string>): (r: seq<string>)
    ensures |r| == |ys|
    ensures forall i :: 0 <= i < |ys| ==> r[i] == t + ys[i]
  {
    if ys == [] then [] else [t + ys[0]] + PrefixAll(t, ys[1..])
  }

  /** A first piece without the separator splits off on its own. */
  lemma SplitStep(a: string, c: char, rest: string)
    requires c !in a
    ensures SplitOn(a + [c] + rest, c) == [a] + SplitOn(rest, c)
  {
    var s := a + [c] + rest;
    var k := IndexOf(s, c);
    assert s[|a|] == c;
    forall i | 0 <= i < |a| ensures s[i] != c {
      assert s[i] == a[i];
      assert a[i] in a;
    }
    assert k == |a|;
    assert s[..k] == a;
    assert s[k + 1..] == rest;
  }

  /**
    Splitting `xs` joined with `c + t` on `c` (when neither `t` nor any element
    holds `c`) gives back `xs`, with `t` in front of every element but the first.
  */
  lemma {:induction false} SplitJoin(xs: seq<string>, c: char, t: string)
    requires |xs| >= 1
    requires c !in t
    requires forall x :: x in xs ==> c !in x
    ensures SplitOn(Join(xs, [c] + t), c) == [xs[0]] + PrefixAll(t, xs[1..])
    decreases |xs|
  {
    var sep := [c] + t;
    if |xs| == 1 {
      SplitOnAbsent(xs[0], c);
    } else {
      var ys := [t + xs[1]] + xs[2..];
      assert xs[1..] == [xs[1]] + xs[2..];
      JoinPrepend(t, xs[1..], sep);
      assert Join(xs, sep) == xs[0] + [c] + Join(ys, sep);
      assert xs[0] in xs;
      SplitStep(xs[0], c, Join(ys, sep));
      assert forall y :: y in ys ==> c !in y by {
        forall y | y in ys ensures c !in y {
          if y != t + xs[1] { assert y in xs[2..]; assert y in xs; } else { assert xs[1] in xs; }
        }
      }
      SplitJoin(ys, c, t);
      assert ys[1..] == xs[2..];
      assert PrefixAll(t, xs[1..]) == [t + xs[1]] + PrefixAll(t, xs[2..]);
    }
  }

  lemma JoinPrepend(t: string, xs: seq<string>, sep: string)
    requires |xs| >= 1
    ensures t + Join(xs, sep) == Join([t + xs[0]] + xs[1..], sep)
  {
    var ys := [t + xs[0]] + xs[1..];
    assert ys[1..] == xs[1..];
  }

  /** `s.replace(a, b)` for one character by one character. */
  function ReplaceChar(s: string, a: char, b: char): (r: string)
    ensures |r| == |s|
    ensures forall i :: 0 <= i < |s| ==> r[i] == (if s[i] == a then b else s[i])
  {
    seq(|s|, i requires 0 <= i < |s| => if s[i] == a then b else s[i])
  }

  // ---------------------------------------------------------------- numbers

  function DigitChar(d: int): (c: char)
    requires 0 <= d < 10
    ensures IsDigit(c) && c as int == '0' as int + d
  {
    ('0' as int + d) as char
  }

  function DigitValue(c: char): (d: nat)
    requires IsDigit(c)
    ensures d < 10 && DigitChar(d) == c
  {
    c as int - '0' as int
  }

  /** `str(n)` for a natural number: decimal, no leading zeros. */
  function NatDigits(n: nat): (r: string)
    ensures |r| >= 1 && AllDigits(r)
  {
    if n < 10 then [DigitChar(n)] else NatDigits(n / 10) + [DigitChar(n % 10)]
  }

  /** The number a string of decimal digits denotes (0 for the empty string). */
  function DigitsValue(s: string): nat
    requires AllDigits(s)
  {
    if s == [] then 0 else DigitsValue(s[..|s| - 1]) * 10 + DigitValue(s[|s| - 1])
  }

  lemma DigitsValueAppend(s: string, c: char)
    requires AllDigits(s) && IsDigit(c)
    ensures DigitsValue(s + [c]) == DigitsValue(s) * 10 + DigitValue(c)
  {
    assert (s + [c])[..|s|] == s;
  }

  /** Reading back `str(n)` gives `n`. */
  lemma {:induction false} NatDigitsRoundTrip(n: nat)
    ensures DigitsValue(NatDigits(n)) == n
  {
    if n >= 10 {
      NatDigitsRoundTrip(n / 10);
      DigitsValueAppend(NatDigits(n / 10), DigitChar(n % 10));
    }
  }

  /** `str(i)` for an integer: a minus sign in front of the digits of `|i|`. */
  function IntToStr(i: int): (r: string)
    ensures |r| >= 1
  {
    if i < 0 then "-" + NatDigits(-i) else NatDigits(i)
  }

  // ---------------------------------------------------------------- words

  /**
    `s.split(maxsplit=1)[0]`: the first whitespace-delimited word, or `None`
    where Python raises `IndexError` (an empty or all-whitespace string).
  */
  function FirstWord(s: string): (r: Option<string>)
    ensures r.None? <==> forall i :: 0 <= i < |s| ==> IsSpace(s[i])
    ensures r.Some? ==> r.value != [] && forall c :: c in r.value ==> !IsSpace(c)
  {
    TrimLeftShape(s);
    var t := TrimLeft(s);
    if t == [] then None
    else
      var k := WordEnd(t);
      Some(t[..k])
  }

  /** Length of the leading run of non-whitespace characters. */
  function WordEnd(t: string): (k: nat)
    ensures k <= |t|
    ensures forall i :: 0 <= i < k ==> !IsSpace(t[i])
    ensures k < |t| ==> IsSpace(t[k])
  {
    if t == [] || IsSpace(t[0]) then 0 else 1 + WordEnd(t[1..])
  }

  /** A word followed by nothing or by whitespace is the first word. */
  lemma FirstWordOf(w: string, rest: string)
    requires w != [] && forall c :: c in w ==> !IsSpace(c)
    requires rest == [] || IsSpace(rest[0])
    ensures FirstWord(w + rest) == Some(w)
  {
    var s := w + rest;
    assert s[0] == w[0] && w[0] in w;
    WordEndOf(w, rest);
    assert s[..|w|] == w;
  }

  lemma {:induction false} WordEndOf(w: string, rest: string)
    requires forall c :: c in w ==> !IsSpace(c)
    requires rest == [] || IsSpace(rest[0])
    ensures WordEnd(w + rest) == |w|
    decreases |w|
  {
    if w == [] {
      assert w + rest == rest;
    } else {
      assert w[0] in w;
      assert (w + rest)[1..] == w[1..] + rest;
      assert forall c :: c in w[1..] ==> c in w;
      WordEndOf(w[1..], rest);
    }
  }

  /**
    `split()[0]` skips the leading whitespace: the first word of any text that
    is not all whitespace is the run of non-whitespace after it.
  */
  lemma {:induction false} FirstWordAfterSpaces(ws: string, w: string, rest: string)
    requires forall i :: 0 <= i < |ws| ==> IsSpace(ws[i])
    requires w != [] && forall c :: c in w ==> !IsSpace(c)
    requires rest == [] || IsSpace(rest[0])
    ensures FirstWord(ws + w + rest) == Some(w)
    decreases |ws|
  {
    if ws == [] {
      assert ws + w + rest == w + rest;
      FirstWordOf(w, rest);
    } else {
      var s := ws + w + rest;
      assert s[1..] == ws[1..] + w + rest;
      assert TrimLeft(s) == TrimLeft(s[1..]);
      FirstWordAfterSpaces(ws[1..], w, rest);
    }
  }
}
