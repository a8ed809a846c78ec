/**
 The pieces of ECMAScript string behaviour the server relies on:
 the white-space class shared by `String.prototype.trim` and the regular
 expression `\s`, `trim` itself, and the decimal text a non-negative integer
 becomes inside a template literal (`${n}`).
 */
module JsText {

  /** White space and line terminators as ECMAScript defines them (the
      WhiteSpace and LineTerminator productions of ECMA-262): the characters
      `trim` removes and `\s` matches. */
  const SpaceChars: set<char> :=
    {'\t', '\n', '\U{000B}', '\U{000C}', '\r', ' ', '\U{00A0}', '\U{1680}',
     '\U{2000}', '\U{2001}', '\U{2002}', '\U{2003}', '\U{2004}', '\U{2005}',
     '\U{2006}', '\U{2007}', '\U{2008}', '\U{2009}', '\U{200A}',
     '\U{2028}', '\U{2029}', '\U{202F}', '\U{205F}', '\U{3000}', '\U{FEFF}'}

  predicate IsSpace(c: char) {
    c in SpaceChars
  }

  predicate AllSpace(s: string) {
    forall i :: 0 <= i < |s| ==> IsSpace(s[i])
  }

  predicate NoSpace(s: string) {
    forall i :: 0 <= i < |s| ==> !IsSpace(s[i])
  }

  /** True when `s` neither starts nor ends with white space. */
  predicate Trimmed(s: string) {
    |s| == 0 || (!IsSpace(s[0]) && !IsSpace(s[|s| - 1]))
  }

  /** `String.prototype.trim`: `s` with the white space at both ends removed. */
  function Trim(s: string): (r: string)
    ensures Trimmed(r)
    ensures |r| <= |s|
    decreases |s|
  {
    if |s| == 0 then s
    else if IsSpace(s[0]) then Trim(s[1..])
    else if IsSpace(s[|s| - 1]) then Trim(s[..|s| - 1])
    else s
  }

  /** What `trim` keeps is the piece `s[lo..hi]` of `s`, with only white
      space before `lo` and after `hi`. */
  lemma {:induction false} TrimIsInfix(s: string) returns (lo: nat, hi: nat)
    ensures lo <= hi <= |s|
    ensures Trim(s) == s[lo..hi]
    ensures AllSpace(s[..lo]) && AllSpace(s[hi..])
    decreases |s|
  {
    if |s| == 0 {
      lo, hi := 0, 0;
    } else if IsSpace(s[0]) {
      var l, h := TrimIsInfix(s[1..]);
      PieceAfterSpace(s, l, h);
      lo, hi := l + 1, h + 1;
    } else if IsSpace(s[|s| - 1]) {
      var l, h := TrimIsInfix(s[..|s| - 1]);
      PieceBeforeSpace(s, l, h);
      lo, hi := l, h;
    } else {
      lo, hi := 0, |s|;
      assert s[lo..hi] == s;
    }
  }

  /** A space-surrounded piece of `s[1..]` is one of `s` when `s[0]` is space. */
  lemma PieceAfterSpace(s: string, l: nat, h: nat)
    requires |s| > 0 && IsSpace(s[0]) && l <= h <= |s| - 1
    requires AllSpace(s[1..][..l]) && AllSpace(s[1..][h..])
    ensures s[l + 1..h + 1] == s[1..][l..h]
    ensures AllSpace(s[..l + 1]) && AllSpace(s[h + 1..])
  {
    var t := s[1..];
    var piece := s[l + 1..h + 1];
    assert forall k :: 0 <= k < h - l ==> piece[k] == t[l + k];
    assert s[h + 1..] == t[h..];
    var pre := s[..l + 1];
    forall i | 0 <= i < l + 1
      ensures IsSpace(pre[i])
    {
      if i > 0 {
        assert pre[i] == t[..l][i - 1];
      }
    }
  }

  /** A space-surrounded piece of `s[..|s|-1]` is one of `s` when `s`'s last
      character is space. */
  lemma PieceBeforeSpace(s: string, l: nat, h: nat)
    requires |s| > 0 && IsSpace(s[|s| - 1]) && l <= h <= |s| - 1
    requires AllSpace(s[..|s| - 1][..l]) && AllSpace(s[..|s| - 1][h..])
    ensures s[l..h] == s[..|s| - 1][l..h]
    ensures AllSpace(s[..l]) && AllSpace(s[h..])
  {
    var t := s[..|s| - 1];
    assert s[..l] == t[..l];
    forall i | 0 <= i < |s| - h
      ensures IsSpace(s[h..][i])
    {
      if h + i < |t| {
        assert s[h..][i] == s[h + i] == t[h + i] == t[h..][i];
      }
    }
  }

  /** The only string `trim` can return for `a + m + b` is the unpadded middle:
      with TrimIsInfix this pins `trim` down completely. */
  lemma {:induction false} TrimOfPadded(a: string, m: string, b: string)
    requires AllSpace(a) && AllSpace(b) && Trimmed(m)
    ensures Trim(a + m + b) == m
    decreases |a| + |b|
  {
    var s := a + m + b;
    if |a| > 0 {
      assert s[0] == a[0];
      assert s[1..] == a[1..] + m + b;
      TrimOfPadded(a[1..], m, b);
    } else if |b| > 0 {
      assert s == m + b;
      if |m| == 0 {
        assert s[0] == b[0];
        assert s[1..] == [] + [] + b[1..];
        TrimOfPadded([], [], b[1..]);
      } else {
        assert s[0] == m[0];
        assert s[|s| - 1] == b[|b| - 1];
        assert s[..|s| - 1] == [] + m + b[..|b| - 1];
        TrimOfPadded([], m, b[..|b| - 1]);
      }
    } else {
      assert s == m;
    }
  }

  /** Trimming twice is trimming once. */
  lemma TrimIdempotent(s: string)
    ensures Trim(Trim(s)) == Trim(s)
  {
    var m := Trim(s);
    assert [] + m + [] == m;
    TrimOfPadded([], m, []);
  }

  function DigitChar(d: nat): (c: char)
    requires d < 10
    ensures '0' <= c <= '9'
  {
    (('0' as int) + d) as char
  }

  predicate IsDigits(s: string) {
    forall i :: 0 <= i < |s| ==> '0' <= s[i] <= '9'
  }

  /** Decimal text as `${n}` renders a non-negative integer: no sign, no
      leading zero unless the number is zero. */
  predicate IsCanonicalDecimal(s: string) {
    |s| >= 1 && IsDigits(s) && (|s| > 1 ==> s[0] != '0')
  }

  function NatToDecimal(n: nat): (r: string)
    ensures IsCanonicalDecimal(r)
  {
    if n < 10 then [DigitChar(n)] else NatToDecimal(n / 10) + [DigitChar(n % 10)]
  }

  /** The number a string of decimal digits denotes. */
  function DecimalValue(s: string): nat
    requires IsDigits(s)
  {
    if |s| == 0 then 0
    else DecimalValue(s[..|s| - 1]) * 10 + ((s[|s| - 1] as int) - ('0' as int))
  }

  /** Reading back the rendered digits gives the number. */
  lemma {:induction false} DecimalRoundTrip(n: nat)
    ensures DecimalValue(NatToDecimal(n)) == n
  {
    if n >= 10 {
      var r := NatToDecimal(n);
      assert r[..|r| - 1] == NatToDecimal(n / 10);
      DecimalRoundTrip(n / 10);
    }
  }

  /** Every canonical decimal string is the rendering of the number it denotes,
      so rendering is a bijection onto canonical decimals. */
  lemma {:induction false} DecimalRoundTripBack(s: string)
    requires IsCanonicalDecimal(s)
    ensures NatToDecimal(DecimalValue(s)) == s
  {
    if |s| > 1 {
      var p := s[..|s| - 1];
      assert IsCanonicalDecimal(p);
      DecimalRoundTripBack(p);
      assert p[0] == s[0];
      DecimalPositive(p);
      var n := DecimalValue(s);
      assert n / 10 == DecimalValue(p);
      assert n % 10 == (s[|s| - 1] as int) - ('0' as int);
    } else {
      assert |s| == 1;
    }
  }

  /** Digits that do not start with '0' denote a positive number. */
  lemma {:induction false} DecimalPositive(s: string)
    requires IsDigits(s) && |s| >= 1 && s[0] != '0'
    ensures DecimalValue(s) >= 1
  {
    if |s| > 1 {
      var p := s[..|s| - 1];
      assert p[0] == s[0];
      DecimalPositive(p);
    } else {
      assert s[0] > '0';
    }
  }
}
