/**
  The Python 2 string and integer primitives the scanners rely on:
  slicing a prefix (`s[0:19]`), `str.split(sep)` with a one-character
  separator, and `int(s)` on a byte string.
*/
module Strings {
  import opened Wrappers

  /** `s[0:n]`: the first n characters, or all of s when it is shorter (slices clip, they never raise). */
  function Prefix(s: string, n: nat): (r: string)
    ensures |r| == if |s| < n then |s| else n
    ensures r <= s
  {
    if |s| <= n then s else s[..n]
  }

  predicate IsDigit(c: char) {
    '0' <= c <= '9'
  }

  /** The characters C's isspace accepts, which Python 2's int() skips around a number. */
  predicate IsSpace(c: char) {
    c == ' ' || c == '\t' || c == '\n' || c == '\r' || c as int == 11 || c as int == 12
  }

  predicate AllDigits(s: string) {
    forall i :: 0 <= i < |s| ==> IsDigit(s[i])
  }

  function TrimLeft(s: string): (r: string)
    ensures |r| <= |s|
    ensures |r| > 0 ==> !IsSpace(r[0])
    decreases |s|
  {
    if |s| > 0 && IsSpace(s[0]) then TrimLeft(s[1..]) else s
  }

  function TrimRight(s: string): (r: string)
    ensures r <= s
    ensures |r| > 0 ==> !IsSpace(r[|r| - 1])
    decreases |s|
  {
    if |s| > 0 && IsSpace(s[|s| - 1]) then TrimRight(s[..|s| - 1]) else s
  }

  /** Value of a run of decimal digits, most significant first. */
  function DigitsValue(s: string): nat
    requires AllDigits(s)
    decreases |s|
  {
    if |s| == 0 then 0 else DigitsValue(s[..|s| - 1]) * 10 + (s[|s| - 1] as int - '0' as int)
  }

  /**
    Python 2 `int(s)` with base 10: surrounding whitespace is skipped, an
    optional sign may be followed by more whitespace (PyOS_strtol skips it),
    then at least one decimal digit. None stands for the ValueError.
  */
  function ParseInt(s: string): Option<int>
  {
    ParseTrimmed(TrimRight(TrimLeft(s)))
  }

  /** int() once the surrounding whitespace is gone: an optional sign, more whitespace, digits. */
  function ParseTrimmed(t: string): Option<int>
  {
    if |t| > 0 && (t[0] == '-' || t[0] == '+') then
      match ParseUnsigned(TrimLeft(t[1..]))
      case None => None
      case Some(v) => Some(if t[0] == '-' then -v else v)
    else ParseUnsigned(t)
  }

  /** At least one decimal digit and nothing else. */
  function ParseUnsigned(d: string): Option<int>
  {
    if |d| > 0 && AllDigits(d) then Some(DigitsValue(d)) else None
  }

  /** Decimal text of a natural number, without leading zeros. */
  function ShowNat(n: nat): (r: string)
    ensures |r| > 0 && AllDigits(r)
  {
    if n < 10 then [('0' as int + n) as char]
    else ShowNat(n / 10) + [('0' as int + n % 10) as char]
  }

  /** `str(n)` for an integer. */
  function Show(n: int): string {
    if n < 0 then ['-'] + ShowNat(-n) else ShowNat(n)
  }

  lemma {:induction false} ShowNatValue(n: nat)
    ensures DigitsValue(ShowNat(n)) == n
    decreases n
  {
    var r := ShowNat(n);
    if n >= 10 {
      ShowNatValue(n / 10);
      assert r[..|r| - 1] == ShowNat(n / 10);
    }
  }

  lemma TrimUnpadded(s: string)
    requires |s| > 0 && !IsSpace(s[0]) && !IsSpace(s[|s| - 1])
    ensures TrimRight(TrimLeft(s)) == s
  {
  }

  /** Text with no whitespace at either end goes to int() unchanged by the stripping. */
  lemma ParseUnpadded(s: string)
    requires |s| > 0 && !IsSpace(s[0]) && !IsSpace(s[|s| - 1])
    ensures ParseInt(s) == ParseTrimmed(s)
  {
    TrimUnpadded(s);
  }

  /** int() of unsigned digits with no padding is their value. */
  lemma ParseDigits(s: string)
    requires |s| > 0 && AllDigits(s)
    ensures ParseInt(s) == Some(DigitsValue(s))
  {
    assert IsDigit(s[0]) && IsDigit(s[|s| - 1]);
    ParseUnpadded(s);
    UnsignedDigits(s);
  }

  lemma TrimLeftDigits(digits: string)
    requires |digits| > 0 && AllDigits(digits)
    ensures TrimLeft(digits) == digits
  {
    assert IsDigit(digits[0]);
  }

  lemma UnsignedDigits(digits: string)
    requires |digits| > 0 && AllDigits(digits)
    ensures ParseUnsigned(digits) == Some(DigitsValue(digits) as int)
  {
  }

  /** After the stripping, a minus sign followed by digits reads as the negated value. */
  lemma ParseMinusDigits(digits: string)
    requires |digits| > 0 && AllDigits(digits)
    ensures ParseTrimmed(['-'] + digits) == Some(-(DigitsValue(digits) as int))
  {
    TrimLeftDigits(digits);
    UnsignedDigits(digits);
    var s := ['-'] + digits;
    assert s[1..] == digits;
  }

  /** int() of a minus sign followed by digits is the negated value. */
  lemma ParseNegative(digits: string)
    requires |digits| > 0 && AllDigits(digits)
    ensures ParseInt(['-'] + digits) == Some(-(DigitsValue(digits) as int))
  {
    var s := ['-'] + digits;
    assert IsDigit(digits[|digits| - 1]) && s[|s| - 1] == digits[|digits| - 1];
    ParseUnpadded(s);
    ParseMinusDigits(digits);
  }

  /** int() reads back what str() writes. */
  lemma ParseShow(n: int)
    ensures ParseInt(Show(n)) == Some(n)
  {
    if n < 0 {
      ShowNatValue(-n);
      ParseNegative(ShowNat(-n));
    } else {
      ShowNatValue(n);
      ParseDigits(ShowNat(n));
    }
  }

  /** Stripping from the left, then from the right, does not see one more space at the end. */
  lemma {:induction false} TrimBothPadRight(s: string, d: char)
    requires IsSpace(d)
    ensures TrimRight(TrimLeft(s + [d])) == TrimRight(TrimLeft(s))
    decreases |s|
  {
    if |s| > 0 && IsSpace(s[0]) {
      assert (s + [d])[1..] == s[1..] + [d];
      TrimBothPadRight(s[1..], d);
    } else if |s| == 0 {
      assert TrimLeft(s + [d]) == TrimLeft([d][1..]);
    } else {
      assert (s + [d])[..|s|] == s;
    }
  }

  /** int() ignores whitespace added on either side of its argument. */
  lemma ParseIntPadded(s: string, c: char, d: char)
    requires IsSpace(c) && IsSpace(d)
    ensures ParseInt([c] + s + [d]) == ParseInt(s)
  {
    assert ([c] + s + [d])[1..] == s + [d];
    TrimBothPadRight(s, d);
  }

  /** Python's `s.split(sep)`: the pieces between occurrences of sep, empty pieces kept. */
  function Split(s: string, sep: char): (r: seq<string>)
    ensures |r| >= 1
    ensures forall i :: 0 <= i < |r| ==> sep !in r[i]
    decreases |s|
  {
    if |s| == 0 then [""]
    else
      var rest := Split(s[1..], sep);
      if s[0] == sep then [""] + rest else [[s[0]] + rest[0]] + rest[1..]
  }

  /** `sep.join(pieces)`. */
  function Join(pieces: seq<string>, sep: char): string
    requires |pieces| >= 1
    decreases |pieces|
  {
    if |pieces| == 1 then pieces[0] else pieces[0] + [sep] + Join(pieces[1..], sep)
  }

  /** Splitting loses nothing: joining the pieces back gives the original text. */
  lemma {:induction false} JoinSplit(s: string, sep: char)
    ensures Join(Split(s, sep), sep) == s
    decreases |s|
  {
    if |s| > 0 {
      JoinSplit(s[1..], sep);
      var rest := Split(s[1..], sep);
      if s[0] != sep {
        var r := Split(s, sep);
        assert r[1..] == rest[1..];
        if |rest| == 1 {
          assert Join(r, sep) == [s[0]] + rest[0];
        } else {
          assert Join(r, sep) == [s[0]] + rest[0] + [sep] + Join(rest[1..], sep);
        }
      }
    }
  }

  /** Text without sep splits into itself. */
  lemma {:induction false} SplitPlain(p: string, sep: char)
    requires sep !in p
    ensures Split(p, sep) == [p]
    decreases |p|
  {
    if |p| > 0 {
      assert p[0] in p && p[1..] <= p[1..];
      assert sep !in p[1..] by { assert forall c :: c in p[1..] ==> c in p; }
      SplitPlain(p[1..], sep);
      assert [p[0]] + p[1..] == p;
    }
  }

  /** Text without sep, then sep: the text is the first piece and splitting goes on after the sep. */
  lemma {:induction false} SplitAfter(p: string, rest: string, sep: char)
    requires sep !in p
    ensures Split(p + [sep] + rest, sep) == [p] + Split(rest, sep)
    decreases |p|
  {
    var s := p + [sep] + rest;
    if |p| == 0 {
      assert s == [sep] + rest && s[1..] == rest;
    } else {
      assert p[0] in p;
      assert sep !in p[1..] by { assert forall c :: c in p[1..] ==> c in p; }
      SplitAfter(p[1..], rest, sep);
      assert s[0] == p[0] && s[1..] == p[1..] + [sep] + rest;
      assert [p[0]] + p[1..] == p;
    }
  }

  /** And the other way round: pieces free of sep are recovered by splitting their join. */
  lemma {:induction false} SplitJoin(pieces: seq<string>, sep: char)
    requires |pieces| >= 1
    requires forall i :: 0 <= i < |pieces| ==> sep !in pieces[i]
    ensures Split(Join(pieces, sep), sep) == pieces
    decreases |pieces|
  {
    if |pieces| == 1 {
      SplitPlain(pieces[0], sep);
    } else {
      assert sep !in pieces[0];
      SplitJoin(pieces[1..], sep);
      SplitAfter(pieces[0], Join(pieces[1..], sep), sep);
      assert [pieces[0]] + pieces[1..] == pieces;
    }
  }

  /**
    `s.split(sep)[0]`: the text before the first sep (all of s when there is
    none) — a prefix of s, free of sep, that ends where s ends or at a sep.
  */
  function Before(s: string, sep: char): (r: string)
    ensures r <= s && sep !in r
    ensures |r| < |s| ==> s[|r|] == sep
  {
    BeforeIsFirstPiece(s, sep);
    Split(s, sep)[0]
  }

  lemma {:induction false} BeforeIsFirstPiece(s: string, sep: char)
    ensures var r := Split(s, sep)[0]; r <= s && (|r| < |s| ==> s[|r|] == sep)
    decreases |s|
  {
    if |s| > 0 && s[0] != sep {
      BeforeIsFirstPiece(s[1..], sep);
    }
  }
}
