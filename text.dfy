/** Failure-carrying values shared by every module of the model. */
module Wrappers {
  datatype Option<+T> = None | Some(value: T)

  datatype Result<+T, +E> = Ok(value: T) | Err(error: E)
}

/**
 * Fixed-width unsigned and signed integers of the device code, and the
 * wrap-around arithmetic that C applies to them.
 */
module CInt {
  const TWO_32: int := 0x1_0000_0000

  type u8 = x: int | 0 <= x < 0x100
  type u16 = x: int | 0 <= x < 0x1_0000
  type u32 = x: int | 0 <= x < 0x1_0000_0000
  type i32 = x: int | -0x8000_0000 <= x < 0x8000_0000

  /** `a - b` on two uint32_t values: the difference modulo 2^32. */
  function Sub32(a: u32, b: u32): (r: u32)
    ensures a >= b ==> r == a - b
    ensures a < b ==> r == a - b + TWO_32
  {
    (a - b) % TWO_32
  }

  /** Conversion of an `int` to an unsigned 8-bit field: reduction modulo 256. */
  function ToU8(x: int): (r: u8)
    ensures 0 <= x < 0x100 ==> r == x
    ensures (x - r) % 0x100 == 0
  {
    x % 0x100
  }
}

/**
 * Text helpers: Python's `str.split`/`str.join` with a one-character
 * separator, decimal formatting as done by Python's `str(int)` and C's
 * `%d`/`%i`, and two-digit lower-case hexadecimal as done by C's `%02x`.
 * Every formatter comes with the parser that undoes it.
 */
module Text {
  import opened Wrappers
  import opened CInt

  /** `s.split(sep)`: the pieces between separators; never empty. */
  function Split(s: string, sep: char): (r: seq<string>)
    ensures |r| >= 1
    ensures forall k :: 0 <= k < |r| ==> sep !in r[k]
  {
    if |s| == 0 then [""]
    else
      var rest := Split(s[1..], sep);
      if s[0] == sep then [""] + rest
      else [[s[0]] + rest[0]] + rest[1..]
  }

  /** `sep.join(segs)`. */
  function Join(segs: seq<string>, sep: char): string
  {
    if |segs| == 0 then ""
    else if |segs| == 1 then segs[0]
    else segs[0] + [sep] + Join(segs[1..], sep)
  }

  lemma JoinConsHead(c: char, segs: seq<string>, sep: char)
    requires |segs| >= 1
    ensures Join([[c] + segs[0]] + segs[1..], sep) == [c] + Join(segs, sep)
  {
    var t := [[c] + segs[0]] + segs[1..];
    assert t[1..] == segs[1..];
  }

  /** Joining the pieces of a split gives the original string back. */
  lemma {:induction false} JoinSplit(s: string, sep: char)
    ensures Join(Split(s, sep), sep) == s
  {
    if |s| > 0 {
      var rest := Split(s[1..], sep);
      JoinSplit(s[1..], sep);
      if s[0] == sep {
        var r := [""] + rest;
        assert r[1..] == rest;
        assert Join(r, sep) == "" + [sep] + Join(rest, sep);
      } else {
        JoinConsHead(s[0], rest, sep);
      }
      assert s == [s[0]] + s[1..];
    }
  }

  lemma {:induction false} SplitPlain(a: string, sep: char)
    requires sep !in a
    ensures Split(a, sep) == [a]
  {
    if |a| > 0 {
      assert sep !in a[1..];
      SplitPlain(a[1..], sep);
      assert a == [a[0]] + a[1..];
    }
  }

  lemma {:induction false} SplitAppend(a: string, b: string, sep: char)
    requires sep !in a
    ensures Split(a + [sep] + b, sep) == [a] + Split(b, sep)
  {
    var s := a + [sep] + b;
    if |a| == 0 {
      assert s[0] == sep && s[1..] == b;
    } else {
      assert s[0] == a[0] && s[1..] == a[1..] + [sep] + b;
      assert sep !in a[1..];
      SplitAppend(a[1..], b, sep);
      assert a == [a[0]] + a[1..];
    }
  }

  /** Splitting a join of separator-free pieces gives the pieces back. */
  lemma {:induction false} SplitJoin(segs: seq<string>, sep: char)
    requires |segs| >= 1
    requires forall k :: 0 <= k < |segs| ==> sep !in segs[k]
    ensures Split(Join(segs, sep), sep) == segs
  {
    if |segs| == 1 {
      SplitPlain(segs[0], sep);
    } else {
      SplitJoin(segs[1..], sep);
      SplitAppend(segs[0], Join(segs[1..], sep), sep);
      assert [segs[0]] + segs[1..] == segs;
    }
  }

  // ---------------------------------------------------------------- decimal

  predicate IsDigit(c: char) {
    '0' <= c <= '9'
  }

  function DigitChar(d: nat): (c: char)
    requires d < 10
    ensures IsDigit(c) && (c as int) - ('0' as int) == d
  {
    (('0' as int) + d) as char
  }

  predicate AllDigits(s: string) {
    forall k :: 0 <= k < |s| ==> IsDigit(s[k])
  }

  /**
   * `str(i)` in Python, `%d`/`%i` in C: a minus sign for a negative
   * number, then the decimal digits, most significant first.
   */
  function IntText(i: int): (r: string)
    ensures |r| >= 1
    decreases if i < 0 then 1 - i else i
  {
    if i < 0 then "-" + IntText(-i)
    else if i < 10 then [DigitChar(i)]
    else IntText(i / 10) + [DigitChar(i % 10)]
  }

  function DigitsValue(s: string): nat
    requires AllDigits(s)
  {
    if |s| == 0 then 0
    else DigitsValue(s[..|s| - 1]) * 10 + ((s[|s| - 1] as int) - ('0' as int))
  }

  /** Reads a decimal integer: optional '-', then at least one digit, nothing else. */
  function ParseInt(s: string): Option<int>
  {
    if |s| >= 2 && s[0] == '-' && AllDigits(s[1..]) then Some(-(DigitsValue(s[1..]) as int))
    else if |s| >= 1 && AllDigits(s) then Some(DigitsValue(s))
    else None
  }

  /** The text of a non-negative number is digits only, without a leading zero, and their value is the number. */
  lemma {:induction false} IntTextDigits(n: nat)
    ensures AllDigits(IntText(n)) && DigitsValue(IntText(n)) == n
    ensures |IntText(n)| > 1 ==> IntText(n)[0] != '0'
  {
    if n >= 10 {
      IntTextDigits(n / 10);
      var r := IntText(n);
      assert r[..|r| - 1] == IntText(n / 10);
    }
  }

  /** The text of a number has no '.' and no ','. */
  lemma IntTextChars(i: int)
    ensures '.' !in IntText(i) && ',' !in IntText(i)
  {
    if i < 0 {
      IntTextDigits(-i);
      assert IntText(i) == "-" + IntText(-i);
    } else {
      IntTextDigits(i);
    }
  }

  /** Decimal formatting is undone by `ParseInt`. */
  lemma IntTextRoundTrip(i: int)
    ensures ParseInt(IntText(i)) == Some(i)
  {
    if i < 0 {
      IntTextDigits(-i);
      var r := IntText(i);
      assert r[1..] == IntText(-i);
    } else {
      IntTextDigits(i);
    }
  }

  lemma IntTextInjective(a: int, b: int)
    requires IntText(a) == IntText(b)
    ensures a == b
  {
    IntTextRoundTrip(a);
    IntTextRoundTrip(b);
  }

  // ------------------------------------------------------------ hexadecimal

  function HexDigit(d: nat): (c: char)
    requires d < 16
  {
    if d < 10 then DigitChar(d) else (('a' as int) + d - 10) as char
  }

  function HexValue(c: char): Option<nat>
  {
    if '0' <= c <= '9' then Some((c as int) - ('0' as int))
    else if 'a' <= c <= 'f' then Some((c as int) - ('a' as int) + 10)
    else None
  }

  /** `%02x` of one byte: two lower-case hexadecimal digits. */
  function HexByte(b: u8): (r: string)
    ensures |r| == 2 && ':' !in r && '"' !in r && ',' !in r
  {
    [HexDigit(b / 16), HexDigit(b % 16)]
  }

  function ParseHexByte(s: string): Option<u8>
  {
    if |s| != 2 then None
    else match (HexValue(s[0]), HexValue(s[1]))
      case (Some(h), Some(l)) => Some((h * 16 + l) % 0x100)
      case _ => None
  }

  lemma HexByteRoundTrip(b: u8)
    ensures ParseHexByte(HexByte(b)) == Some(b)
  {
    var h, l := b / 16, b % 16;
    assert HexValue(HexDigit(h)) == Some(h);
    assert HexValue(HexDigit(l)) == Some(l);
  }
}
