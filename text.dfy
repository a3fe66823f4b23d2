/**
 * String helpers that stand for PHP builtins the core relies on:
 * `implode`, `explode("\r\n", ...)` and the decimal rendering of integers
 * that string concatenation and `implode` apply to an `int`.
 */
module Text {
  import opened Wrappers

  /** `implode(sep, parts)`: the parts with `sep` between neighbours. */
  function Join(sep: string, parts: seq<string>): string
    decreases |parts|
  {
    if |parts| == 0 then ""
    else if |parts| == 1 then parts[0]
    else parts[0] + sep + Join(sep, parts[1..])
  }

  /** Regrouping a concatenation, stated once so that proofs need not compare strings character by character. */
  lemma AppendAssoc<T>(a: seq<T>, b: seq<T>, c: seq<T>)
    ensures (a + b) + c == a + (b + c)
  {
  }

  /** Concatenation of all parts, with no separator. */
  function Concat(parts: seq<string>): string
    decreases |parts|
  {
    if |parts| == 0 then "" else parts[0] + Concat(parts[1..])
  }

  lemma {:induction false} ConcatAppend(a: seq<string>, b: seq<string>)
    ensures Concat(a + b) == Concat(a) + Concat(b)
    decreases |a|
  {
    if |a| == 0 {
      assert a + b == b;
    } else {
      assert (a + b)[1..] == a[1..] + b;
      ConcatAppend(a[1..], b);
    }
  }

  // ---------------------------------------------------------------------------
  // Splitting on CRLF

  /** A carriage return immediately followed by a line feed starts at index i. */
  predicate CrlfAt(s: string, i: int)
  {
    0 <= i && i + 1 < |s| && s[i] == '\r' && s[i + 1] == '\n'
  }

  predicate ContainsCrlf(s: string)
  {
    exists i | 0 <= i < |s| :: CrlfAt(s, i)
  }

  /**
   * `explode("\r\n", s)`: the pieces between the CRLF sequences of s, scanned
   * from the left. An empty string gives one empty piece.
   */
  function SplitCrlf(s: string): (r: seq<string>)
    ensures |r| >= 1
    decreases |s|
  {
    if |s| == 0 then [""]
    else if CrlfAt(s, 0) then [""] + SplitCrlf(s[2..])
    else
      var rest := SplitCrlf(s[1..]);
      [[s[0]] + rest[0]] + rest[1..]
  }

  /** The first piece, when it is not empty, starts with the first character. */
  lemma FirstPieceStart(s: string)
    requires SplitCrlf(s)[0] != ""
    ensures |s| > 0 && SplitCrlf(s)[0][0] == s[0]
  {
  }

  /** Joining the pieces with CRLF gives back the split string. */
  lemma {:induction false} SplitCrlfJoin(s: string)
    ensures Join("\r\n", SplitCrlf(s)) == s
    decreases |s|
  {
    if |s| == 0 {
    } else if CrlfAt(s, 0) {
      SplitCrlfJoin(s[2..]);
      assert s == "\r\n" + s[2..];
    } else {
      var rest := SplitCrlf(s[1..]);
      SplitCrlfJoin(s[1..]);
      if |rest| == 1 {
        assert SplitCrlf(s) == [[s[0]] + rest[0]];
      } else {
        assert SplitCrlf(s)[1..] == rest[1..];
        assert Join("\r\n", rest) == rest[0] + "\r\n" + Join("\r\n", rest[1..]);
      }
    }
  }

  /** No piece contains a CRLF: every CRLF of the input was used as a separator. */
  lemma {:induction false} SplitCrlfPieces(s: string)
    ensures forall p :: p in SplitCrlf(s) ==> !ContainsCrlf(p)
    decreases |s|
  {
    if |s| == 0 {
      assert forall i :: !CrlfAt("", i);
    } else if CrlfAt(s, 0) {
      SplitCrlfPieces(s[2..]);
      assert forall i :: !CrlfAt("", i);
    } else {
      var rest := SplitCrlf(s[1..]);
      SplitCrlfPieces(s[1..]);
      var first := [s[0]] + rest[0];
      assert rest[0] in rest;
      forall i | CrlfAt(first, i) ensures false {
        if i == 0 {
          FirstPieceStart(s[1..]);
        } else {
          assert CrlfAt(rest[0], i - 1);
        }
      }
      forall p | p in SplitCrlf(s) ensures !ContainsCrlf(p) {
        if p != first {
          assert p in rest[1..];
        }
      }
    }
  }

  /** The string has no ':' (the separator of Redis keys and of header lines). */
  predicate NoColon(s: string)
  {
    forall k :: 0 <= k < |s| ==> s[k] != ':'
  }

  // ---------------------------------------------------------------------------
  // Decimal rendering of integers

  predicate IsDigit(c: char)
  {
    '0' <= c <= '9'
  }

  predicate AllDigits(s: string)
  {
    forall i :: 0 <= i < |s| ==> IsDigit(s[i])
  }

  function DigitChar(d: nat): (c: char)
    requires d < 10
    ensures IsDigit(c) && c as int - '0' as int == d
  {
    ('0' as int + d) as char
  }

  /** The decimal digits of n, most significant first, with no leading zeros. */
  function NatToString(n: nat): (r: string)
    ensures |r| >= 1 && AllDigits(r)
    decreases n
  {
    if n < 10 then [DigitChar(n)] else NatToString(n / 10) + [DigitChar(n % 10)]
  }

  /** PHP's rendering of an int as a string: an optional minus sign, then the digits. */
  function IntToString(n: int): (r: string)
    ensures |r| >= 1 && forall i :: 0 <= i < |r| ==> IsDigit(r[i]) || r[i] == '-'
  {
    if n < 0 then "-" + NatToString(-n) else NatToString(n)
  }

  /** The value of a string of decimal digits. */
  function DigitsValue(s: string): nat
    requires AllDigits(s)
    decreases |s|
  {
    if |s| == 0 then 0
    else DigitsValue(s[..|s| - 1]) * 10 + (s[|s| - 1] as int - '0' as int)
  }

  /** Reads back an integer written by IntToString. */
  function ParseInt(s: string): Option<int>
  {
    if |s| >= 2 && s[0] == '-' && AllDigits(s[1..]) then Some(0 - DigitsValue(s[1..]) as int)
    else if |s| >= 1 && AllDigits(s) then Some(DigitsValue(s))
    else None
  }

  lemma {:induction false} NatToStringValue(n: nat)
    ensures DigitsValue(NatToString(n)) == n
    decreases n
  {
    if n >= 10 {
      NatToStringValue(n / 10);
      var s := NatToString(n);
      assert s[..|s| - 1] == NatToString(n / 10);
    }
  }

  /** Decimal rendering loses nothing: ParseInt inverts IntToString. */
  lemma IntToStringRoundTrip(n: int)
    ensures ParseInt(IntToString(n)) == Some(n)
  {
    if n < 0 {
      NatToStringValue(-n);
      assert IntToString(n)[1..] == NatToString(-n);
    } else {
      NatToStringValue(n);
    }
  }

  /** Hence distinct integers are rendered differently. */
  lemma IntToStringInjective(a: int, b: int)
    requires IntToString(a) == IntToString(b)
    ensures a == b
  {
    IntToStringRoundTrip(a);
    IntToStringRoundTrip(b);
  }
}
