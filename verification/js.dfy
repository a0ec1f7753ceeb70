/**
 The JavaScript built-ins the editor's core relies on, modelled on
 sequences of characters: `String.prototype.includes`, `trim`, `split` with a
 one-character separator, and `Number.prototype.toFixed(4)` for the
 non-negative fractions a selection holds.
 */
module Js {

  import opened Types

  /* ---------------------------------------------------------------------- */
  /* includes                                                                */
  /* ---------------------------------------------------------------------- */

  /** `t` occurs in `s` starting at index `i`. */
  ghost predicate OccursAt(s: string, t: string, i: int)
  {
    0 <= i && i + |t| <= |s| && s[i..i + |t|] == t
  }

  /** `s.includes(t)`, scanning left to right as the engine does. */
  function Includes(s: string, t: string): (r: bool)
    ensures r <==> exists i :: OccursAt(s, t, i)
    decreases |s|
  {
    if |t| > |s| then
      false
    else if s[..|t|] == t then
      assert OccursAt(s, t, 0);
      true
    else
      var rest := Includes(s[1..], t);
      assert rest ==> exists i :: OccursAt(s, t, i) by {
        if rest {
          var i :| OccursAt(s[1..], t, i);
          assert s[1..][i..i + |t|] == s[i + 1..i + 1 + |t|];
          assert OccursAt(s, t, i + 1);
        }
      }
      assert (exists i :: OccursAt(s, t, i)) ==> rest by {
        if exists i :: OccursAt(s, t, i) {
          var i :| OccursAt(s, t, i);
          assert i != 0;
          assert s[1..][i - 1..i - 1 + |t|] == s[i..i + |t|];
          assert OccursAt(s[1..], t, i - 1);
        }
      }
      rest
  }

  /** Whatever surrounds `t`, the result contains it. */
  lemma IncludesInfix(a: string, t: string, b: string)
    ensures Includes(a + t + b, t)
  {
    assert (a + t + b)[|a|..|a| + |t|] == t;
    assert OccursAt(a + t + b, t, |a|);
  }

  /** The middle of a three-part body after a head is contained in the whole. */
  lemma IncludesMiddle(h: string, l: string, m: string, t: string)
    ensures Includes(h + (l + m + t), m)
  {
    assert h + (l + m + t) == (h + l) + m + t;
    IncludesInfix(h + l, m, t);
  }

  /** Containment is transitive. */
  lemma IncludesTransitive(s: string, t: string, u: string)
    requires Includes(s, t) && Includes(t, u)
    ensures Includes(s, u)
  {
    var i :| OccursAt(s, t, i);
    var j :| OccursAt(t, u, j);
    forall k | 0 <= k < |u|
      ensures s[i + j + k] == u[k]
    {
      assert u[k] == t[j + k] == s[i..i + |t|][j + k];
    }
    assert s[i + j..i + j + |u|] == u;
    assert OccursAt(s, u, i + j);
  }

  /* ---------------------------------------------------------------------- */
  /* trim                                                                    */
  /* ---------------------------------------------------------------------- */

  /**
   The characters `trim` removes: the ECMAScript WhiteSpace code points
   (tab, vertical tab, form feed, the byte order mark and the Unicode space
   separators) and the LineTerminator code points.
   */
  predicate IsSpace(c: char)
  {
    || c == '\t' || c == '\U{B}' || c == '\U{C}' || c == ' ' || c == '\U{A0}'
    || c == '\U{FEFF}' || c == '\U{1680}' || ('\U{2000}' <= c <= '\U{200A}')
    || c == '\U{202F}' || c == '\U{205F}' || c == '\U{3000}'
    || c == '\n' || c == '\r' || c == '\U{2028}' || c == '\U{2029}'
  }

  /** Drops leading white space: what is left is a suffix that does not start with one. */
  function TrimStart(s: string): (r: string)
    ensures |r| <= |s| && r == s[|s| - |r|..]
    ensures forall i :: 0 <= i < |s| - |r| ==> IsSpace(s[i])
    ensures r == [] || !IsSpace(r[0])
    decreases |s|
  {
    if |s| > 0 && IsSpace(s[0]) then TrimStart(s[1..]) else s
  }

  /** Drops trailing white space: what is left is a prefix that does not end with one. */
  function TrimEnd(s: string): (r: string)
    ensures |r| <= |s| && r == s[..|r|]
    ensures forall i :: |r| <= i < |s| ==> IsSpace(s[i])
    ensures r == [] || !IsSpace(r[|r| - 1])
    decreases |s|
  {
    if |s| > 0 && IsSpace(s[|s| - 1]) then TrimEnd(s[..|s| - 1]) else s
  }

  /** `s.trim()`. */
  function Trim(s: string): string
  {
    TrimEnd(TrimStart(s))
  }

  /** `!s.trim()`: the text is empty once white space is removed. */
  predicate IsBlank(s: string)
  {
    Trim(s) == ""
  }

  /** A text is blank exactly when every character of it is white space. */
  lemma BlankIffAllSpace(s: string)
    ensures IsBlank(s) <==> forall i :: 0 <= i < |s| ==> IsSpace(s[i])
  {
    var u := TrimStart(s);
    if !IsBlank(s) {
      var r := Trim(s);
      assert r[0] == u[0] == s[|s| - |u|];
      assert u != [];
    }
  }

  /* ---------------------------------------------------------------------- */
  /* split                                                                   */
  /* ---------------------------------------------------------------------- */

  /**
   `s.split(sep)` for a one-character separator: the maximal separator-free
   pieces between separators, so there is always at least one piece and the
   empty text splits into one empty piece.
   */
  function Split(s: string, sep: char): (r: seq<string>)
    ensures |r| >= 1
    ensures forall k :: 0 <= k < |r| ==> sep !in r[k]
    decreases |s|
  {
    if |s| == 0 then
      [""]
    else
      var rest := Split(s[1..], sep);
      if s[0] == sep then [""] + rest else [[s[0]] + rest[0]] + rest[1..]
  }

  /** `pieces.join(sep)`. */
  function Join(pieces: seq<string>, sep: char): string
    requires |pieces| >= 1
  {
    if |pieces| == 1 then pieces[0] else pieces[0] + [sep] + Join(pieces[1..], sep)
  }

  /** Splitting loses nothing: joining the pieces back gives the text again. */
  lemma {:induction false} JoinSplit(s: string, sep: char)
    ensures Join(Split(s, sep), sep) == s
    decreases |s|
  {
    if |s| > 0 {
      var rest := Split(s[1..], sep);
      JoinSplit(s[1..], sep);
      if s[0] == sep {
        assert Split(s, sep)[1..] == rest;
        assert s == [sep] + s[1..];
      } else {
        var r := Split(s, sep);
        if |rest| == 1 {
          assert r == [[s[0]] + rest[0]];
          assert s == [s[0]] + s[1..];
        } else {
          assert r[1..] == rest[1..];
          assert Join(rest, sep) == rest[0] + [sep] + Join(rest[1..], sep);
          assert s == [s[0]] + s[1..];
        }
      }
    }
  }

  /** A text without the separator is a single piece. */
  lemma {:induction false} SplitNoSeparator(a: string, sep: char)
    requires sep !in a
    ensures Split(a, sep) == [a]
    decreases |a|
  {
    if |a| > 0 {
      SplitNoSeparator(a[1..], sep);
      assert a == [a[0]] + a[1..];
    }
  }

  /** A separator-free head followed by the separator splits off as the first piece. */
  lemma {:induction false} SplitAfterHead(a: string, sep: char, b: string)
    requires sep !in a
    ensures Split(a + [sep] + b, sep) == [a] + Split(b, sep)
    decreases |a|
  {
    var s := a + [sep] + b;
    if |a| == 0 {
      assert s[1..] == b;
    } else {
      assert s[1..] == a[1..] + [sep] + b;
      SplitAfterHead(a[1..], sep, b);
      assert a == [a[0]] + a[1..];
    }
  }

  /** `s.split(sep)[1]`: the second piece, or `undefined` when there is no separator. */
  function SecondPiece(s: string, sep: char): (r: Option<string>)
    ensures r.None? <==> sep !in s
    ensures r.Some? ==> sep !in r.value
  {
    var pieces := Split(s, sep);
    JoinSplit(s, sep);
    if |pieces| >= 2 then Some(pieces[1]) else None
  }

  /**
   The second piece is the text between the first separator and the next
   one, or the end. Every text containing the separator has exactly one of
   these two forms, so this fixes `SecondPiece` on all of them.
   */
  lemma SecondPieceBetweenSeparators(a: string, sep: char, b: string, c: string)
    requires sep !in a && sep !in b
    ensures SecondPiece(a + [sep] + b, sep) == Some(b)
    ensures SecondPiece(a + [sep] + b + [sep] + c, sep) == Some(b)
  {
    SplitAfterHead(a, sep, b);
    SplitNoSeparator(b, sep);
    assert a + [sep] + b + [sep] + c == a + [sep] + (b + [sep] + c);
    SplitAfterHead(a, sep, b + [sep] + c);
    SplitAfterHead(b, sep, c);
  }

  /* ---------------------------------------------------------------------- */
  /* toFixed(4)                                                              */
  /* ---------------------------------------------------------------------- */

  /**
   The integer `n` that makes `n / 10000 - x` as close to zero as possible,
   the larger one on a tie, which is the rounding `toFixed` prescribes.
   */
  function NearestTenThousandths(x: real): (n: nat)
    requires x >= 0.0
    ensures x * 10000.0 - 0.5 < n as real <= x * 10000.0 + 0.5
  {
    (x * 10000.0 + 0.5).Floor
  }

  function DigitChar(d: nat): (c: char)
    requires d < 10
    ensures '0' <= c <= '9'
  {
    ('0' as int + d) as char
  }

  function DigitValue(c: char): nat
  {
    if '0' <= c <= '9' then (c as int - '0' as int) as nat else 0
  }

  /** The decimal numeral of `n` without leading zeros ("0" for zero). */
  function Decimal(n: nat): (r: string)
    ensures |r| >= 1
    ensures forall i :: 0 <= i < |r| ==> '0' <= r[i] <= '9'
    decreases n
  {
    if n < 10 then [DigitChar(n)] else Decimal(n / 10) + [DigitChar(n % 10)]
  }

  /** Only zero's numeral starts with a zero. */
  lemma {:induction false} DecimalNoLeadingZero(n: nat)
    ensures Decimal(n)[0] == '0' ==> n == 0 && |Decimal(n)| == 1
    decreases n
  {
    if n >= 10 {
      DecimalNoLeadingZero(n / 10);
      assert Decimal(n)[0] == Decimal(n / 10)[0];
    }
  }

  /** The number a string of decimal digits denotes. */
  function DecimalValue(s: string): nat
    decreases |s|
  {
    if |s| == 0 then 0 else DecimalValue(s[..|s| - 1]) * 10 + DigitValue(s[|s| - 1])
  }

  lemma {:induction false} DecimalRoundTrip(n: nat)
    ensures DecimalValue(Decimal(n)) == n
    decreases n
  {
    if n >= 10 {
      var r := Decimal(n);
      DecimalRoundTrip(n / 10);
      assert r[..|r| - 1] == Decimal(n / 10);
      assert DigitValue(r[|r| - 1]) == n % 10;
      assert DecimalValue(r) == (n / 10) * 10 + n % 10;
    }
  }

  /** Four digits with leading zeros. */
  function Pad4(n: nat): string
    requires n < 10000
  {
    var n1 := n / 10;
    var n2 := n1 / 10;
    [DigitChar(n2 / 10), DigitChar(n2 % 10), DigitChar(n1 % 10), DigitChar(n % 10)]
  }

  /** `n / 10000` printed with exactly four decimals, as `toFixed(4)` lays out its digits. */
  function TenThousandths(n: nat): (r: string)
    ensures FixedLayout(r)
  {
    var whole, frac := Decimal(n / 10000), Pad4(n % 10000);
    var r := whole + "." + frac;
    DecimalNoLeadingZero(n / 10000);
    assert forall i :: 0 <= i < |whole| ==> r[i] == whole[i];
    assert forall i :: 0 <= i < 4 ==> r[|whole| + 1 + i] == frac[i];
    r
  }

  /**
   The layout `toFixed(4)` prints for a non-negative number: one or more
   digits without a leading zero (a lone "0" aside), a point, four digits.
   */
  predicate FixedLayout(s: string)
  {
    && |s| >= 6
    && s[|s| - 5] == '.'
    && (forall i :: 0 <= i < |s| && i != |s| - 5 ==> '0' <= s[i] <= '9')
    && (s[0] == '0' ==> |s| == 6)
  }

  /** Reads back a numeral of the form `digits.dddd` as a count of ten-thousandths; -1 for any other text. */
  function ParseTenThousandths(s: string): int
  {
    if !FixedLayout(s) then -1 else DecimalValue(s[..|s| - 5]) * 10000 + DecimalValue(s[|s| - 4..])
  }

  lemma Pad4RoundTrip(m: nat)
    requires m < 10000
    ensures DecimalValue(Pad4(m)) == m
  {
    var p := Pad4(m);
    var m1 := m / 10;
    var m2 := m1 / 10;
    var a, b, c, d := m2 / 10, m2 % 10, m1 % 10, m % 10;
    assert p[..1][..0] == [];
    assert p[..2][..1] == p[..1];
    assert p[..3][..2] == p[..2];
    assert p[..|p| - 1] == p[..3];
    assert DecimalValue(p[..1]) == a;
    assert DecimalValue(p[..2]) == a * 10 + b;
    assert DecimalValue(p[..3]) == (a * 10 + b) * 10 + c;
    assert a * 10 + b == m2;
    assert m2 * 10 + c == m1;
    assert m1 * 10 + d == m;
  }

  /** The fixed-point numeral denotes exactly the count of ten-thousandths printed. */
  lemma TenThousandthsRoundTrip(n: nat)
    ensures ParseTenThousandths(TenThousandths(n)) == n
  {
    var q, m := n / 10000, n % 10000;
    var r := TenThousandths(n);
    assert r[..|r| - 5] == Decimal(q);
    assert r[|r| - 4..] == Pad4(m);
    DecimalRoundTrip(q);
    Pad4RoundTrip(m);
  }

  /**
   `x.toFixed(4)`: a minus sign for a negative number, then the nearest count
   of ten-thousandths laid out with four decimals.
   */
  function ToFixed4(x: real): (r: string)
    ensures x >= 0.0 ==>
      var n := ParseTenThousandths(r);
      n >= 0 && x * 10000.0 - 0.5 < n as real <= x * 10000.0 + 0.5
    ensures x < 0.0 ==>
      && |r| >= 1 && r[0] == '-'
      && var n := ParseTenThousandths(r[1..]);
         n >= 0 && -x * 10000.0 - 0.5 < n as real <= -x * 10000.0 + 0.5
  {
    if x < 0.0 then
      TenThousandthsRoundTrip(NearestTenThousandths(-x));
      var t := TenThousandths(NearestTenThousandths(-x));
      assert ("-" + t)[1..] == t;
      "-" + t
    else
      TenThousandthsRoundTrip(NearestTenThousandths(x));
      TenThousandths(NearestTenThousandths(x))
  }
}
