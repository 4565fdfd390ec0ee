/**
 * The java.lang.String and Integer operations the time library applies to
 * offset text: strip/startsWith, replaceFirst of a single character,
 * split on a single character, replace of a literal, parseInt and toString.
 */
module JavaText {
  import opened Wrappers
  import Decimal

  /** Character.isWhitespace: the separators String.strip removes. */
  predicate IsWhitespace(c: char) {
    || c == ' ' || c == '\t' || c == '\n' || c == '\U{000B}' || c == '\U{000C}' || c == '\r'
    || ('\U{001C}' <= c <= '\U{001F}')
    || c == '\U{1680}' || ('\U{2000}' <= c <= '\U{2006}') || ('\U{2008}' <= c <= '\U{200A}')
    || c == '\U{2028}' || c == '\U{2029}' || c == '\U{205F}' || c == '\U{3000}'
  }

  /** The first character of s.strip(), if any: s.strip().startsWith(c) holds iff this is Some(c). */
  function FirstNonWhitespace(s: string): (r: Option<char>)
    ensures r.Some? ==> !IsWhitespace(r.value)
    ensures r.Some? ==> exists i :: 0 <= i < |s| && s[i] == r.value && forall j :: 0 <= j < i ==> IsWhitespace(s[j])
    ensures r.None? <==> forall i :: 0 <= i < |s| ==> IsWhitespace(s[i])
  {
    if |s| == 0 then None
    else if IsWhitespace(s[0]) then
      var r := FirstNonWhitespace(s[1..]);
      assert r.Some? ==> exists i :: 0 < i < |s| && s[i] == r.value && forall j :: 0 <= j < i ==> IsWhitespace(s[j]) by {
        if r.Some? {
          var i :| 0 <= i < |s[1..]| && s[1..][i] == r.value && forall j :: 0 <= j < i ==> IsWhitespace(s[1..][j]);
          assert forall j :: 0 <= j < i + 1 ==> IsWhitespace(s[j]) by {
            forall j | 0 < j < i + 1 ensures IsWhitespace(s[j]) { assert s[j] == s[1..][j - 1]; }
          }
        }
      }
      r
    else Some(s[0])
  }

  /** s.indexOf(c): the position of the first c in s. */
  function IndexOf(s: string, c: char): (k: nat)
    requires c in s
    ensures k < |s| && s[k] == c && c !in s[..k]
  {
    if s[0] == c then 0
    else
      assert c in s[1..] by { assert s == [s[0]] + s[1..]; }
      var k := IndexOf(s[1..], c);
      assert s[..k + 1] == [s[0]] + s[1..][..k];
      k + 1
  }

  /** s.replaceFirst(c, ""): the text with its first c removed (unchanged when there is none). */
  function ReplaceFirst(s: string, c: char): (r: string)
    ensures c !in s ==> r == s
    ensures c in s ==> |r| == |s| - 1
  {
    if |s| == 0 then s
    else if s[0] == c then s[1..]
    else [s[0]] + ReplaceFirst(s[1..], c)
  }

  /** The character replaceFirst removes is the first occurrence, and the text around it is kept. */
  lemma {:induction false} ReplaceFirstRemovesFirst(s: string, c: char)
    requires c in s
    ensures ReplaceFirst(s, c) == s[..IndexOf(s, c)] + s[IndexOf(s, c) + 1..]
  {
    if s[0] == c {
      assert s[..0] + s[1..] == s[1..];
    } else {
      assert c in s[1..] by { assert s == [s[0]] + s[1..]; }
      ReplaceFirstRemovesFirst(s[1..], c);
      var k := IndexOf(s[1..], c);
      assert IndexOf(s, c) == k + 1;
      assert s[..k + 1] == [s[0]] + s[1..][..k];
      assert s[k + 2..] == s[1..][k + 1..];
    }
  }

  /** Every piece of s between occurrences of c, empty pieces included. */
  function SplitAll(s: string, c: char): (r: seq<string>)
    ensures |r| >= 1
    ensures forall i :: 0 <= i < |r| ==> c !in r[i]
  {
    if |s| == 0 then [""]
    else
      var rest := SplitAll(s[1..], c);
      if s[0] == c then [""] + rest else [[s[0]] + rest[0]] + rest[1..]
  }

  function DropTrailingEmpty(pieces: seq<string>): (r: seq<string>)
    ensures |r| <= |pieces| && r == pieces[..|r|]
    ensures |r| > 0 ==> r[|r| - 1] != ""
    ensures forall i :: |r| <= i < |pieces| ==> pieces[i] == ""
  {
    if |pieces| == 0 then pieces
    else if pieces[|pieces| - 1] == "" then DropTrailingEmpty(pieces[..|pieces| - 1])
    else pieces
  }

  /** s.split(c) for a one-character separator: the text itself when c does not occur, otherwise the pieces without trailing empty ones. */
  function Split(s: string, c: char): seq<string> {
    if c !in s then [s] else DropTrailingEmpty(SplitAll(s, c))
  }

  lemma {:induction false} SplitAllNoSeparator(a: string, c: char)
    requires c !in a
    ensures SplitAll(a, c) == [a]
  {
    if |a| > 0 {
      SplitAllNoSeparator(a[1..], c);
      assert [a[0]] + a[1..] == a;
    }
  }

  lemma {:induction false} SplitAllFirstPiece(a: string, c: char, b: string)
    requires c !in a
    ensures SplitAll(a + [c] + b, c) == [a] + SplitAll(b, c)
  {
    if |a| == 0 {
      assert a + [c] + b == [c] + b;
      assert ([c] + b)[1..] == b;
    } else {
      SplitAllFirstPiece(a[1..], c, b);
      assert (a + [c] + b)[1..] == a[1..] + [c] + b;
      assert [a[0]] + a[1..] == a;
    }
  }

  /** Splitting "a:b" and "a:b:e" on ':' gives back the components when none is empty. */
  lemma SplitComponents(a: string, b: string, e: Option<string>)
    requires ':' !in a && ':' !in b && b != ""
    requires e.Some? ==> ':' !in e.value && e.value != ""
    ensures e.None? ==> Split(a + ":" + b, ':') == [a, b]
    ensures e.Some? ==> Split(a + ":" + b + ":" + e.value, ':') == [a, b, e.value]
  {
    if e.None? {
      SplitAllFirstPiece(a, ':', b);
      SplitAllNoSeparator(b, ':');
      assert (a + ":" + b)[|a|] == ':';
    } else {
      var s := a + ":" + b + ":" + e.value;
      assert s == a + [':'] + (b + ":" + e.value);
      SplitAllFirstPiece(a, ':', b + ":" + e.value);
      SplitAllFirstPiece(b, ':', e.value);
      SplitAllNoSeparator(e.value, ':');
      assert s[|a|] == ':';
    }
  }

  // ---------------------------------------------------------------------
  // Decimal digits

  predicate IsDigit(c: char) {
    '0' <= c <= '9'
  }

  function DigitValue(c: char): int
    requires IsDigit(c)
  {
    c as int - '0' as int
  }

  function DigitChar(d: int): (c: char)
    requires 0 <= d <= 9
    ensures IsDigit(c) && DigitValue(c) == d
  {
    (d + '0' as int) as char
  }

  predicate AllDigits(s: string) {
    forall i :: 0 <= i < |s| ==> IsDigit(s[i])
  }

  /** The value of a run of decimal digits, most significant first. */
  function DigitsValue(s: string): (r: nat)
    requires AllDigits(s)
  {
    if |s| == 0 then 0 else 10 * DigitsValue(s[..|s| - 1]) + DigitValue(s[|s| - 1])
  }

  /** Integer.parseInt(s): an optional sign, then one or more ASCII digits, within the int range. */
  function ParseInt(s: string): (r: Result<int>)
    ensures r.Success? ==> Decimal.InInt32(r.value)
    ensures r.Success? ==>
      || (0 < |s| && AllDigits(s) && r.value == DigitsValue(s))
      || (1 < |s| && s[0] == '+' && AllDigits(s[1..]) && r.value == DigitsValue(s[1..]))
      || (1 < |s| && s[0] == '-' && AllDigits(s[1..]) && r.value == 0 - DigitsValue(s[1..]))
    ensures 0 < |s| && AllDigits(s) && Decimal.InInt32(DigitsValue(s)) ==> r == Success(DigitsValue(s))
    ensures 1 < |s| && s[0] == '+' && AllDigits(s[1..]) && Decimal.InInt32(DigitsValue(s[1..]))
      ==> r == Success(DigitsValue(s[1..]))
    ensures 1 < |s| && s[0] == '-' && AllDigits(s[1..]) && Decimal.InInt32(0 - DigitsValue(s[1..]))
      ==> r == Success(0 - DigitsValue(s[1..]))
  {
    var negative := |s| > 0 && s[0] == '-';
    var digits := if |s| > 0 && (s[0] == '-' || s[0] == '+') then s[1..] else s;
    if |digits| == 0 || !AllDigits(digits) then Failure(NumberFormat)
    else
      var v: int := if negative then 0 - DigitsValue(digits) as int else DigitsValue(digits);
      if Decimal.InInt32(v) then Success(v) else Failure(NumberFormat)
  }

  /** A number below 100 written with two digits, zero-padded as ZoneOffset's id and the formatters write it. */
  function TwoDigits(n: nat): (r: string)
    requires n < 100
    ensures |r| == 2 && AllDigits(r)
  {
    [DigitChar(n / 10), DigitChar(n % 10)]
  }

  /** A number below 10000 written with four digits, zero-padded. */
  function FourDigits(n: nat): (r: string)
    requires n < 10000
    ensures |r| == 4 && AllDigits(r)
  {
    TwoDigits(n / 100) + TwoDigits(n % 100)
  }

  /** A number below 100 written without padding. */
  function ShortDigits(n: nat): (r: string)
    requires n < 100
    ensures 1 <= |r| <= 2 && AllDigits(r)
  {
    if n < 10 then [DigitChar(n)] else TwoDigits(n)
  }

  /** parseInt reads back what the two-digit padding writes. */
  lemma ParseIntTwoDigits(n: nat)
    requires n < 100
    ensures ParseInt(TwoDigits(n)) == Success(n)
  {
    var s := TwoDigits(n);
    assert s[..1] == [DigitChar(n / 10)];
    assert s[..1][..0] == [];
    assert DigitsValue(s[..1]) == n / 10;
    assert DigitsValue(s) == 10 * (n / 10) + n % 10;
  }

  /** parseInt reads a minus sign before two digits as a negative number. */
  lemma ParseIntNegativeTwoDigits(n: nat)
    requires n < 100
    ensures ParseInt("-" + TwoDigits(n)) == Success(-(n as int))
  {
    var s := "-" + TwoDigits(n);
    var d := TwoDigits(n);
    assert s[1..] == d;
    assert d[..1] == [DigitChar(n / 10)];
    assert d[..1][..0] == [];
    assert DigitsValue(d[..1]) == n / 10;
    assert DigitsValue(d) == 10 * (n / 10) + n % 10;
  }

  // ---------------------------------------------------------------------
  // String.replace

  /** s.replace(t, r): every occurrence of t, scanning left to right without overlap, replaced by r. */
  function ReplaceAll(s: string, t: string, r: string): string
    requires |t| > 0
    decreases |s|
  {
    if |s| < |t| then s
    else if s[..|t|] == t then r + ReplaceAll(s[|t|..], t, r)
    else [s[0]] + ReplaceAll(s[1..], t, r)
  }

  /** t occurs in s at position i. */
  predicate OccursAt(t: string, s: string, i: int) {
    0 <= i && i + |t| <= |s| && s[i..i + |t|] == t
  }

  ghost predicate Occurs(t: string, s: string) {
    exists i :: OccursAt(t, s, i)
  }

  /** Text without an occurrence of t is left alone. */
  lemma {:induction false} ReplaceAllAbsent(s: string, t: string, r: string)
    requires |t| > 0 && !Occurs(t, s)
    ensures ReplaceAll(s, t, r) == s
  {
    if |s| >= |t| {
      assert !OccursAt(t, s, 0);
      assert s[0..|t|] == s[..|t|];
      assert !Occurs(t, s[1..]) by {
        forall i | OccursAt(t, s[1..], i)
          ensures false
        {
          assert s[1..][i..i + |t|] == s[i + 1..i + 1 + |t|];
          assert OccursAt(t, s, i + 1);
        }
      }
      ReplaceAllAbsent(s[1..], t, r);
      assert [s[0]] + s[1..] == s;
    }
  }

  /** A prefix holding no first character of t passes through unchanged. */
  lemma {:induction false} ReplaceAllSkipPrefix(a: string, b: string, t: string, r: string)
    requires |t| > 0 && t[0] !in a
    ensures ReplaceAll(a + b, t, r) == a + ReplaceAll(b, t, r)
  {
    if |a| > 0 {
      var s := a + b;
      assert s[0] == a[0];
      if |s| >= |t| {
        assert s[..|t|][0] == a[0];
        assert s[..|t|] != t;
      }
      ReplaceAllSkipPrefix(a[1..], b, t, r);
      assert s[1..] == a[1..] + b;
      if |s| >= |t| {
        calc {
          ReplaceAll(s, t, r);
          [a[0]] + ReplaceAll(a[1..] + b, t, r);
          [a[0]] + (a[1..] + ReplaceAll(b, t, r));
          { assert [a[0]] + a[1..] == a; }
          a + ReplaceAll(b, t, r);
        }
      } else {
        assert ReplaceAll(b, t, r) == b;
      }
    } else {
      assert a + b == b;
    }
  }

  /** An occurrence at the front is replaced and the scan continues after it. */
  lemma ReplaceAllAtFront(t: string, b: string, r: string)
    requires |t| > 0
    ensures ReplaceAll(t + b, t, r) == r + ReplaceAll(b, t, r)
  {
    var s := t + b;
    assert s[..|t|] == t;
    assert s[|t|..] == b;
  }

  /** When t's first character is not in a, every occurrence of t in a + b lies inside b. */
  lemma NotOccursConcat(a: string, b: string, t: string)
    requires |t| > 0 && t[0] !in a && !Occurs(t, b)
    ensures !Occurs(t, a + b)
  {
    var s := a + b;
    forall i | 0 <= i && i + |t| <= |s|
      ensures !OccursAt(t, s, i)
    {
      if i < |a| {
        assert s[i..i + |t|][0] == a[i] != t[0];
      } else {
        assert s[i..i + |t|] == b[i - |a|..i - |a| + |t|];
        assert !OccursAt(t, b, i - |a|);
      }
    }
  }
}
