/**
 * The few java.lang.String / java.lang.Integer behaviours the report relies on:
 * ASCII upper-casing with prefix tests, String.split on a one-character
 * separator (including its removal of trailing empty pieces), and the decimal
 * rendering of an int used when a number is concatenated into a string.
 */
module JavaStrings {
  import opened Wrappers

  // ---------------------------------------------------------------- case

  function UpperChar(c: char): char {
    if 'a' <= c <= 'z' then (c as int - 32) as char else c
  }

  /** String.toUpperCase, for ASCII letters. */
  function ToUpper(s: string): (r: string)
    ensures |r| == |s|
    ensures forall i :: 0 <= i < |r| ==> !('a' <= r[i] <= 'z')
    ensures forall i :: 0 <= i < |s| && !('a' <= s[i] <= 'z') ==> r[i] == s[i]
    ensures forall i :: 0 <= i < |s| && 'a' <= s[i] <= 'z' ==> r[i] as int == s[i] as int - 32
  {
    seq(|s|, i requires 0 <= i < |s| => UpperChar(s[i]))
  }

  /** String.startsWith: s is prefix followed by anything. */
  predicate StartsWith(s: string, prefix: string)
    ensures StartsWith(s, prefix) <==> exists rest :: s == prefix + rest
  {
    if |prefix| <= |s| && s[..|prefix|] == prefix then
      assert s == prefix + s[|prefix|..];
      true
    else
      false
  }

  /** Upper-casing works character by character, so it commutes with taking a prefix. */
  lemma ToUpperPrefix(s: string, n: nat)
    requires n <= |s|
    ensures ToUpper(s)[..n] == ToUpper(s[..n])
  {
  }

  /** A string without lower-case letters is its own upper-case form. */
  lemma ToUpperKeepsUpper(s: string)
    requires forall i :: 0 <= i < |s| ==> !('a' <= s[i] <= 'z')
    ensures ToUpper(s) == s
  {
  }

  // ---------------------------------------------------------------- split

  /** Position of the first occurrence of c in s. */
  function FirstIndex(s: string, c: char): (i: nat)
    requires c in s
    ensures i < |s| && s[i] == c && c !in s[..i]
  {
    if s[0] == c then 0
    else
      assert c in s[1..] by { var k :| 0 <= k < |s| && s[k] == c; assert s[1..][k - 1] == c; }
      var j := FirstIndex(s[1..], c);
      assert s[..j + 1] == [s[0]] + s[1..][..j];
      j + 1
  }

  /** Every maximal sep-free piece of s, in order, empty pieces included. */
  function Pieces(s: string, sep: char): (ps: seq<string>)
    ensures |ps| >= 1
    decreases |s|
  {
    if sep !in s then [s]
    else
      var i := FirstIndex(s, sep);
      [s[..i]] + Pieces(s[i + 1..], sep)
  }

  /** Pieces glued back together with the separator. */
  function Join(ps: seq<string>, sep: char): string
    requires |ps| >= 1
    decreases |ps|
  {
    if |ps| == 1 then ps[0] else ps[0] + [sep] + Join(ps[1..], sep)
  }

  /** Splitting loses nothing: the pieces are sep-free and joining them gives back s. */
  lemma {:induction false} PiecesJoin(s: string, sep: char)
    ensures Join(Pieces(s, sep), sep) == s
    ensures forall k :: 0 <= k < |Pieces(s, sep)| ==> sep !in Pieces(s, sep)[k]
    decreases |s|
  {
    if sep in s {
      var i := FirstIndex(s, sep);
      var rest := s[i + 1..];
      PiecesJoin(rest, sep);
      var ps := Pieces(s, sep);
      assert ps == [s[..i]] + Pieces(rest, sep);
      assert ps[1..] == Pieces(rest, sep);
      assert s == s[..i] + [sep] + rest;
      forall k | 0 <= k < |ps| ensures sep !in ps[k] {
        if k > 0 { assert ps[k] == Pieces(rest, sep)[k - 1]; }
      }
    }
  }

  /** ps without its trailing empty strings. */
  function DropTrailingEmpty(ps: seq<string>): (r: seq<string>)
    ensures |r| <= |ps|
  {
    if ps == [] then []
    else
      var d := DropTrailingEmpty(ps[1..]);
      if ps[0] == [] && d == [] then [] else [ps[0]] + d
  }

  /** The result is the longest prefix of ps that does not end with an empty string. */
  lemma {:induction false} DropTrailingEmptyShape(ps: seq<string>)
    ensures var r := DropTrailingEmpty(ps);
      && r == ps[..|r|]
      && (r == [] || r[|r| - 1] != [])
      && (forall k :: |r| <= k < |ps| ==> ps[k] == [])
  {
    if ps != [] {
      DropTrailingEmptyShape(ps[1..]);
      var d := DropTrailingEmpty(ps[1..]);
      var r := DropTrailingEmpty(ps);
      if r == [] {
        forall k | 0 <= k < |ps| ensures ps[k] == [] {
          if k > 0 { assert ps[k] == ps[1..][k - 1]; }
        }
      } else {
        assert r == [ps[0]] + d;
        assert r == ps[..|r|] by {
          assert ps == [ps[0]] + ps[1..];
        }
        forall k | |r| <= k < |ps| ensures ps[k] == [] {
          assert ps[k] == ps[1..][k - 1];
        }
      }
    }
  }

  /**
   * String.split with a one-character, non-special regular expression and
   * limit 0: when the separator does not occur the whole string is the only
   * piece (even when it is empty); otherwise trailing empty pieces are removed.
   */
  function Split(s: string, sep: char): (r: seq<string>)
    ensures forall k :: 0 <= k < |r| ==> sep !in r[k]
    ensures sep in s && r != [] ==> r[|r| - 1] != []
  {
    if sep !in s then [s]
    else
      PiecesJoin(s, sep);
      DropTrailingEmptyShape(Pieces(s, sep));
      DropTrailingEmpty(Pieces(s, sep))
  }

  lemma DropTrailingEmptyCons(x: string, ps: seq<string>)
    ensures DropTrailingEmpty([x] + ps) ==
      if x == [] && DropTrailingEmpty(ps) == [] then [] else [x] + DropTrailingEmpty(ps)
  {
    assert ([x] + ps)[1..] == ps;
  }

  /** Splitting leaves nothing but empty pieces exactly when the string is all separators. */
  lemma {:induction false} OnlyEmptyPieces(s: string, sep: char)
    ensures DropTrailingEmpty(Pieces(s, sep)) == [] <==> forall k :: 0 <= k < |s| ==> s[k] == sep
    decreases |s|
  {
    if sep in s {
      var i := FirstIndex(s, sep);
      var rest := s[i + 1..];
      assert Pieces(s, sep) == [s[..i]] + Pieces(rest, sep);
      DropTrailingEmptyCons(s[..i], Pieces(rest, sep));
      OnlyEmptyPieces(rest, sep);
      if i == 0 {
        assert (forall k :: 0 <= k < |s| ==> s[k] == sep) <==> (forall k :: 0 <= k < |rest| ==> rest[k] == sep) by {
          forall k | 1 <= k < |s| ensures s[k] == rest[k - 1] { }
        }
      } else {
        assert s[0] != sep by { assert s[..i][0] == s[0]; }
      }
    } else if s != [] {
      assert s[0] != sep;
      assert Pieces(s, sep) == [s];
    }
  }

  lemma PiecesAtFirst(s: string, sep: char)
    requires sep in s
    ensures Pieces(s, sep) == [s[..FirstIndex(s, sep)]] + Pieces(s[FirstIndex(s, sep) + 1..], sep)
  {
  }

  /** Splitting a text that contains sep: the piece before the first sep, then the split pieces after it. */
  lemma SplitAtSeparator(s: string, sep: char)
    requires sep in s
    ensures var i := FirstIndex(s, sep);
      var rest := DropTrailingEmpty(Pieces(s[i + 1..], sep));
      Split(s, sep) == if s[..i] == [] && rest == [] then [] else [s[..i]] + rest
  {
    var i := FirstIndex(s, sep);
    PiecesAtFirst(s, sep);
    DropTrailingEmptyCons(s[..i], Pieces(s[i + 1..], sep));
  }

  /** r is a non-empty run free of sep followed by nothing but sep. */
  ghost predicate RunThenSeparators(r: string, sep: char) {
    exists j :: 0 < j <= |r| && sep !in r[..j] && forall k :: j <= k < |r| ==> r[k] == sep
  }

  /**
   * Splitting leaves exactly one non-empty piece after trailing empty pieces
   * are dropped exactly when the string is a non-empty run free of the
   * separator followed by nothing but separators.
   */
  lemma OneNonEmptyPiece(r: string, sep: char)
    ensures (|DropTrailingEmpty(Pieces(r, sep))| == 1 && DropTrailingEmpty(Pieces(r, sep))[0] != []) <==>
      RunThenSeparators(r, sep)
  {
    if sep !in r {
      if r != [] {
        assert r[..|r|] == r;
      }
    } else {
      var f := FirstIndex(r, sep);
      var rest := r[f + 1..];
      DropTrailingEmptyCons(r[..f], Pieces(rest, sep));
      OnlyEmptyPieces(rest, sep);
      if f > 0 && forall k :: 0 <= k < |rest| ==> rest[k] == sep {
        forall k | f <= k < |r| ensures r[k] == sep {
          if k > f { assert r[k] == rest[k - f - 1]; }
        }
      }
      if RunThenSeparators(r, sep) {
        var j :| 0 < j <= |r| && sep !in r[..j] && forall k :: j <= k < |r| ==> r[k] == sep;
        forall k | 0 <= k < j ensures r[k] != sep {
          assert r[..j][k] == r[k];
        }
        assert j <= f;
        forall k | 0 <= k < |rest| ensures rest[k] == sep {
          assert rest[k] == r[f + 1 + k];
        }
      }
    }
  }

  // ---------------------------------------------------------------- decimal

  function DigitChar(d: nat): char
    requires d < 10
  {
    ('0' as int + d) as char
  }

  predicate IsDigit(c: char) {
    '0' <= c <= '9'
  }

  function DigitValue(c: char): nat
    requires IsDigit(c)
  {
    c as int - '0' as int
  }

  /** Decimal digits of n, most significant first, without leading zeros. */
  function NatDigits(n: nat): (s: string)
    ensures |s| >= 1 && (|s| > 1 ==> s[0] != '0')
    ensures forall k :: 0 <= k < |s| ==> IsDigit(s[k])
    decreases n
  {
    if n < 10 then [DigitChar(n)] else NatDigits(n / 10) + [DigitChar(n % 10)]
  }

  /** Java's rendering of an int inside a string concatenation. */
  function IntToString(n: int): (r: string)
    ensures |r| >= 1 && (r[0] == '-' <==> n < 0)
    ensures forall k :: (if n < 0 then 1 else 0) <= k < |r| ==> IsDigit(r[k])
  {
    if n < 0 then ['-'] + NatDigits(-n) else NatDigits(n)
  }

  /** The value of a non-empty string of decimal digits. */
  function DigitsValue(s: string): nat
    requires forall k :: 0 <= k < |s| ==> IsDigit(s[k])
    decreases |s|
  {
    if s == [] then 0 else DigitsValue(s[..|s| - 1]) * 10 + DigitValue(s[|s| - 1])
  }

  /** Reads an optionally negative decimal integer; None when s is not of that form. */
  function ParseDecimal(s: string): Option<int> {
    if |s| >= 2 && s[0] == '-' && (forall k :: 1 <= k < |s| ==> IsDigit(s[k])) then
      Some(0 - DigitsValue(s[1..]) as int)
    else if |s| >= 1 && (forall k :: 0 <= k < |s| ==> IsDigit(s[k])) then
      Some(DigitsValue(s))
    else
      None
  }

  lemma {:induction false} NatDigitsValue(n: nat)
    ensures DigitsValue(NatDigits(n)) == n
    decreases n
  {
    if n >= 10 {
      NatDigitsValue(n / 10);
      var s := NatDigits(n);
      assert s[..|s| - 1] == NatDigits(n / 10);
    }
  }

  /** The decimal rendering of an int reads back as that int. */
  lemma IntToStringRoundTrip(n: int)
    ensures ParseDecimal(IntToString(n)) == Some(n)
  {
    if n < 0 {
      NatDigitsValue(-n);
      assert IntToString(n)[1..] == NatDigits(-n);
    } else {
      NatDigitsValue(n);
    }
  }
}
