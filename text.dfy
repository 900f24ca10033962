/** The string operations the booking core relies on: `Long.toString` (lock
    keys and error messages), `String.trim` and `toLowerCase` (request
    normalisation), and the SQL string operators of the repository queries
    (`LOWER`, `LIKE`, `ORDER BY` on text). Characters are UTF-16 code units. */
module Text {

  /** The character of the decimal digit `d`. */
  function DigitChar(d: nat): (c: char)
    requires d < 10
    ensures '0' <= c <= '9'
    ensures c as int - '0' as int == d
  {
    ('0' as int + d) as char
  }

  /** `Long.toString` of a non-negative value: its decimal digits, most
      significant first, without leading zeros. */
  function NatToDecimal(n: nat): (s: string)
    ensures 1 <= |s|
    ensures forall i :: 0 <= i < |s| ==> '0' <= s[i] <= '9'
    ensures |s| == 1 <==> n < 10
    decreases n
  {
    if n < 10 then [DigitChar(n)] else NatToDecimal(n / 10) + [DigitChar(n % 10)]
  }

  /** Different numbers have different decimal renderings. */
  lemma {:induction false} NatToDecimalInjective(a: nat, b: nat)
    requires NatToDecimal(a) == NatToDecimal(b)
    ensures a == b
    decreases a
  {
    var s := NatToDecimal(a);
    if a < 10 {
      assert b < 10;
      assert DigitChar(a) == s[0] == DigitChar(b);
    } else {
      assert b >= 10;
      assert s == NatToDecimal(a / 10) + [DigitChar(a % 10)];
      assert s == NatToDecimal(b / 10) + [DigitChar(b % 10)];
      assert DigitChar(a % 10) == s[|s| - 1] == DigitChar(b % 10);
      assert NatToDecimal(a / 10) == s[..|s| - 1] == NatToDecimal(b / 10);
      NatToDecimalInjective(a / 10, b / 10);
    }
  }

  /** `Long.toString`: a minus sign in front of the digits of a negative value. */
  function IntToDecimal(n: int): (s: string)
    ensures 1 <= |s|
    ensures s[0] == '-' <==> n < 0
  {
    if n < 0 then "-" + NatToDecimal(-n) else NatToDecimal(n)
  }

  /** Different numbers have different `Long.toString` renderings. */
  lemma IntToDecimalInjective(a: int, b: int)
    requires IntToDecimal(a) == IntToDecimal(b)
    ensures a == b
  {
    var s := IntToDecimal(a);
    if a < 0 {
      assert b < 0;
      assert s[1..] == NatToDecimal(-a) && s[1..] == NatToDecimal(-b);
      NatToDecimalInjective(-a, -b);
    } else {
      NatToDecimalInjective(a, b);
    }
  }

  /** Two strings with a common prefix are equal exactly when the rests are. */
  lemma PrefixCancels(p: string, x: string, y: string)
    requires p + x == p + y
    ensures x == y
  {
    assert x == (p + x)[|p|..];
    assert y == (p + y)[|p|..];
  }

  /** `String.trim` removes every leading and trailing code unit up to U+0020. */
  predicate IsTrimmable(c: char) {
    c <= ' '
  }

  /** How many leading code units `String.trim` removes. */
  function LeadingTrimmable(s: string): (k: nat)
    ensures k <= |s|
    ensures forall i :: 0 <= i < k ==> IsTrimmable(s[i])
    ensures k < |s| ==> !IsTrimmable(s[k])
  {
    if s != [] && IsTrimmable(s[0]) then 1 + LeadingTrimmable(s[1..]) else 0
  }

  /** How many trailing code units `String.trim` removes. */
  function TrailingTrimmable(s: string): (k: nat)
    ensures k <= |s|
    ensures forall i :: |s| - k <= i < |s| ==> IsTrimmable(s[i])
    ensures k < |s| ==> !IsTrimmable(s[|s| - 1 - k])
  {
    if s != [] && IsTrimmable(s[|s| - 1]) then 1 + TrailingTrimmable(s[..|s| - 1]) else 0
  }

  /** `String.trim`. */
  function Trim(s: string): (t: string)
    ensures t == [] || (!IsTrimmable(t[0]) && !IsTrimmable(t[|t| - 1]))
    ensures t == [] <==> forall i :: 0 <= i < |s| ==> IsTrimmable(s[i])
    ensures |t| <= |s|
    ensures exists a, b :: 0 <= a <= b <= |s| && t == s[a..b]
                           && (forall i :: 0 <= i < a ==> IsTrimmable(s[i]))
                           && (forall i :: b <= i < |s| ==> IsTrimmable(s[i]))
  {
    var start := LeadingTrimmable(s);
    var rest := s[start..];
    var t := rest[..|rest| - TrailingTrimmable(rest)];
    assert t != [] ==> t[0] == s[start];
    assert t == s[start..start + |t|];
    assert forall i :: start + |t| <= i < |s| ==> s[i] == rest[i - start];
    t
  }

  /** A string that starts and ends with a non-trimmable code unit is its own trim. */
  lemma TrimOfTrimmed(t: string)
    requires t == [] || (!IsTrimmable(t[0]) && !IsTrimmable(t[|t| - 1]))
    ensures Trim(t) == t
  {
    assert LeadingTrimmable(t) == 0;
    assert TrailingTrimmable(t) == 0;
  }

  /** `Character.toLowerCase` on the ASCII range; other code units are kept. */
  function LowerChar(c: char): (d: char)
    ensures 'A' <= c <= 'Z' ==> 'a' <= d <= 'z' && d as int - c as int == 32
    ensures !('A' <= c <= 'Z') ==> d == c
  {
    if 'A' <= c <= 'Z' then (c as int + 32) as char else c
  }

  /** `String.toLowerCase` (and SQL `LOWER`), code unit by code unit. */
  function Lower(s: string): (t: string)
    ensures |t| == |s|
    ensures forall i :: 0 <= i < |s| ==> t[i] == LowerChar(s[i])
  {
    if s == [] then [] else [LowerChar(s[0])] + Lower(s[1..])
  }

  /** Lower-casing twice is lower-casing once. */
  lemma LowerIdempotent(s: string)
    ensures Lower(Lower(s)) == Lower(s)
  {
    var once := Lower(s);
    assert forall i :: 0 <= i < |s| ==> LowerChar(once[i]) == once[i];
  }

  /** Lower-casing distributes over concatenation. */
  lemma LowerConcat(a: string, b: string)
    ensures Lower(a + b) == Lower(a) + Lower(b)
  {
    var ab := a + b;
    assert forall i :: 0 <= i < |ab| ==> Lower(ab)[i] == (Lower(a) + Lower(b))[i];
  }

  /** Lower-casing neither creates nor removes trimmable code units. */
  lemma LowerKeepsTrimmable(c: char)
    ensures IsTrimmable(LowerChar(c)) <==> IsTrimmable(c)
  {
  }

  /** Code-unit lexicographic order: what `ORDER BY` on a text column gives
      under a binary collation. */
  predicate LexLe(a: string, b: string) {
    a == [] || (b != [] && (a[0] < b[0] || (a[0] == b[0] && LexLe(a[1..], b[1..]))))
  }

  lemma {:induction false} LexLeTotal(a: string, b: string)
    ensures LexLe(a, b) || LexLe(b, a)
  {
    if a != [] && b != [] && a[0] == b[0] {
      LexLeTotal(a[1..], b[1..]);
    }
  }

  lemma {:induction false} LexLeTransitive(a: string, b: string, c: string)
    requires LexLe(a, b) && LexLe(b, c)
    ensures LexLe(a, c)
  {
    if a != [] && b != [] && c != [] && a[0] == b[0] == c[0] {
      LexLeTransitive(a[1..], b[1..], c[1..]);
    }
  }

  /** SQL `LIKE` with no escape character: '%' matches any run of code units,
      '_' matches exactly one, every other pattern unit matches itself. */
  predicate Like(s: string, p: string)
    decreases |s| + |p|
  {
    if p == [] then s == []
    else if p[0] == '%' then Like(s, p[1..]) || (s != [] && Like(s[1..], p))
    else s != [] && (p[0] == '_' || p[0] == s[0]) && Like(s[1..], p[1..])
  }

  predicate IsPrefix(n: string, s: string) {
    |n| <= |s| && s[..|n|] == n
  }

  /** `String.contains`: `n` occurs in `s` at some position. */
  predicate Contains(s: string, n: string)
    decreases |s|
  {
    IsPrefix(n, s) || (s != [] && Contains(s[1..], n))
  }

  predicate NoWildcards(n: string) {
    forall i :: 0 <= i < |n| ==> n[i] != '%' && n[i] != '_'
  }

  /** The pattern "%" matches every string. */
  lemma {:induction false} LikePercentMatchesAll(s: string)
    ensures Like(s, "%")
    decreases |s|
  {
    assert "%"[1..] == [];
    if s != [] {
      LikePercentMatchesAll(s[1..]);
    }
  }

  /** A wildcard-free text followed by "%" matches exactly the strings it prefixes. */
  lemma {:induction false} LikePrefixPattern(s: string, n: string)
    requires NoWildcards(n)
    ensures Like(s, n + "%") <==> IsPrefix(n, s)
    decreases |n|
  {
    if n == [] {
      assert n + "%" == "%";
      LikePercentMatchesAll(s);
    } else {
      assert (n + "%")[1..] == n[1..] + "%";
      if s != [] {
        LikePrefixPattern(s[1..], n[1..]);
        assert IsPrefix(n, s) <==> n[0] == s[0] && IsPrefix(n[1..], s[1..]) by {
          if |n| <= |s| {
            assert s[..|n|] == [s[0]] + s[1..][..|n| - 1];
            assert n == [n[0]] + n[1..];
          }
        }
      }
    }
  }

  /** For a wildcard-free text, `LIKE '%' || n || '%'` is substring search. */
  lemma {:induction false} LikeInfixIsContains(s: string, n: string)
    requires NoWildcards(n)
    ensures Like(s, "%" + n + "%") <==> Contains(s, n)
    decreases |s|
  {
    var p := "%" + n + "%";
    assert p[1..] == n + "%";
    LikePrefixPattern(s, n);
    if s != [] {
      LikeInfixIsContains(s[1..], n);
    }
  }

  /** '_' in a searched title is a wildcard: "ab" matches the search for "_"
      although it does not contain that character. */
  lemma UnderscoreMatchesAnyCharacter()
    ensures Like("ab", "%" + "_" + "%") && !Contains("ab", "_")
  {
    var p := "%" + "_" + "%";
    assert p == "%_%";
    assert p[1..] == "_%" && p[1..][1..] == "%";
    LikePercentMatchesAll("b");
    assert Like("b", "%");
    assert Like("ab", "_%");
    assert "ab"[1..] == "b" && "b"[1..] == [];
    assert !IsPrefix("_", "ab") && !IsPrefix("_", "b") && !IsPrefix("_", []);
  }

  /** Lower-casing keeps a text free of wildcards and preserves them in patterns. */
  lemma LowerNoWildcards(n: string)
    requires NoWildcards(n)
    ensures NoWildcards(Lower(n))
  {
  }
}
