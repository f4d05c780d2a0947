/**
 * The few Python string operations the extraction pipeline relies on,
 * restricted to what the pipeline needs: `in` on strings, `str.split(sep)`
 * with a one-character separator, `sep.join(parts)`, `str.strip()`,
 * `str.splitlines()` (on '\n' only), decimal formatting of a natural number,
 * and ASCII `str.upper()` / `str.lower()`.
 */
module Text {

  /** Python's `str.isspace()` on the ASCII range: \t \n \v \f \r, \x1c-\x1f and ' '. */
  predicate IsSpace(c: char)
  {
    c == ' ' || ('\t' <= c <= '\r') || ('\U{1C}' <= c <= '\U{1F}')
  }

  predicate IsAsciiLetter(c: char)
  {
    ('A' <= c <= 'Z') || ('a' <= c <= 'z')
  }

  predicate IsAsciiDigit(c: char)
  {
    '0' <= c <= '9'
  }

  /** ASCII `str.upper()` of one character: 'a'..'z' move to 'A'..'Z', everything else is kept. */
  function Upper(c: char): (u: char)
    ensures 'a' <= c <= 'z' ==> u as int == c as int - 32
    ensures !('a' <= c <= 'z') ==> u == c
    ensures IsAsciiLetter(c) <==> IsAsciiLetter(u)
    ensures IsAsciiLetter(c) ==> 'A' <= u <= 'Z'
  {
    if 'a' <= c <= 'z' then (c as int - 32) as char else c
  }

  /** ASCII `str.lower()` of one character: 'A'..'Z' move to 'a'..'z', everything else is kept. */
  function Lower(c: char): (l: char)
    ensures 'A' <= c <= 'Z' ==> l as int == c as int + 32
    ensures !('A' <= c <= 'Z') ==> l == c
    ensures IsAsciiLetter(c) <==> IsAsciiLetter(l)
    ensures IsAsciiLetter(c) ==> 'a' <= l <= 'z'
  {
    if 'A' <= c <= 'Z' then (c as int + 32) as char else c
  }

  /** Upper- and lower-casing a letter are inverse to each other, and each forgets the letter's case. */
  lemma CaseRoundTrip(c: char)
    requires IsAsciiLetter(c)
    ensures Lower(Upper(c)) == Lower(c) && Upper(Lower(c)) == Upper(c)
    ensures Upper(c) != Lower(c)
  {
  }

  /** ASCII `str.lower()`: every character lower-cased, no upper-case letter left. */
  function LowerAscii(s: string): (r: string)
    ensures |r| == |s|
    ensures forall k :: 0 <= k < |s| ==> r[k] == Lower(s[k])
    ensures forall k :: 0 <= k < |r| ==> !('A' <= r[k] <= 'Z')
  {
    seq(|s|, i requires 0 <= i < |s| => Lower(s[i]))
  }

  /** `sub in s`: a case-sensitive substring test. */
  predicate Contains(s: string, sub: string): (b: bool)
    ensures sub == [] ==> b
    ensures b ==> |sub| <= |s|
  {
    assert sub == [] ==> OccursAt(s, sub, 0);
    exists i | 0 <= i <= |s| :: OccursAt(s, sub, i)
  }

  /** `sub in s` holds exactly when `s` is some text, then `sub`, then some more text. */
  lemma ContainsIffSurrounded(s: string, sub: string)
    ensures Contains(s, sub) <==> exists pre, post :: s == pre + sub + post
  {
    if Contains(s, sub) {
      var i :| 0 <= i <= |s| && OccursAt(s, sub, i);
      assert s == s[..i] + sub + s[i + |sub|..];
    }
    if pre, post :| s == pre + sub + post {
      assert s[|pre|..|pre| + |sub|] == sub;
      assert OccursAt(s, sub, |pre|);
    }
  }

  /** For a one-character `sub`, `sub in s` is membership of that character. */
  lemma ContainsChar(s: string, c: char)
    ensures Contains(s, [c]) <==> c in s
  {
    if c in s {
      var i :| 0 <= i < |s| && s[i] == c;
      assert s[i..i + 1] == [c];
      assert OccursAt(s, [c], i);
    }
    if Contains(s, [c]) {
      var i :| 0 <= i <= |s| && OccursAt(s, [c], i);
      assert s[i] == s[i..i + 1][0] == c;
    }
  }

  /** `sub` occurs in `s` starting at index `i`. */
  predicate OccursAt(s: string, sub: string, i: int)
  {
    0 <= i && i + |sub| <= |s| && s[i..i + |sub|] == sub
  }

  /** `sep.join(parts)` */
  function Join(sep: string, parts: seq<string>): (r: string)
    ensures |parts| == 0 ==> r == ""
    ensures |parts| == 1 ==> r == parts[0]
  {
    if |parts| == 0 then ""
    else if |parts| == 1 then parts[0]
    else parts[0] + sep + Join(sep, parts[1..])
  }

  /** The joined string starts with the first part and ends with the last one, and the
      separator follows the first part when there are more. */
  lemma {:induction false} JoinEnds(sep: string, parts: seq<string>)
    requires |parts| >= 1
    ensures parts[0] <= Join(sep, parts)
    ensures |parts| >= 2 ==> parts[0] + sep <= Join(sep, parts)
    ensures |parts[|parts| - 1]| <= |Join(sep, parts)|
    ensures Join(sep, parts)[|Join(sep, parts)| - |parts[|parts| - 1]|..] == parts[|parts| - 1]
  {
    if |parts| >= 2 {
      var rest := Join(sep, parts[1..]);
      JoinEnds(sep, parts[1..]);
      assert parts[1..][|parts[1..]| - 1] == parts[|parts| - 1];
      assert Join(sep, parts) == (parts[0] + sep) + rest;
    }
  }

  /** `s.split(c)` for a one-character separator `c`. */
  function Split(s: string, c: char): (parts: seq<string>)
    ensures |parts| >= 1
    ensures forall k :: 0 <= k < |parts| ==> c !in parts[k]
    ensures forall k, x :: 0 <= k < |parts| && x in parts[k] ==> x in s
    ensures |parts| > 1 <==> c in s
    ensures Join([c], parts) == s
  {
    if s == [] then [[]]
    else
      var rest := Split(s[1..], c);
      assert forall x :: x in s[1..] ==> x in s;
      if s[0] == c then [[]] + rest
      else
        assert Join([c], [[s[0]] + rest[0]] + rest[1..]) == s by {
          if |rest| > 1 {
            assert Join([c], rest) == rest[0] + [c] + Join([c], rest[1..]);
          }
        }
        [[s[0]] + rest[0]] + rest[1..]
  }

  /** Splitting at the first `c` yields the text before it, then the split of the rest. */
  lemma {:induction false} SplitAtFirst(s: string, c: char, i: nat)
    requires i < |s| && s[i] == c && c !in s[..i]
    ensures Split(s, c) == [s[..i]] + Split(s[i + 1..], c)
  {
    if i > 0 {
      NotInTail(s, c, i);
      var rest := Split(s[1..], c);
      SplitAtFirst(s[1..], c, i - 1);
      assert rest[0] == s[1..i] && rest[1..] == Split(s[i + 1..], c) by {
        assert s[1..][..i - 1] == s[1..i];
        assert s[1..][i..] == s[i + 1..];
      }
      assert Split(s, c) == [[s[0]] + rest[0]] + rest[1..];
      assert [s[0]] + s[1..i] == s[..i];
    }
  }

  /** A character absent from the first `i` characters is absent from the first and from the `i - 1` after it. */
  lemma NotInTail(s: string, c: char, i: nat)
    requires 0 < i <= |s| && c !in s[..i]
    ensures s[0] != c && c !in s[1..][..i - 1]
  {
    assert s[0] == s[..i][0];
    assert s[1..][..i - 1] == s[1..i];
    forall k | 0 <= k < i - 1 ensures s[1..i][k] != c {
      assert s[1..i][k] == s[..i][k + 1];
    }
  }

  /** The first segment of `s.split(c)` runs up to the first `c`, or to the end. */
  lemma {:induction false} SplitFirstSegment(s: string, c: char, j: nat)
    requires j <= |s| && c !in s[..j] && (j == |s| || s[j] == c)
    ensures Split(s, c)[0] == s[..j]
  {
    if j < |s| {
      SplitAtFirst(s, c, j);
    } else if s != [] {
      assert s[0] == s[..j][0];
      assert s[1..][..j - 1] == s[1..];
      assert c !in s[1..] by {
        forall k | 0 <= k < j - 1 ensures s[1..][k] != c {
          assert s[1..][k] == s[..j][k + 1];
        }
      }
      SplitFirstSegment(s[1..], c, j - 1);
      assert s == [s[0]] + s[1..];
    }
  }

  /** The prefix of `s` that `lstrip()` removes. */
  function LeadingSpaces(s: string): (n: nat)
    ensures n <= |s|
    ensures forall k :: 0 <= k < n ==> IsSpace(s[k])
    ensures n < |s| ==> !IsSpace(s[n])
  {
    if s == [] || !IsSpace(s[0]) then 0 else 1 + LeadingSpaces(s[1..])
  }

  /** The suffix of `s` that `rstrip()` removes. */
  function TrailingSpaces(s: string): (n: nat)
    ensures n <= |s|
    ensures forall k :: |s| - n <= k < |s| ==> IsSpace(s[k])
    ensures n < |s| ==> !IsSpace(s[|s| - n - 1])
  {
    if s == [] || !IsSpace(s[|s| - 1]) then 0 else 1 + TrailingSpaces(s[..|s| - 1])
  }

  /** `s.strip()`: `s` without its leading and trailing whitespace. */
  function Strip(s: string): (r: string)
    ensures r == [] || (!IsSpace(r[0]) && !IsSpace(r[|r| - 1]))
    ensures exists i, j :: 0 <= i <= j <= |s| && r == s[i..j]
                           && (forall k :: 0 <= k < i ==> IsSpace(s[k]))
                           && (forall k :: j <= k < |s| ==> IsSpace(s[k]))
  {
    var i := LeadingSpaces(s);
    var t := s[i..];
    var n := TrailingSpaces(t);
    assert forall k :: |t| - n <= k < |t| ==> IsSpace(t[k]);
    s[i..|s| - n]
  }

  /** `strip()` leaves a string with no whitespace at either end alone. */
  lemma StripNoEdgeSpace(s: string)
    requires s == [] || (!IsSpace(s[0]) && !IsSpace(s[|s| - 1]))
    ensures Strip(s) == s
  {
  }

  /** `s.splitlines()` with '\n' as the only line boundary: no line for "",
      and no empty line after a final '\n'. */
  function Lines(s: string): (lines: seq<string>)
    ensures forall k :: 0 <= k < |lines| ==> '\n' !in lines[k]
    ensures s == [] ==> lines == []
    ensures s != [] && s[|s| - 1] != '\n' ==> Join("\n", lines) == s
    ensures s != [] && s[|s| - 1] == '\n' ==> Join("\n", lines) + "\n" == s
  {
    if s == [] then []
    else if s[|s| - 1] == '\n' then
      var parts := Split(s[..|s| - 1], '\n');
      assert s == s[..|s| - 1] + "\n";
      parts
    else Split(s, '\n')
  }

  function DigitChar(d: nat): (c: char)
    requires d < 10
    ensures IsAsciiDigit(c)
    ensures c as int - '0' as int == d
  {
    ('0' as int + d) as char
  }

  /** The number a string of decimal digits denotes, read left to right. */
  function DigitsValue(s: string): nat
    requires forall k :: 0 <= k < |s| ==> IsAsciiDigit(s[k])
  {
    if s == [] then 0
    else
      assert IsAsciiDigit(s[|s| - 1]);
      10 * DigitsValue(s[..|s| - 1]) + (s[|s| - 1] as int - '0' as int)
  }

  /** f"{n}": the decimal digits of `n`, without leading zeros. */
  function NatToString(n: nat): (r: string)
    ensures |r| >= 1
    ensures forall k :: 0 <= k < |r| ==> IsAsciiDigit(r[k])
    ensures DigitsValue(r) == n
    ensures r[0] == '0' ==> n == 0
  {
    if n < 10 then
      var r := [DigitChar(n)];
      assert r[..0] == [];
      r
    else
      var prefix := NatToString(n / 10);
      var r := prefix + [DigitChar(n % 10)];
      assert r[..|r| - 1] == prefix;
      r
  }

  /** Different numbers are written differently. */
  lemma NatToStringInjective(a: nat, b: nat)
    requires NatToString(a) == NatToString(b)
    ensures a == b
  {
    assert a == DigitsValue(NatToString(a)) == DigitsValue(NatToString(b)) == b;
  }
}
