/**
 * The JavaScript string operations the source relies on, with the character classes written out:
 * `toLowerCase` on ASCII letters, `trim()` and `\s`, `\w`, `startsWith`, `includes`, `split`
 * and decimal rendering of a counter.
 */
module Text {
  import opened Seqs

  /** The WhiteSpace and LineTerminator code points of ECMAScript: what `trim()` removes and `\s` matches. */
  predicate IsSpace(c: char) {
    || c == '\t' || c == '\n' || c == '\U{000B}' || c == '\U{000C}' || c == '\r' || c == ' '
    || c == '\U{00A0}' || c == '\U{1680}' || ('\U{2000}' <= c <= '\U{200A}')
    || c == '\U{2028}' || c == '\U{2029}' || c == '\U{202F}' || c == '\U{205F}'
    || c == '\U{3000}' || c == '\U{FEFF}'
  }

  /** The code points a regular-expression `.` does not match. */
  predicate IsLineTerminator(c: char) {
    c == '\n' || c == '\r' || c == '\U{2028}' || c == '\U{2029}'
  }

  predicate IsAsciiUpper(c: char) { 'A' <= c <= 'Z' }

  predicate IsAsciiLower(c: char) { 'a' <= c <= 'z' }

  predicate IsDigit(c: char) { '0' <= c <= '9' }

  /** `\w` in a regular expression without the `u` flag. */
  predicate IsWordChar(c: char) {
    IsAsciiUpper(c) || IsAsciiLower(c) || IsDigit(c) || c == '_'
  }

  predicate IsHexDigit(c: char) {
    IsDigit(c) || ('a' <= c <= 'f') || ('A' <= c <= 'F')
  }

  /** Every character of `s` satisfies `p`. */
  predicate All(s: string, p: char -> bool) {
    forall i :: 0 <= i < |s| ==> p(s[i])
  }

  /** No character of `s` satisfies `p`. */
  predicate NoneOf(s: string, p: char -> bool) {
    forall i :: 0 <= i < |s| ==> !p(s[i])
  }

  /** `toLowerCase` on one character, ASCII letters only. */
  function LowerChar(c: char): (r: char)
    ensures IsAsciiUpper(c) ==> IsAsciiLower(r) && r as int == c as int + 32
    ensures !IsAsciiUpper(c) ==> r == c
    ensures !IsAsciiUpper(r)
  {
    if IsAsciiUpper(c) then (c as int + 32) as char else c
  }

  /** `toLowerCase` on ASCII letters: same length, no upper-case ASCII letter left, other characters kept. */
  function Lower(s: string): (r: string)
    ensures |r| == |s|
    ensures forall i :: 0 <= i < |s| ==> !IsAsciiUpper(r[i])
    ensures forall i :: 0 <= i < |s| && !IsAsciiUpper(s[i]) ==> r[i] == s[i]
    ensures forall i :: 0 <= i < |s| && IsAsciiUpper(s[i]) ==> r[i] as int == s[i] as int + 32
  {
    seq(|s|, i requires 0 <= i < |s| => LowerChar(s[i]))
  }

  /** Lower-casing a string with no upper-case ASCII letter changes nothing; so lower-casing is idempotent. */
  lemma LowerIdentity(s: string)
    requires forall i :: 0 <= i < |s| ==> !IsAsciiUpper(s[i])
    ensures Lower(s) == s
  {
  }

  /** The number of leading white-space characters. */
  function LeadingSpaces(s: string): (k: nat)
    ensures k <= |s|
    ensures forall i :: 0 <= i < k ==> IsSpace(s[i])
    ensures k < |s| ==> !IsSpace(s[k])
    decreases |s|
  {
    if s == [] || !IsSpace(s[0]) then 0 else 1 + LeadingSpaces(s[1..])
  }

  /** The index where the trailing run of white space begins. */
  function TrailingStart(s: string): (j: nat)
    ensures j <= |s|
    ensures forall i :: j <= i < |s| ==> IsSpace(s[i])
    ensures j > 0 ==> !IsSpace(s[j - 1])
    decreases |s|
  {
    if s == [] || !IsSpace(s[|s| - 1]) then |s| else TrailingStart(s[..|s| - 1])
  }

  /** Neither the first nor the last character is white space. */
  predicate Trimmed(s: string) {
    s == [] || (!IsSpace(s[0]) && !IsSpace(s[|s| - 1]))
  }

  /** `trimStart()`. */
  function TrimStart(s: string): (r: string)
    ensures r == [] || !IsSpace(r[0])
    ensures |r| <= |s| && r == s[|s| - |r|..]
  {
    s[LeadingSpaces(s)..]
  }

  /** `trim()`: drop white space at both ends. */
  function Trim(s: string): (r: string)
    ensures Trimmed(r)
    ensures |r| <= |s|
    ensures Trimmed(s) ==> r == s
    ensures forall k :: 0 <= k < |r| ==> r[k] in s
  {
    var t := TrimStart(s);
    var r := t[..TrailingStart(t)];
    assert forall k :: 0 <= k < |r| ==> r[k] == s[|s| - |t| + k];
    r
  }

  /** What `trim()` removes is white space: the result is the middle of `s` between two all-space ends. */
  lemma TrimIsInfix(s: string)
    ensures exists i, j ::
      && 0 <= i <= j <= |s| && Trim(s) == s[i..j]
      && (forall k :: 0 <= k < i ==> IsSpace(s[k]))
      && (forall k :: j <= k < |s| ==> IsSpace(s[k]))
  {
    var i := LeadingSpaces(s);
    var t := s[i..];
    assert TrimStart(s) == t;
    var n := TrailingStart(t);
    var j := i + n;
    assert Trim(s) == t[..n];
    assert t[..n] == s[i..j];
    forall k | j <= k < |s| ensures IsSpace(s[k]) {
      assert s[k] == t[k - i];
    }
    assert forall k :: 0 <= k < i ==> IsSpace(s[k]);
  }

  /** Trimming twice is trimming once. */
  lemma TrimIdempotent(s: string)
    ensures Trim(Trim(s)) == Trim(s)
  {
  }

  /**
   * The `lowercase` and `trim` setters of a schema path, as on an article's `slug` and tags, a
   * category's `slug` and a user's `email`: lower-cased first, then trimmed.
   */
  function LowerTrim(s: string): (r: string)
    ensures Trimmed(r)
    ensures forall i :: 0 <= i < |r| ==> !IsAsciiUpper(r[i])
  {
    var l := Lower(s);
    var r := Trim(l);
    forall i | 0 <= i < |r| ensures !IsAsciiUpper(r[i]) {
      var j :| 0 <= j < |l| && l[j] == r[i];
    }
    r
  }

  /** `lowercase` plus `trim` changes nothing the second time. */
  lemma LowerTrimIdempotent(s: string)
    ensures LowerTrim(LowerTrim(s)) == LowerTrim(s)
  {
    LowerIdentity(LowerTrim(s));
  }

  /** Lower-casing a value before the setters run makes no difference. */
  lemma LowerTrimOfLowered(s: string)
    ensures LowerTrim(Lower(s)) == LowerTrim(s)
  {
    LowerIdentity(Lower(s));
  }

  /** White space before text that starts with a non-space is exactly the leading run. */
  lemma {:induction false} LeadingSpacesPadded(a: string, x: string)
    requires All(a, IsSpace)
    requires x == [] || !IsSpace(x[0])
    ensures LeadingSpaces(a + x) == |a|
    decreases |a|
  {
    if a != [] {
      LeadingSpacesPadded(a[1..], x);
      assert (a + x)[1..] == a[1..] + x;
    }
  }

  /** White space after text that ends with a non-space is exactly the trailing run. */
  lemma {:induction false} TrailingStartPadded(x: string, b: string)
    requires All(b, IsSpace)
    requires x == [] || !IsSpace(x[|x| - 1])
    ensures TrailingStart(x + b) == |x|
    decreases |b|
  {
    if b != [] {
      TrailingStartPadded(x, b[..|b| - 1]);
      assert (x + b)[..|x + b| - 1] == x + b[..|b| - 1];
    } else {
      assert x + b == x;
    }
  }

  /** `trim()` undoes padding: white space around a trimmed text is removed and nothing else. */
  lemma TrimPadded(a: string, x: string, b: string)
    requires All(a, IsSpace) && All(b, IsSpace)
    requires x != [] && Trimmed(x)
    ensures Trim(a + x + b) == x
  {
    LeadingSpacesPadded(a, x + b);
    assert (a + x + b)[|a|..] == x + b;
    TrailingStartPadded(x, b);
    assert (x + b)[..|x|] == x;
  }

  /** `s.startsWith(p)`. */
  predicate StartsWith(s: string, p: string) {
    |p| <= |s| && s[..|p|] == p
  }

  /** `q` occurs in `s` starting at index `i`. */
  predicate OccursAt(s: string, q: string, i: nat) {
    i + |q| <= |s| && s[i..i + |q|] == q
  }

  /** `s.includes(q)`. */
  predicate Contains(s: string, q: string) {
    exists i: nat | i <= |s| :: OccursAt(s, q, i)
  }

  /** Every string includes the empty string. */
  lemma ContainsEmpty(s: string)
    ensures Contains(s, "")
  {
    assert OccursAt(s, "", 0);
  }

  /** Two prefixes of one string are prefixes of each other. */
  lemma PrefixesComparable(s: string, p: string, q: string)
    requires StartsWith(s, p) && StartsWith(s, q) && |p| <= |q|
    ensures StartsWith(q, p)
  {
    assert q[..|p|] == s[..|q|][..|p|] == s[..|p|];
  }

  /**
   * `s.split(sep)` where `isSep` says which characters separate: the pieces between separators, in
   * order, including empty pieces; the empty string splits into one empty piece.
   */
  function Split(s: string, isSep: char -> bool): (r: seq<string>)
    ensures |r| >= 1
    ensures forall k :: 0 <= k < |r| ==> NoneOf(r[k], isSep)
    decreases |s|
  {
    if s == [] then [""]
    else
      var rest := Split(s[1..], isSep);
      if isSep(s[0]) then [""] + rest else [[s[0]] + rest[0]] + rest[1..]
  }

  /** Concatenate pieces with nothing in between. */
  function Concat(pieces: seq<string>): string
    decreases |pieces|
  {
    if pieces == [] then "" else pieces[0] + Concat(pieces[1..])
  }

  /** `s` with every separator removed. */
  function DropSeparators(s: string, isSep: char -> bool): string {
    Filter(c => !isSep(c), s)
  }

  /** Splitting loses exactly the separators: the pieces put back together are `s` without them. */
  lemma {:induction false} SplitConcat(s: string, isSep: char -> bool)
    ensures Concat(Split(s, isSep)) == DropSeparators(s, isSep)
    decreases |s|
  {
    if s != [] {
      SplitConcat(s[1..], isSep);
      var rest := Split(s[1..], isSep);
      if !isSep(s[0]) {
        assert rest == [rest[0]] + rest[1..];
        assert Concat(rest) == rest[0] + Concat(rest[1..]);
        assert Concat([[s[0]] + rest[0]] + rest[1..]) == [s[0]] + rest[0] + Concat(rest[1..]);
      }
    }
  }

  /** A string without separators is one piece. */
  lemma {:induction false} SplitNoSeparator(s: string, isSep: char -> bool)
    requires NoneOf(s, isSep)
    ensures Split(s, isSep) == [s]
    decreases |s|
  {
    if s != [] {
      SplitNoSeparator(s[1..], isSep);
      assert [s[0]] + s[1..] == s;
    }
  }

  /** A separator-free head up to the first separator is the first piece; the rest splits on its own. */
  lemma {:induction false} SplitAtSeparator(a: string, c: char, b: string, isSep: char -> bool)
    requires NoneOf(a, isSep) && isSep(c)
    ensures Split(a + [c] + b, isSep) == [a] + Split(b, isSep)
    decreases |a|
  {
    if a == [] {
      assert a + [c] + b == [c] + b;
      assert ([c] + b)[1..] == b;
    } else {
      SplitAtSeparator(a[1..], c, b, isSep);
      var s := a + [c] + b;
      assert s[0] == a[0] && !isSep(s[0]);
      assert s[1..] == a[1..] + [c] + b;
      var rest := Split(s[1..], isSep);
      assert rest == [a[1..]] + Split(b, isSep);
      assert [a[0]] + a[1..] == a;
    }
  }

  /** The decimal digit `d` as a character. */
  function DigitChar(d: nat): (c: char)
    requires d < 10
    ensures IsDigit(c)
  {
    ('0' as int + d) as char
  }

  /** `${n}` for a natural number: its decimal representation, without leading zeros. */
  function NatToString(n: nat): (r: string)
    ensures |r| >= 1
    ensures All(r, IsDigit)
    ensures (|r| == 1) <==> n < 10
    decreases n
  {
    if n < 10 then [DigitChar(n)] else NatToString(n / 10) + [DigitChar(n % 10)]
  }

  /** Different numbers have different decimal representations. */
  lemma {:induction false} NatToStringInjective(a: nat, b: nat)
    requires NatToString(a) == NatToString(b)
    ensures a == b
    decreases a
  {
    if a >= 10 && b >= 10 {
      var sa := NatToString(a);
      assert sa[..|sa| - 1] == NatToString(a / 10);
      assert NatToString(b)[..|sa| - 1] == NatToString(b / 10);
      NatToStringInjective(a / 10, b / 10);
      assert sa[|sa| - 1] == DigitChar(a % 10);
      assert NatToString(b)[|sa| - 1] == DigitChar(b % 10);
    }
  }

  /** Code-point lexicographic order on strings: the order of a simple-collation string sort. */
  predicate StrLe(a: string, b: string)
    decreases |a|
  {
    a == [] || (b != [] && (a[0] < b[0] || (a[0] == b[0] && StrLe(a[1..], b[1..]))))
  }

  /** Any two strings are comparable. */
  lemma {:induction false} StrLeTotal(a: string, b: string)
    ensures StrLe(a, b) || StrLe(b, a)
    decreases |a|
  {
    if a != [] && b != [] && a[0] == b[0] {
      StrLeTotal(a[1..], b[1..]);
    }
  }

  /** The order is transitive. */
  lemma {:induction false} StrLeTrans(a: string, b: string, c: string)
    requires StrLe(a, b) && StrLe(b, c)
    ensures StrLe(a, c)
    decreases |a|
  {
    if a != [] && b != [] && c != [] && a[0] == b[0] && b[0] == c[0] {
      StrLeTrans(a[1..], b[1..], c[1..]);
    }
  }

  /** The order is antisymmetric, so it is a total order. */
  lemma {:induction false} StrLeAntisym(a: string, b: string)
    requires StrLe(a, b) && StrLe(b, a)
    ensures a == b
    decreases |a|
  {
    if a != [] {
      StrLeAntisym(a[1..], b[1..]);
      assert a == [a[0]] + a[1..] && b == [b[0]] + b[1..];
    }
  }

  // ---------------------------------------------------------------------------------------------
  // UTF-16 lengths
  // ---------------------------------------------------------------------------------------------

  /** The UTF-16 code units of one code point: two for a code point beyond U+FFFF, else one. */
  function CharUnits(c: char): (n: nat)
    ensures 1 <= n <= 2
  {
    if c as int >= 0x1_0000 then 2 else 1
  }

  /** A string's JavaScript `length`: its count of UTF-16 code units. */
  function Units(s: string): (n: nat)
    ensures |s| <= n <= 2 * |s|
    decreases |s|
  {
    if s == [] then 0 else CharUnits(s[0]) + Units(s[1..])
  }

  /** Every code point of `s` is a single code unit. */
  predicate InBasicPlane(s: string) {
    forall i :: 0 <= i < |s| ==> s[i] as int < 0x1_0000
  }

  /** In the basic plane a string's length in code units is its length in code points. */
  lemma {:induction false} UnitsInBasicPlane(s: string)
    requires InBasicPlane(s)
    ensures Units(s) == |s|
    decreases |s|
  {
    if s != [] {
      assert InBasicPlane(s[1..]) by {
        forall i | 0 <= i < |s[1..]| ensures s[1..][i] as int < 0x1_0000 {
          assert s[1..][i] == s[i + 1];
        }
      }
      UnitsInBasicPlane(s[1..]);
    }
  }

  /** Code units add up over a concatenation. */
  lemma {:induction false} UnitsAppend(a: string, b: string)
    ensures Units(a + b) == Units(a) + Units(b)
    decreases |a|
  {
    if a == [] {
      assert a + b == b;
    } else {
      assert (a + b)[0] == a[0] && (a + b)[1..] == a[1..] + b;
      UnitsAppend(a[1..], b);
    }
  }

  /**
   * `substring(0, n)`: the longest prefix of at most `n` code units. Where the cut would split a
   * surrogate pair the whole code point is left out.
   */
  function TakeUnits(s: string, n: nat): (r: string)
    ensures |r| <= |s|
    ensures Units(r) <= n
    ensures Units(s) <= n ==> r == s
    decreases |s|
  {
    if s == [] || CharUnits(s[0]) > n then []
    else
      var rest := TakeUnits(s[1..], n - CharUnits(s[0]));
      assert ([s[0]] + rest)[1..] == rest;
      [s[0]] + rest
  }

  /** What `TakeUnits` keeps is a prefix, and the next code point would not have fitted. */
  lemma {:induction false} TakeUnitsLongestPrefix(s: string, n: nat)
    ensures var r := TakeUnits(s, n);
            && r == s[..|r|]
            && (|r| < |s| ==> Units(r) + CharUnits(s[|r|]) > n)
    decreases |s|
  {
    if s != [] && CharUnits(s[0]) <= n {
      var k := n - CharUnits(s[0]);
      var rest := TakeUnits(s[1..], k);
      TakeUnitsLongestPrefix(s[1..], k);
      TakeUnitsSteps(s, n);
      var r := [s[0]] + rest;
      assert r == s[..|r|] by {
        forall i | 0 <= i < |r| ensures r[i] == s[i] {
          if i > 0 {
            assert r[i] == rest[i - 1] == s[1..][i - 1];
          }
        }
      }
      if |r| < |s| {
        assert s[|r|] == s[1..][|rest|];
        assert r[1..] == rest;
      }
    }
  }

  /** In the basic plane `substring(0, n)` keeps the first `n` code points. */
  lemma {:induction false} TakeUnitsInBasicPlane(s: string, n: nat)
    requires InBasicPlane(s)
    ensures TakeUnits(s, n) == Take(s, n)
    decreases |s|
  {
    if s != [] && n > 0 {
      assert InBasicPlane(s[1..]) by {
        forall i | 0 <= i < |s[1..]| ensures s[1..][i] as int < 0x1_0000 {
          assert s[1..][i] == s[i + 1];
        }
      }
      TakeUnitsInBasicPlane(s[1..], n - 1);
      assert CharUnits(s[0]) == 1;
      assert TakeUnits(s, n) == [s[0]] + TakeUnits(s[1..], n - 1);
      if |s| <= n {
        assert Take(s[1..], n - 1) == s[1..];
        assert s == [s[0]] + s[1..];
      } else {
        assert Take(s[1..], n - 1) == s[1..][..n - 1];
        assert s[..n] == [s[0]] + s[1..][..n - 1];
      }
    }
  }

  /** `substring(0, n)` reads no further than the first `n` code points. */
  lemma {:induction false} TakeUnitsOfPrefix(s: string, n: nat, m: nat)
    requires n <= m <= |s|
    ensures TakeUnits(s[..m], n) == TakeUnits(s, n)
    decreases |s|
  {
    var p := s[..m];
    if n > 0 {
      assert p[0] == s[0] && p[1..] == s[1..][..m - 1];
    }
    if n == 0 || CharUnits(s[0]) > n {
      TakeUnitsStops(p, n);
      TakeUnitsStops(s, n);
    } else {
      var k := n - CharUnits(s[0]);
      TakeUnitsOfPrefix(s[1..], k, m - 1);
      TakeUnitsSteps(p, n);
      TakeUnitsSteps(s, n);
    }
  }

  /** `substring(0, n)` of a text whose first code point does not fit is empty. */
  lemma TakeUnitsStops(s: string, n: nat)
    requires s == [] || CharUnits(s[0]) > n
    ensures TakeUnits(s, n) == []
  {
  }

  /** `substring(0, n)` of a text whose first code point fits keeps it and takes the rest from what follows. */
  lemma TakeUnitsSteps(s: string, n: nat)
    requires s != [] && CharUnits(s[0]) <= n
    ensures TakeUnits(s, n) == [s[0]] + TakeUnits(s[1..], n - CharUnits(s[0]))
  {
  }


}
