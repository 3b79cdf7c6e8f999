/** Python string primitives the core relies on: `str.strip`, `bytes.strip`,
    `str.replace` of one character, `startswith`, the `%02d` format and
    slicing a prefix. Strings are `seq<char>`, one element per code point. */
module Strings {

  /** The characters for which Python's `str.isspace` holds: the ones
      `str.strip()` with no argument removes. */
  const PyWhitespace: set<char> :=
    {'\t', '\n', '\U{0B}', '\U{0C}', '\r', '\U{1C}', '\U{1D}', '\U{1E}', '\U{1F}', ' ',
     '\U{85}', '\U{A0}', '\U{1680}',
     '\U{2000}', '\U{2001}', '\U{2002}', '\U{2003}', '\U{2004}', '\U{2005}',
     '\U{2006}', '\U{2007}', '\U{2008}', '\U{2009}', '\U{200A}',
     '\U{2028}', '\U{2029}', '\U{202F}', '\U{205F}', '\U{3000}'}

  /** The bytes `bytes.strip()` with no argument removes (ASCII whitespace). */
  const AsciiWhitespace: set<char> := {' ', '\t', '\n', '\r', '\U{0B}', '\U{0C}'}

  predicate AllIn(s: string, ws: set<char>)
  {
    forall k :: 0 <= k < |s| ==> s[k] in ws
  }

  /** The end of the run of `ws` characters that starts at `i`. */
  function LeadFrom(s: string, ws: set<char>, i: nat): (n: nat)
    requires i <= |s|
    ensures i <= n <= |s|
    ensures forall k :: i <= k < n ==> s[k] in ws
    ensures n < |s| ==> s[n] !in ws
    decreases |s| - i
  {
    if i == |s| || s[i] !in ws then i else LeadFrom(s, ws, i + 1)
  }

  /** The start of the run of `ws` characters that ends at `j`, not going
      below `lo`. */
  function TrailTo(s: string, ws: set<char>, lo: nat, j: nat): (m: nat)
    requires lo <= j <= |s|
    ensures lo <= m <= j
    ensures forall k :: m <= k < j ==> s[k] in ws
    ensures lo < m ==> s[m - 1] !in ws
    decreases j
  {
    if j == lo || s[j - 1] !in ws then j else TrailTo(s, ws, lo, j - 1)
  }

  /** `s.strip()`: `s` is what it removes in front, the result, and what it
      removes behind; neither end of a non-empty result is in `ws`, and an
      empty result means `s` was all `ws`. */
  function Strip(s: string, ws: set<char>): (r: string)
    ensures exists i :: 0 <= i <= |s| - |r| && r == s[i..i + |r|]
                        && AllIn(s[..i], ws) && AllIn(s[i + |r|..], ws)
    ensures r != [] ==> r[0] !in ws && r[|r| - 1] !in ws
    ensures r == [] <==> AllIn(s, ws)
  {
    var n := LeadFrom(s, ws, 0);
    var m := TrailTo(s, ws, n, |s|);
    var r := s[n..m];
    StripFacts(s, ws, n, m, r);
    r
  }

  /** What `Strip` promises, for the run boundaries `n` and `m`. */
  lemma StripFacts(s: string, ws: set<char>, n: nat, m: nat, r: string)
    requires n <= m <= |s| && r == s[n..m]
    requires forall k :: 0 <= k < n ==> s[k] in ws
    requires n < |s| ==> s[n] !in ws
    requires forall k :: m <= k < |s| ==> s[k] in ws
    requires n < m ==> s[m - 1] !in ws
    ensures exists i :: 0 <= i <= |s| - |r| && r == s[i..i + |r|]
                        && AllIn(s[..i], ws) && AllIn(s[i + |r|..], ws)
    ensures r != [] ==> r[0] !in ws && r[|r| - 1] !in ws
    ensures r == [] <==> AllIn(s, ws)
  {
    StripOuter(s, ws, n, m);
    StripEnds(s, ws, n, m);
    StripEmpty(s, ws, n, m);
  }

  lemma StripEnds(s: string, ws: set<char>, n: nat, m: nat)
    requires n <= m <= |s|
    requires n < |s| ==> s[n] !in ws
    requires n < m ==> s[m - 1] !in ws
    ensures var r := s[n..m]; r != [] ==> r[0] !in ws && r[|r| - 1] !in ws
  {
    if n < m {
      assert s[n..m][0] == s[n] && s[n..m][m - n - 1] == s[m - 1];
    }
  }

  lemma StripOuter(s: string, ws: set<char>, n: nat, m: nat)
    requires n <= m <= |s|
    requires forall k :: 0 <= k < n ==> s[k] in ws
    requires forall k :: m <= k < |s| ==> s[k] in ws
    ensures exists i :: 0 <= i <= |s| - |s[n..m]| && s[n..m] == s[i..i + |s[n..m]|]
                        && AllIn(s[..i], ws) && AllIn(s[i + |s[n..m]|..], ws)
  {
    assert s[n..m] == s[n..n + |s[n..m]|];
    forall k | 0 <= k < n ensures s[..n][k] in ws { assert s[..n][k] == s[k]; }
    forall k | 0 <= k < |s| - m ensures s[m..][k] in ws { assert s[m..][k] == s[m + k]; }
    assert AllIn(s[..n], ws) && AllIn(s[m..], ws);
  }

  lemma StripEmpty(s: string, ws: set<char>, n: nat, m: nat)
    requires n <= m <= |s|
    requires forall k :: 0 <= k < n ==> s[k] in ws
    requires n < |s| ==> s[n] !in ws
    requires forall k :: m <= k < |s| ==> s[k] in ws
    ensures s[n..m] == [] <==> AllIn(s, ws)
  {
    assert n == m ==> n == |s|;
  }

  /** `s.replace(c, rep)` for a one-character `c`. */
  function ReplaceChar(s: string, c: char, rep: string): (r: string)
    ensures c !in rep ==> c !in r
    ensures c !in s ==> r == s
  {
    if s == [] then []
    else (if s[0] == c then rep else [s[0]]) + ReplaceChar(s[1..], c, rep)
  }

  lemma {:induction false} ReplaceCharAppend(a: string, b: string, c: char, rep: string)
    ensures ReplaceChar(a + b, c, rep) == ReplaceChar(a, c, rep) + ReplaceChar(b, c, rep)
  {
    if a != [] {
      var x := if a[0] == c then rep else [a[0]];
      assert (a + b)[0] == a[0] && (a + b)[1..] == a[1..] + b;
      ReplaceCharAppend(a[1..], b, c, rep);
      assert ReplaceChar(a + b, c, rep) == x + (ReplaceChar(a[1..], c, rep) + ReplaceChar(b, c, rep));
    } else {
      assert a + b == b;
    }
  }

  /** A character other than `c`, and other than any character of `rep`, is
      kept in place by the replacement: it occurs in the result exactly
      as often as in the input. */
  lemma {:induction false} ReplaceCharCount(s: string, c: char, rep: string, x: char)
    requires x != c && x !in rep
    ensures multiset(ReplaceChar(s, c, rep))[x] == multiset(s)[x]
  {
    if s != [] {
      ReplaceCharCount(s[1..], c, rep, x);
      assert s == [s[0]] + s[1..];
      assert multiset(s) == multiset([s[0]]) + multiset(s[1..]);
    }
  }

  /** Replacing a character by a single character keeps the length and
      changes each position on its own: `c` becomes `d`, anything else
      stays. */
  lemma {:induction false} ReplaceCharByChar(s: string, c: char, d: char)
    ensures |ReplaceChar(s, c, [d])| == |s|
    ensures forall k :: 0 <= k < |s| ==> ReplaceChar(s, c, [d])[k] == if s[k] == c then d else s[k]
  {
    if s != [] {
      ReplaceCharByChar(s[1..], c, d);
      var r := ReplaceChar(s, c, [d]);
      var x := if s[0] == c then [d] else [s[0]];
      assert r == x + ReplaceChar(s[1..], c, [d]);
      forall k | 1 <= k < |s| ensures r[k] == if s[k] == c then d else s[k] {
        assert r[k] == ReplaceChar(s[1..], c, [d])[k - 1] && s[k] == s[1..][k - 1];
      }
    }
  }

  /** `s.startswith(p)`. */
  predicate StartsWith(s: string, p: string)
  {
    |p| <= |s| && s[..|p|] == p
  }

  /** `s[:n]` for `n >= 0`: the first `n` characters, or all of `s` when it is
      shorter. */
  function Take(s: string, n: nat): (r: string)
    ensures |r| == if |s| < n then |s| else n
    ensures StartsWith(s, r)
  {
    if |s| <= n then s else s[..n]
  }

  // Decimal numerals ---------------------------------------------------------

  function Digit(d: nat): char
    requires d < 10
  {
    "0123456789"[d]
  }

  function DigitValue(c: char): nat
  {
    if '0' <= c <= '9' then (c as int - '0' as int) as nat else 0
  }

  predicate IsDigit(c: char)
  {
    '0' <= c <= '9'
  }

  /** `str(n)` for a `nat`: its decimal digits, no leading zero. */
  function Decimal(n: nat): (r: string)
    ensures |r| >= 1
    ensures forall k :: 0 <= k < |r| ==> IsDigit(r[k])
    ensures (|r| == 1) <==> n < 10
    ensures |r| > 1 ==> r[0] != '0'
  {
    if n < 10 then [Digit(n)] else Decimal(n / 10) + [Digit(n % 10)]
  }

  /** The number a string of decimal digits denotes, most significant first. */
  function DigitsValue(s: string): nat
  {
    if s == [] then 0 else DigitsValue(s[..|s| - 1]) * 10 + DigitValue(s[|s| - 1])
  }

  lemma {:induction false} DecimalValue(n: nat)
    ensures DigitsValue(Decimal(n)) == n
  {
    if n >= 10 {
      var r := Decimal(n);
      assert r[..|r| - 1] == Decimal(n / 10);
      DecimalValue(n / 10);
    }
  }

  lemma {:induction false} LeadingZeroValue(s: string)
    ensures DigitsValue("0" + s) == DigitsValue(s)
  {
    if s != [] {
      assert ("0" + s)[..|"0" + s| - 1] == "0" + s[..|s| - 1];
      LeadingZeroValue(s[..|s| - 1]);
    }
  }

  /** `'%02d' % n`: the decimal digits of `n`, padded on the left with zeros
      to at least two characters. */
  function ZeroPad2(n: nat): (r: string)
    ensures |r| >= 2 && (n < 100 <==> |r| == 2)
    ensures forall k :: 0 <= k < |r| ==> IsDigit(r[k])
    ensures DigitsValue(r) == n
  {
    DecimalValue(n);
    if n < 10 then
      LeadingZeroValue(Decimal(n));
      "0" + Decimal(n)
    else
      DecimalLength(n);
      Decimal(n)
  }

  lemma {:induction false} DecimalLength(n: nat)
    ensures n < 100 <==> |Decimal(n)| <= 2
  {
    if n >= 10 {
      DecimalLength(n / 10);
    }
  }
}
