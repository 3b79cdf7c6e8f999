/** The two string functions around the `ffmpeg` stills: the path escape
    for the `subtitles` filter, and the names of the image files a search
    writes. */
module FFmpeg {
  import opened Strings

  /** The filter-path escape of `get_image`: every `'` becomes `\'`, then
      every `:` becomes `\:`. */
  function EscapeFilterPath(s: string): (r: string)
    ensures '\'' !in s && ':' !in s ==> r == s
  {
    ReplaceChar(ReplaceChar(s, '\'', "\\'"), ':', "\\:")
  }

  /** The escape for one character, as a reference definition. */
  function EscapeChar(c: char): string
  {
    if c == '\'' then "\\'" else if c == ':' then "\\:" else [c]
  }

  /** Escaping character by character, left to right. */
  function EscapeEach(s: string): string
  {
    if s == [] then [] else EscapeChar(s[0]) + EscapeEach(s[1..])
  }

  /** The two chained replacements escape each character on its own: the
      first replacement never introduces a `:` for the second to change. */
  lemma {:induction false} EscapeIsPerChar(s: string)
    ensures EscapeFilterPath(s) == EscapeEach(s)
  {
    if s != [] {
      var head := if s[0] == '\'' then "\\'" else [s[0]];
      assert ReplaceChar(s, '\'', "\\'") == head + ReplaceChar(s[1..], '\'', "\\'");
      ReplaceCharAppend(head, ReplaceChar(s[1..], '\'', "\\'"), ':', "\\:");
      assert ReplaceChar(head, ':', "\\:") == EscapeChar(s[0]) by {
        if s[0] == '\'' {
          assert ':' !in head;
        } else {
          assert head[1..] == [];
        }
      }
      EscapeIsPerChar(s[1..]);
    }
  }

  /** The same escape with the replacements the other way round: neither
      replacement introduces the other's character, so the order is
      irrelevant. */
  lemma {:induction false} EscapeOrderIrrelevant(s: string)
    ensures EscapeFilterPath(s) == ReplaceChar(ReplaceChar(s, ':', "\\:"), '\'', "\\'")
  {
    EscapeIsPerChar(s);
    SwappedIsPerChar(s);
  }

  lemma {:induction false} SwappedIsPerChar(s: string)
    ensures ReplaceChar(ReplaceChar(s, ':', "\\:"), '\'', "\\'") == EscapeEach(s)
  {
    if s != [] {
      var head := if s[0] == ':' then "\\:" else [s[0]];
      assert ReplaceChar(s, ':', "\\:") == head + ReplaceChar(s[1..], ':', "\\:");
      ReplaceCharAppend(head, ReplaceChar(s[1..], ':', "\\:"), '\'', "\\'");
      assert ReplaceChar(head, '\'', "\\'") == EscapeChar(s[0]) by {
        if s[0] == ':' {
          assert '\'' !in head;
        } else {
          assert head[1..] == [];
        }
      }
      SwappedIsPerChar(s[1..]);
    }
  }

  /** Every character other than `'`, `:` and `\` occurs in the escaped path
      exactly as often as in the path. */
  lemma EscapeKeepsOthers(s: string, x: char)
    requires x != '\'' && x != ':' && x != '\\'
    ensures multiset(EscapeFilterPath(s))[x] == multiset(s)[x]
  {
    ReplaceCharCount(s, '\'', "\\'", x);
    ReplaceCharCount(ReplaceChar(s, '\'', "\\'"), ':', "\\:", x);
  }

  /** The inverse of the escape: a backslash before `'` or `:` is dropped,
      every other character is kept. */
  function Unescape(t: string): string
  {
    if t == [] then []
    else if |t| >= 2 && t[0] == '\\' && (t[1] == '\'' || t[1] == ':') then [t[1]] + Unescape(t[2..])
    else [t[0]] + Unescape(t[1..])
  }

  lemma {:induction false} EscapeEachHead(s: string)
    ensures EscapeEach(s) == [] || (EscapeEach(s)[0] != '\'' && EscapeEach(s)[0] != ':')
  {
  }

  lemma {:induction false} UnescapeEscapeEach(s: string)
    ensures Unescape(EscapeEach(s)) == s
  {
    if s != [] {
      var rest := EscapeEach(s[1..]);
      var t := EscapeChar(s[0]) + rest;
      assert EscapeEach(s) == t;
      UnescapeEscapeEach(s[1..]);
      if s[0] == '\'' || s[0] == ':' {
        assert t[2..] == rest;
      } else {
        EscapeEachHead(s[1..]);
        assert t[1..] == rest;
      }
      assert s == [s[0]] + s[1..];
    }
  }

  /** The escape loses nothing: reading the escaped path back gives the
      path. */
  lemma EscapeRoundTrip(s: string)
    ensures Unescape(EscapeFilterPath(s)) == s
  {
    EscapeIsPerChar(s);
    UnescapeEscapeEach(s);
  }

  // Output naming ------------------------------------------------------------

  /** `fs_safe_query` of the `search` command: the query stripped, with every
      space replaced by `+`. */
  function FsSafeQuery(query: string): (r: string)
    ensures ' ' !in r
  {
    ReplaceChar(Strip(query, PyWhitespace), ' ', "+")
  }

  /** The safe query is the stripped query, character for character, with
      each space turned into `+`. */
  lemma FsSafeQueryChars(query: string)
    ensures var t, r := Strip(query, PyWhitespace), FsSafeQuery(query);
            |r| == |t| && forall k :: 0 <= k < |t| ==> r[k] == if t[k] == ' ' then '+' else t[k]
  {
    ReplaceCharByChar(Strip(query, PyWhitespace), ' ', '+');
  }

  /** The name passed to `get_image` for the `i`-th result. */
  function StillName(query: string, i: nat): string
  {
    FsSafeQuery(query) + ZeroPad2(i)
  }

  /** The image file `get_image` writes for a name. */
  function ImageFilename(name: string): string
  {
    name + ".png"
  }

  /** The still of result `i` is the safe query, then `i` in at least two
      digits, then `.png`; it has no space, and the digits read back as
      `i`. */
  lemma StillFileShape(query: string, i: nat)
    ensures var f := ImageFilename(StillName(query, i));
            var q := FsSafeQuery(query);
            var digits := f[|q|..|f| - 4];
            && StartsWith(f, q)
            && f[|f| - 4..] == ".png"
            && ' ' !in f
            && |digits| >= 2 && (i < 100 <==> |digits| == 2)
            && (forall k :: 0 <= k < |digits| ==> IsDigit(digits[k]))
            && DigitsValue(digits) == i
  {
    var f := ImageFilename(StillName(query, i));
    var q := FsSafeQuery(query);
    assert f == q + ZeroPad2(i) + ".png";
    assert f[..|q|] == q;
    assert f[|q|..|f| - 4] == ZeroPad2(i);
    assert ' ' !in ZeroPad2(i) by {
      forall k | 0 <= k < |ZeroPad2(i)| ensures ZeroPad2(i)[k] != ' ' {
        assert IsDigit(ZeroPad2(i)[k]);
      }
    }
  }

  /** Different results of one search get different image files. */
  lemma StillFilesDistinct(query: string, i: nat, j: nat)
    requires i != j
    ensures ImageFilename(StillName(query, i)) != ImageFilename(StillName(query, j))
  {
    StillFileShape(query, i);
    StillFileShape(query, j);
  }
}
