/**
  * The Python `str` operations the schedule script relies on, on `seq<char>`
  * (one `char` per code point, as Python indexes strings).
  */
module PyStr {
  import opened Wrappers

  // ---------------------------------------------------------------------
  // Whitespace, `strip()` and `split()`
  // ---------------------------------------------------------------------

  /** `c.isspace()`: the characters that `split()` and `strip()` without arguments treat as whitespace. */
  predicate IsSpace(c: char)
  {
    ('\t' <= c <= '\r') || ('\U{1C}' <= c <= ' ') || c == '\U{85}' || c == '\U{A0}'
    || c == '\U{1680}' || ('\U{2000}' <= c <= '\U{200A}') || c == '\U{2028}' || c == '\U{2029}'
    || c == '\U{202F}' || c == '\U{205F}' || c == '\U{3000}'
  }

  predicate AllSpace(s: string)
  {
    forall k :: 0 <= k < |s| ==> IsSpace(s[k])
  }

  predicate NoSpace(s: string)
  {
    forall k :: 0 <= k < |s| ==> !IsSpace(s[k])
  }

  /** Neither a leading nor a trailing whitespace character. */
  predicate IsTrimmed(s: string)
  {
    s == [] || (!IsSpace(s[0]) && !IsSpace(s[|s| - 1]))
  }

  /** The number of whitespace characters that start `s`. */
  function LeadingSpace(s: string): (n: nat)
    ensures n <= |s| && AllSpace(s[..n])
    ensures n < |s| ==> !IsSpace(s[n])
    decreases |s|
  {
    if s != [] && IsSpace(s[0]) then
      var n := 1 + LeadingSpace(s[1..]);
      assert s[..n] == [s[0]] + s[1..][..n - 1];
      n
    else 0
  }

  /** `s.lstrip()`: the suffix left after dropping the leading whitespace. */
  function LStrip(s: string): string
  {
    s[LeadingSpace(s)..]
  }

  /** The length of `s` without the whitespace characters that end it. */
  function TrailingStart(s: string): (n: nat)
    ensures n <= |s| && AllSpace(s[n..])
    ensures n > 0 ==> !IsSpace(s[n - 1])
    decreases |s|
  {
    if s != [] && IsSpace(s[|s| - 1]) then
      var n := TrailingStart(s[..|s| - 1]);
      assert s[n..] == s[..|s| - 1][n..] + [s[|s| - 1]];
      n
    else |s|
  }

  /** `s.rstrip()`: the prefix left after dropping the trailing whitespace. */
  function RStrip(s: string): string
  {
    s[..TrailingStart(s)]
  }

  /**
    * `s.strip()`: whitespace is dropped from both ends, one character at a
    * time, until neither end is whitespace.
    */
  function Strip(s: string): (r: string)
    ensures IsTrimmed(r)
    decreases |s|
  {
    if s != [] && IsSpace(s[0]) then Strip(s[1..])
    else if s != [] && IsSpace(s[|s| - 1]) then Strip(s[..|s| - 1])
    else s
  }

  /** Dropping whitespace at the front does not move the end of the kept text. */
  lemma {:induction false} TrailingStartOfSuffix(s: string, i: nat)
    requires i <= |s| && AllSpace(s[..i])
    ensures TrailingStart(s[i..]) == if TrailingStart(s) <= i then 0 else TrailingStart(s) - i
    decreases |s|
  {
    if s != [] && IsSpace(s[|s| - 1]) && i < |s| {
      var init := s[..|s| - 1];
      assert s[i..][..|s| - i - 1] == init[i..];
      assert init[..i] == s[..i];
      TrailingStartOfSuffix(init, i);
    }
  }

  /** `strip()` is `rstrip()` after `lstrip()`. */
  lemma {:induction false} StripIsRStripOfLStrip(s: string)
    ensures Strip(s) == RStrip(LStrip(s))
    decreases |s|
  {
    if s != [] && IsSpace(s[0]) {
      var n := LeadingSpace(s[1..]);
      assert LeadingSpace(s) == 1 + n;
      assert s[1 + n..] == s[1..][n..];
      StripIsRStripOfLStrip(s[1..]);
    } else if s != [] && IsSpace(s[|s| - 1]) {
      var init := s[..|s| - 1];
      assert LeadingSpace(s) == 0 && s[0..] == s;
      assert init[0] == s[0];
      assert LeadingSpace(init) == 0 && init[0..] == init;
      var t := TrailingStart(init);
      assert TrailingStart(s) == t && s[..t] == init[..t];
      StripIsRStripOfLStrip(init);
    } else {
      assert s[0..] == s && s[..|s|] == s;
    }
  }

  /** `strip()` keeps what lies between the leading and the trailing whitespace. */
  lemma StripBetween(s: string)
    ensures var i, j := LeadingSpace(s), TrailingStart(s); Strip(s) == if j <= i then [] else s[i..j]
  {
    StripIsRStripOfLStrip(s);
    TrailingStartOfSuffix(s, LeadingSpace(s));
  }

  /** Length of the run of non-whitespace characters that starts `s`. */
  function WordLength(s: string): (n: nat)
    ensures n <= |s|
    ensures forall k :: 0 <= k < n ==> !IsSpace(s[k])
    ensures n < |s| ==> IsSpace(s[n])
    decreases |s|
  {
    if s == [] || IsSpace(s[0]) then 0 else 1 + WordLength(s[1..])
  }

  /** Every token is a non-empty run of non-whitespace characters. */
  predicate WellFormedTokens(ts: seq<string>)
  {
    forall k :: 0 <= k < |ts| ==> ts[k] != [] && NoSpace(ts[k])
  }

  lemma WellFormedCons(first: string, rest: seq<string>)
    requires first != [] && NoSpace(first) && WellFormedTokens(rest)
    ensures WellFormedTokens([first] + rest)
  {
    forall k | 0 <= k < |rest| + 1
      ensures ([first] + rest)[k] != [] && NoSpace(([first] + rest)[k])
    {
      if k > 0 {
        assert ([first] + rest)[k] == rest[k - 1];
      }
    }
  }

  /**
    * `s.split()` with no argument: the maximal runs of non-whitespace
    * characters, in order. There are none exactly when `s` is all whitespace.
    */
  function Tokens(s: string): (ts: seq<string>)
    ensures WellFormedTokens(ts)
    ensures ts == [] <==> AllSpace(s)
    decreases |s|
  {
    var t := LStrip(s);
    if t == [] then
      assert s[..|s|] == s;
      []
    else
      var n := WordLength(t);
      var first, rest := t[..n], Tokens(t[n..]);
      assert s[|s| - |t|] == t[0];
      assert forall k :: 0 <= k < n ==> first[k] == t[k];
      WellFormedCons(first, rest);
      [first] + rest
  }

  /** Words written one after another with one blank between neighbours. */
  function JoinWords(ws: seq<string>): string
  {
    if ws == [] then [] else if |ws| == 1 then ws[0] else ws[0] + " " + JoinWords(ws[1..])
  }

  /** A leading whitespace character, of any kind, does not change the tokens. */
  lemma TokensSkipsLeadingSpace(c: char, s: string)
    requires IsSpace(c)
    ensures Tokens([c] + s) == Tokens(s)
  {
    assert ([c] + s)[1..] == s;
  }

  /** A word followed by whitespace or by nothing is the first token. */
  lemma TokensCons(w: string, rest: string)
    requires w != [] && NoSpace(w)
    requires rest == [] || IsSpace(rest[0])
    ensures Tokens(w + rest) == [w] + Tokens(rest)
  {
    var s := w + rest;
    assert LStrip(s) == s;
    var n := WordLength(s);
    assert forall k :: 0 <= k < |w| ==> s[k] == w[k];
    assert |w| < |s| ==> s[|w|] == rest[0];
    assert n == |w|;
    assert s[..n] == w && s[n..] == rest;
  }

  /** `split()` takes apart what `" ".join` puts together, for words without whitespace. */
  lemma {:induction false} TokensOfJoinWords(ws: seq<string>)
    requires WellFormedTokens(ws)
    ensures Tokens(JoinWords(ws)) == ws
  {
    if |ws| == 1 {
      TokensOfWord(ws[0]);
    } else if |ws| > 1 {
      var w, rest := ws[0], JoinWords(ws[1..]);
      assert ws == [w] + ws[1..];
      assert forall k :: 0 <= k < |ws| - 1 ==> ws[1..][k] == ws[k + 1];
      TokensOfJoinWords(ws[1..]);
      JoinWordsCons(ws);
      TokensCons(w, " " + rest);
      TokensSkipsLeadingSpace(' ', rest);
    }
  }

  lemma JoinWordsCons(ws: seq<string>)
    requires |ws| > 1
    ensures JoinWords(ws) == ws[0] + (" " + JoinWords(ws[1..]))
  {
  }

  lemma TokensOfWord(w: string)
    requires w != [] && NoSpace(w)
    ensures Tokens(w) == [w]
  {
    TokensCons(w, []);
    assert w + [] == w;
  }

  // ---------------------------------------------------------------------
  // Slicing and replacing
  // ---------------------------------------------------------------------

  /**
    * Python's `s[i:j]` for non-negative bounds: both bounds are clamped to
    * the length, so a range past the end gives a shorter or an empty string.
    */
  function Slice(s: string, i: nat, j: nat): (r: string)
    ensures i <= j ==> |r| <= j - i
    ensures i >= |s| ==> r == []
    ensures i <= j <= |s| ==> r == s[i..j]
    ensures i <= |s| <= j ==> r == s[i..]
  {
    var lo := Min(i, |s|);
    var hi := Min(j, |s|);
    if lo <= hi then s[lo..hi] else []
  }

  /** Two adjacent slices make up the slice over their union. */
  lemma SliceAdjacent(s: string, i: nat, j: nat, k: nat)
    requires i <= j <= k
    ensures Slice(s, i, j) + Slice(s, j, k) == Slice(s, i, k)
  {
  }

  /** `s.replace(target, replacement)` for one-character arguments. */
  function ReplaceChar(s: string, target: char, replacement: char): (r: string)
    ensures |r| == |s|
    ensures forall k :: 0 <= k < |s| && s[k] != target ==> r[k] == s[k]
    ensures forall k :: 0 <= k < |s| && s[k] == target ==> r[k] == replacement
    ensures target != replacement ==> Lacks(r, target)
    decreases |s|
  {
    if s == [] then []
    else [if s[0] == target then replacement else s[0]] + ReplaceChar(s[1..], target, replacement)
  }

  // ---------------------------------------------------------------------
  // `split(sep)` and `splitlines()`
  // ---------------------------------------------------------------------

  /** No character of `s` is in `seps`. */
  predicate Avoids(s: string, seps: set<char>)
  {
    forall k :: 0 <= k < |s| ==> s[k] !in seps
  }

  /** `c` does not occur in `s`. */
  predicate Lacks(s: string, c: char)
  {
    Avoids(s, {c})
  }

  /** Position of the first `c` in `s`, or `|s|` when there is none. */
  function FindChar(s: string, c: char): (k: nat)
    ensures k <= |s| && forall j :: 0 <= j < k ==> s[j] != c
    ensures k < |s| ==> s[k] == c
    decreases |s|
  {
    if s == [] || s[0] == c then 0 else 1 + FindChar(s[1..], c)
  }

  /** `sep.join(parts)` for a one-character separator. */
  function JoinOn(parts: seq<string>, sep: char): string
  {
    if parts == [] then []
    else if |parts| == 1 then parts[0]
    else parts[0] + [sep] + JoinOn(parts[1..], sep)
  }

  /** `s.split(sep)` for a one-character separator: the pieces between the separators. */
  function SplitOn(s: string, sep: char): (parts: seq<string>)
    ensures |parts| >= 1
    decreases |s|
  {
    var k := FindChar(s, sep);
    if k == |s| then [s] else [s[..k]] + SplitOn(s[k + 1..], sep)
  }

  /** `s.split(sep)` has more than one piece exactly when `sep` occurs in `s`. */
  lemma SplitOnCount(s: string, sep: char)
    ensures |SplitOn(s, sep)| == 1 <==> Lacks(s, sep)
  {
    var k := FindChar(s, sep);
    if k < |s| {
      assert |SplitOn(s, sep)| == 1 + |SplitOn(s[k + 1..], sep)|;
    }
  }

  /** No piece of `s.split(sep)` contains `sep`. */
  lemma {:induction false} SplitOnPieces(s: string, sep: char)
    ensures var parts := SplitOn(s, sep); forall k :: 0 <= k < |parts| ==> Lacks(parts[k], sep)
    decreases |s|
  {
    var k := FindChar(s, sep);
    if k < |s| {
      SplitOnPieces(s[k + 1..], sep);
      assert SplitOn(s, sep) == [s[..k]] + SplitOn(s[k + 1..], sep);
    } else {
      assert SplitOn(s, sep) == [s];
    }
  }

  /** Joining the pieces of `s.split(sep)` with `sep` gives back `s`. */
  lemma {:induction false} SplitOnJoinsBack(s: string, sep: char)
    ensures JoinOn(SplitOn(s, sep), sep) == s
    decreases |s|
  {
    var k := FindChar(s, sep);
    if k < |s| {
      var rest := SplitOn(s[k + 1..], sep);
      SplitOnJoinsBack(s[k + 1..], sep);
      assert SplitOn(s, sep) == [s[..k]] + rest;
      assert JoinOn([s[..k]] + rest, sep) == s[..k] + [sep] + JoinOn(rest, sep);
      assert s == s[..k] + [sep] + s[k + 1..];
    }
  }

  /** `split(sep)` undoes `join`: separator-free pieces come back unchanged. */
  lemma {:induction false} SplitOnJoin(parts: seq<string>, sep: char)
    requires |parts| >= 1
    requires forall k :: 0 <= k < |parts| ==> Lacks(parts[k], sep)
    ensures SplitOn(JoinOn(parts, sep), sep) == parts
  {
    var p := parts[0];
    if |parts| > 1 {
      var rest := JoinOn(parts[1..], sep);
      var s := JoinOn(parts, sep);
      assert s == p + [sep] + rest;
      assert s[|p|] == sep;
      var k := FindChar(s, sep);
      assert k == |p|;
      assert s[..k] == p;
      assert s[k + 1..] == rest;
      SplitOnJoin(parts[1..], sep);
    } else {
      assert FindChar(p, sep) == |p|;
    }
  }

  /** The last piece of `split(sep)`. */
  function LastPiece(s: string, sep: char): string
  {
    var parts := SplitOn(s, sep);
    parts[|parts| - 1]
  }

  /** The last piece of `split(sep)` is what follows the last separator. */
  lemma {:induction false} SplitOnLast(s: string, sep: char, i: nat)
    requires i < |s| && s[i] == sep && Lacks(s[i + 1..], sep)
    ensures LastPiece(s, sep) == s[i + 1..]
    decreases |s|
  {
    var k := FindChar(s, sep);
    var t := s[k + 1..];
    assert SplitOn(s, sep) == [s[..k]] + SplitOn(t, sep);
    if k < i {
      assert t[i - k - 1] == sep && t[i - k..] == s[i + 1..];
      SplitOnLast(t, sep, i - k - 1);
    } else {
      assert t == s[i + 1..];
      assert FindChar(t, sep) == |t|;
    }
  }

  /** The line boundaries recognised by `str.splitlines()`. */
  predicate IsLineBreak(c: char)
  {
    c == '\n' || c == '\r' || c == '\U{0B}' || c == '\U{0C}' || c == '\U{1C}' || c == '\U{1D}'
    || c == '\U{1E}' || c == '\U{85}' || c == '\U{2028}' || c == '\U{2029}'
  }

  predicate NoLineBreak(s: string)
  {
    forall k :: 0 <= k < |s| ==> !IsLineBreak(s[k])
  }

  /** Position of the first line boundary, or `|s|` when there is none. */
  function BreakIndex(s: string): (k: nat)
    ensures k <= |s|
    ensures NoLineBreak(s[..k])
    ensures k < |s| ==> IsLineBreak(s[k])
    decreases |s|
  {
    if s == [] || IsLineBreak(s[0]) then 0 else 1 + BreakIndex(s[1..])
  }

  /**
    * `s.splitlines()`: the text between line boundaries (a `\r\n` pair is
    * one boundary); a final boundary does not start an extra empty line.
    */
  function SplitLines(s: string): (lines: seq<string>)
    ensures forall k :: 0 <= k < |lines| ==> NoLineBreak(lines[k])
    decreases |s|
  {
    if s == [] then []
    else
      var k := BreakIndex(s);
      if k == |s| then
        assert s[..k] == s;
        [s]
      else
        var next := if s[k] == '\r' && k + 1 < |s| && s[k + 1] == '\n' then k + 2 else k + 1;
        [s[..k]] + SplitLines(s[next..])
  }

  /** A line ending `splitlines()` recognises: `\r\n`, or any one boundary character. */
  predicate LineEnd(brk: string)
  {
    brk == "\r\n" || (|brk| == 1 && IsLineBreak(brk[0]))
  }

  /** Text made of the given lines, each ended by `brk`. */
  function JoinLines(lines: seq<string>, brk: string): (s: string)
    requires LineEnd(brk)
    ensures lines == [] <==> s == []
    ensures lines != [] ==> s[0] == if lines[0] == [] then brk[0] else lines[0][0]
  {
    if lines == [] then [] else lines[0] + brk + JoinLines(lines[1..], brk)
  }

  /**
    * A line free of boundaries, then a line ending, is the first line of
    * `splitlines()`, unless a lone `\r` ending would pair with a `\n` after it.
    */
  lemma SplitLinesCons(l: string, brk: string, rest: string)
    requires LineEnd(brk) && NoLineBreak(l)
    requires brk == "\r" ==> rest == [] || rest[0] != '\n'
    ensures SplitLines(l + brk + rest) == [l] + SplitLines(rest)
  {
    var s := l + brk + rest;
    BreakIndexOf(l, brk + rest);
    assert s == l + (brk + rest);
    assert s[..|l|] == l;
    assert s[|l| + |brk|..] == rest;
  }

  /** The first boundary of `l + t` is the first character of `t` when `l` has none and `t` starts with one. */
  lemma BreakIndexOf(l: string, t: string)
    requires NoLineBreak(l) && t != [] && IsLineBreak(t[0])
    ensures BreakIndex(l + t) == |l|
  {
    var s := l + t;
    assert s[|l|] == t[0];
    assert forall j :: 0 <= j < |l| ==> s[j] == l[j];
  }

  /** `splitlines()` gives back the lines of a text whose lines all end with the same line ending. */
  lemma {:induction false} SplitLinesOfJoin(lines: seq<string>, brk: string)
    requires LineEnd(brk)
    requires forall k :: 0 <= k < |lines| ==> NoLineBreak(lines[k])
    ensures SplitLines(JoinLines(lines, brk)) == lines
  {
    if lines != [] {
      var rest := JoinLines(lines[1..], brk);
      if rest != [] {
        assert lines[1] != [] ==> !IsLineBreak(lines[1][0]);
      }
      SplitLinesCons(lines[0], brk, rest);
      SplitLinesOfJoin(lines[1..], brk);
    }
  }

  // ---------------------------------------------------------------------
  // Prefix, suffix and substring tests
  // ---------------------------------------------------------------------

  /** `s.startswith(p)`. */
  predicate StartsWith(s: string, p: string)
  {
    |p| <= |s| && s[..|p|] == p
  }

  /** `s.endswith(p)`. */
  predicate EndsWith(s: string, p: string)
  {
    |p| <= |s| && s[|s| - |p|..] == p
  }

  /** `p in s` for strings: `p` occurs somewhere in `s`. */
  predicate Contains(s: string, p: string)
    decreases |s|
  {
    StartsWith(s, p) || (s != [] && Contains(s[1..], p))
  }

  /** A string occurring at some position of `s` is `in` it. */
  lemma {:induction false} ContainsAt(s: string, p: string, i: nat)
    requires i + |p| <= |s|
    ensures s[i..i + |p|] == p ==> Contains(s, p)
    decreases i
  {
    if i > 0 && s[i..i + |p|] == p {
      assert s[1..][i - 1..i - 1 + |p|] == s[i..i + |p|];
      ContainsAt(s[1..], p, i - 1);
    }
  }

  /** A string that is `in` `s` occurs at some position of it: `Contains` finds nothing but occurrences. */
  lemma {:induction false} ContainsOccurs(s: string, p: string) returns (i: nat)
    requires Contains(s, p)
    ensures i + |p| <= |s| && s[i..i + |p|] == p
    decreases |s|
  {
    if StartsWith(s, p) {
      i := 0;
    } else {
      var j := ContainsOccurs(s[1..], p);
      assert s[1..][j..j + |p|] == s[j + 1..j + 1 + |p|];
      i := j + 1;
    }
  }

  /** `(a + b).startswith(a)`, and a string starting with `p` is `p` followed by the rest. */
  lemma StartsWithPrefix(a: string, b: string)
    ensures StartsWith(a + b, a)
    ensures StartsWith(b, a) ==> b == a + b[|a|..]
  {
    assert (a + b)[..|a|] == a;
    if StartsWith(b, a) {
      assert b == b[..|a|] + b[|a|..];
    }
  }

  /** `(a + b).endswith(b)`, and a string ending with `p` is the rest followed by `p`. */
  lemma EndsWithSuffix(a: string, b: string)
    ensures EndsWith(a + b, b)
    ensures EndsWith(a, b) ==> a == a[..|a| - |b|] + b
  {
    assert (a + b)[|a + b| - |b|..] == b;
    if EndsWith(a, b) {
      assert a == a[..|a| - |b|] + a[|a| - |b|..];
    }
  }


  // ---------------------------------------------------------------------
  // Decimal digits and `str(n)`
  // ---------------------------------------------------------------------

  predicate IsDigit(c: char)
  {
    '0' <= c <= '9'
  }

  predicate AllDigits(s: string)
  {
    forall k :: 0 <= k < |s| ==> IsDigit(s[k])
  }

  function DigitChar(d: nat): (c: char)
    requires d < 10
    ensures IsDigit(c)
  {
    (48 + d) as char
  }

  function DigitValue(c: char): (d: nat)
    requires IsDigit(c)
    ensures d < 10
  {
    (c as int - 48) as nat
  }

  /** The number a string of decimal digits denotes (`int(s)`). */
  function DigitsValue(s: string): nat
    requires AllDigits(s)
  {
    if s == [] then 0 else 10 * DigitsValue(s[..|s| - 1]) + DigitValue(s[|s| - 1])
  }

  /**
    * `str(n)` for a non-negative integer: decimal digits without a leading
    * zero, which read back as `n`.
    */
  function DecimalString(n: nat): (s: string)
    ensures s != [] && AllDigits(s)
    ensures DigitsValue(s) == n
    ensures s[0] == '0' ==> n == 0
  {
    if n < 10 then [DigitChar(n)]
    else
      var s := DecimalString(n / 10) + [DigitChar(n % 10)];
      assert s[..|s| - 1] == DecimalString(n / 10);
      s
  }
}
