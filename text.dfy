/** The few string and sequence operations of Python's runtime that the
    forensics engine relies on: `str.isspace`, `str.strip`, `str.split()`,
    substring search (`in`, `find`), `os.path.basename`, and hexadecimal
    numerals as `int(s, 16)` reads them and `hex(n)` writes them. */
module Text {
  import opened Wrappers

  /** Python's `str.isspace` for a single character: the separators that
      `str.split()` and `str.strip()` use when given no argument. */
  predicate IsSpace(c: char) {
    || c == ' '
    || ('\t' <= c <= '\r')
    || ('\U{1c}' <= c <= '\U{1f}')
    || c == '\U{85}' || c == '\U{a0}' || c == '\U{1680}'
    || ('\U{2000}' <= c <= '\U{200a}')
    || c == '\U{2028}' || c == '\U{2029}' || c == '\U{202f}' || c == '\U{205f}' || c == '\U{3000}'
  }

  // ---------------------------------------------------------------------
  // Substring search

  /** `p` occurs in `s` starting at position `i`. */
  predicate OccursAt<T(==)>(s: seq<T>, p: seq<T>, i: nat) {
    i + |p| <= |s| && s[i..i + |p|] == p
  }

  /** The first position at or after `from` where `p` occurs in `s`. */
  function FindFrom<T(==)>(s: seq<T>, p: seq<T>, from: nat): Option<nat>
    decreases |s| - from
  {
    if from + |p| > |s| then None
    else if s[from..from + |p|] == p then Some(from)
    else FindFrom(s, p, from + 1)
  }

  /** Python's `s.find(p)`, with "not found" as `None`. */
  function Find<T(==)>(s: seq<T>, p: seq<T>): Option<nat> {
    FindFrom(s, p, 0)
  }

  /** Python's `p in s` for strings and byte strings. */
  predicate Contains<T(==)>(s: seq<T>, p: seq<T>) {
    Find(s, p).Some?
  }

  lemma {:induction false} FindFromSpec<T>(s: seq<T>, p: seq<T>, from: nat)
    decreases |s| - from
    ensures var r := FindFrom(s, p, from);
      && (r.Some? ==> from <= r.value && OccursAt(s, p, r.value))
      && (r.Some? ==> forall i :: from <= i < r.value ==> !OccursAt(s, p, i))
      && (r.None? ==> forall i :: from <= i ==> !OccursAt(s, p, i))
  {
    if from + |p| <= |s| && s[from..from + |p|] != p {
      FindFromSpec(s, p, from + 1);
    }
  }

  /** `find` returns the first position where `p` occurs, and "not found"
      exactly when `p` occurs nowhere. */
  lemma FindSpec<T>(s: seq<T>, p: seq<T>)
    ensures Find(s, p).Some? ==>
      && OccursAt(s, p, Find(s, p).value)
      && forall i :: 0 <= i < Find(s, p).value ==> !OccursAt(s, p, i)
    ensures Find(s, p).None? <==> forall i :: !OccursAt(s, p, i)
  {
    FindFromSpec(s, p, 0);
  }

  /** A pattern that occurs somewhere is contained. */
  lemma OccursThenContains<T>(s: seq<T>, p: seq<T>, i: nat)
    requires OccursAt(s, p, i)
    ensures Contains(s, p)
  {
    FindSpec(s, p);
  }

  /** A pattern whose first element never appears in `s` does not occur in it. */
  lemma NotContainedWithoutFirst<T>(s: seq<T>, p: seq<T>)
    requires |p| > 0 && p[0] !in s
    ensures !Contains(s, p)
  {
    FindSpec(s, p);
  }

  // ---------------------------------------------------------------------
  // strip() and split()

  /** Python's `s.lstrip()`: drops exactly the leading whitespace. */
  function StripLeft(s: string): (r: string)
    ensures |r| <= |s| && r == s[|s| - |r|..]
    ensures forall i :: 0 <= i < |s| - |r| ==> IsSpace(s[i])
    ensures r == [] || !IsSpace(r[0])
  {
    if s != [] && IsSpace(s[0]) then StripLeft(s[1..]) else s
  }

  /** Python's `s.rstrip()`: drops exactly the trailing whitespace. */
  function StripRight(s: string): (r: string)
    ensures |r| <= |s| && r == s[..|r|]
    ensures forall i :: |r| <= i < |s| ==> IsSpace(s[i])
    ensures r == [] || !IsSpace(r[|r| - 1])
  {
    if s != [] && IsSpace(s[|s| - 1]) then StripRight(s[..|s| - 1]) else s
  }

  /** Python's `s.strip()`: what is left neither starts nor ends with whitespace. */
  function Strip(s: string): (r: string)
    ensures r == [] || (!IsSpace(r[0]) && !IsSpace(r[|r| - 1]))
  {
    StripRight(StripLeft(s))
  }

  /** The length of the run of non-whitespace characters that starts `s`. */
  function TokenLength(s: string): (n: nat)
    ensures n <= |s|
    ensures forall i :: 0 <= i < n ==> !IsSpace(s[i])
    ensures n < |s| ==> IsSpace(s[n])
  {
    if s == [] || IsSpace(s[0]) then 0 else 1 + TokenLength(s[1..])
  }

  /** A token of `str.split()`: non-empty and free of whitespace. */
  predicate IsToken(t: string) {
    |t| > 0 && forall i :: 0 <= i < |t| ==> !IsSpace(t[i])
  }

  /** `s` with every whitespace character removed. */
  function Squeeze(s: string): string {
    if s == [] then [] else (if IsSpace(s[0]) then [] else [s[0]]) + Squeeze(s[1..])
  }

  /** The tokens glued back together, without separators. */
  function Concat(ts: seq<string>): string {
    if ts == [] then [] else ts[0] + Concat(ts[1..])
  }

  lemma {:induction false} SqueezeKeepsToken(s: string, n: nat)
    requires n <= |s| && forall i :: 0 <= i < n ==> !IsSpace(s[i])
    ensures Squeeze(s) == s[..n] + Squeeze(s[n..])
    decreases n
  {
    if n > 0 {
      SqueezeKeepsToken(s[1..], n - 1);
      assert s[1..][..n - 1] == s[1..n];
      assert s[1..][n - 1..] == s[n..];
      assert s[..n] == [s[0]] + s[1..n];
    }
  }

  /** Python's `s.split()` with no argument: the maximal runs of
      non-whitespace characters, in order. Together the tokens hold exactly
      the non-whitespace characters of `s`. */
  function Split(s: string): (r: seq<string>)
    decreases |s|
    ensures forall t :: t in r ==> IsToken(t)
    ensures Concat(r) == Squeeze(s)
    ensures s != [] && !IsSpace(s[0]) ==> r != [] && r[0] == s[..TokenLength(s)]
  {
    if s == [] then []
    else if IsSpace(s[0]) then Split(s[1..])
    else
      var n := TokenLength(s);
      var rest := Split(s[n..]);
      SqueezeKeepsToken(s, n);
      assert Concat([s[..n]] + rest) == s[..n] + Concat(rest) by {
        assert ([s[..n]] + rest)[1..] == rest;
      }
      [s[..n]] + rest
  }

  // ---------------------------------------------------------------------
  // Paths

  /** Python's `os.path.basename` on POSIX: the longest suffix of `p`
      that holds no '/'. */
  function Basename(p: string): (r: string)
    ensures |r| <= |p| && r == p[|p| - |r|..]
    ensures '/' !in r
    ensures |r| < |p| ==> p[|p| - |r| - 1] == '/'
  {
    if p == [] || p[|p| - 1] == '/' then []
    else
      var r := Basename(p[..|p| - 1]) + [p[|p| - 1]];
      assert p[..|p| - 1][|p| - 1 - (|r| - 1)..] + [p[|p| - 1]] == p[|p| - |r|..];
      r
  }

  // ---------------------------------------------------------------------
  // Hexadecimal numerals

  predicate IsHexDigit(c: char) {
    ('0' <= c <= '9') || ('a' <= c <= 'f') || ('A' <= c <= 'F')
  }

  /** A non-empty string of hexadecimal digits. */
  predicate IsHexNumeral(s: string) {
    |s| > 0 && forall i :: 0 <= i < |s| ==> IsHexDigit(s[i])
  }

  function DigitValue(c: char): (v: nat)
    requires IsHexDigit(c)
    ensures v < 16
  {
    if '0' <= c <= '9' then (c as int - '0' as int)
    else if 'a' <= c <= 'f' then (c as int - 'a' as int) + 10
    else (c as int - 'A' as int) + 10
  }

  /** The value of a string of hexadecimal digits, most significant first. */
  function HexValue(s: string): nat
    requires forall i :: 0 <= i < |s| ==> IsHexDigit(s[i])
  {
    if s == [] then 0 else HexValue(s[..|s| - 1]) * 16 + DigitValue(s[|s| - 1])
  }

  /** Digits with single underscores allowed between them, as Python's
      numeric literals permit. */
  predicate IsGroupedHex(s: string) {
    && |s| > 0
    && IsHexDigit(s[0])
    && IsHexDigit(s[|s| - 1])
    && (forall i :: 0 <= i < |s| ==> IsHexDigit(s[i]) || s[i] == '_')
    && (forall i :: 0 <= i < |s| - 1 && s[i] == '_' ==> s[i + 1] != '_')
  }

  /** `s` with its underscores removed. */
  function Ungroup(s: string): (r: string)
    ensures '_' !in s ==> r == s
    ensures (forall i :: 0 <= i < |s| ==> IsHexDigit(s[i]) || s[i] == '_') ==>
              forall i :: 0 <= i < |r| ==> IsHexDigit(r[i])
  {
    if s == [] then []
    else Ungroup(s[..|s| - 1]) + (if s[|s| - 1] == '_' then [] else [s[|s| - 1]])
  }

  /** Python's `int(s, 16)` on a string without surrounding whitespace: an
      optional sign, an optional "0x" or "0X" prefix (which may be followed
      by one underscore), then hexadecimal digits with single underscores
      between them. Anything else raises ValueError, here `None`. */
  function ParseHexInt(s: string): (r: Option<int>)
    ensures IsHexNumeral(s) ==> r == Some(HexValue(s))
    ensures s == [] ==> r.None?
  {
    PlainNumeralIsGrouped(s);
    var signed := s != [] && (s[0] == '+' || s[0] == '-');
    var digits := WithoutHexPrefix(if signed then s[1..] else s);
    if IsGroupedHex(digits) then
      var v: int := HexValue(Ungroup(digits));
      Some(if signed && s[0] == '-' then -v else v)
    else None
  }

  /** A plain numeral has no underscores, so its digit groups are valid
      and removing underscores leaves it as it is. */
  lemma PlainNumeralIsGrouped(s: string)
    ensures IsHexNumeral(s) ==> '_' !in s && IsGroupedHex(s) && Ungroup(s) == s
  {
    if IsHexNumeral(s) {
      forall i | 0 <= i < |s| ensures s[i] != '_' { assert IsHexDigit(s[i]); }
    }
  }

  /** The digits after an optional "0x" or "0X" prefix and the one
      underscore Python allows right after it. */
  function WithoutHexPrefix(u: string): (d: string)
    ensures IsHexNumeral(u) ==> d == u
    ensures d == [] ==> |u| <= 3
  {
    if |u| >= 2 && u[0] == '0' && (u[1] == 'x' || u[1] == 'X') then
      (if |u| >= 3 && u[2] == '_' then u[3..] else u[2..])
    else u
  }

  function HexChar(d: nat): (c: char)
    requires d < 16
    ensures IsHexDigit(c) && DigitValue(c) == d
  {
    if d < 10 then ('0' as int + d) as char else ('a' as int + d - 10) as char
  }

  /** The digits Python's `hex(n)` writes after its "0x" prefix: lower-case,
      most significant first, no leading zeros. */
  function ToHex(n: nat): (s: string)
    ensures IsHexNumeral(s)
  {
    if n < 16 then [HexChar(n)] else ToHex(n / 16) + [HexChar(n % 16)]
  }

  lemma {:induction false} HexValueOfToHex(n: nat)
    ensures HexValue(ToHex(n)) == n
  {
    var s := ToHex(n);
    if n < 16 {
      assert s[..|s| - 1] == [];
    } else {
      HexValueOfToHex(n / 16);
      assert s[..|s| - 1] == ToHex(n / 16);
    }
  }

  /** Reading back what `hex` wrote gives the number again, with or without
      its "0x" prefix. */
  lemma ParseHexIntOfToHex(n: nat)
    ensures ParseHexInt(ToHex(n)) == Some(n)
    ensures ParseHexInt("0x" + ToHex(n)) == Some(n)
  {
    HexValueOfToHex(n);
    PrefixedHexNumeral(ToHex(n));
  }

  /** A numeral written with Python's "0x" prefix reads as its digits do. */
  lemma PrefixedHexNumeral(s: string)
    requires IsHexNumeral(s)
    ensures ParseHexInt("0x" + s) == Some(HexValue(s))
  {
    var p := "0x" + s;
    assert p[2..] == s;
    assert p[2] == s[0] && IsHexDigit(s[0]);
    assert WithoutHexPrefix(p) == s;
    assert !(p[0] == '+' || p[0] == '-');
    PlainNumeralIsGrouped(s);
  }

  /** A minus sign in front of a numeral negates its value. */
  lemma NegatedHexNumeral(s: string)
    requires |s| > 0 && s[0] == '-' && IsHexNumeral(s[1..])
    ensures ParseHexInt(s) == Some(-(HexValue(s[1..]) as int))
  {
    var t := s[1..];
    assert WithoutHexPrefix(t) == t;
    PlainNumeralIsGrouped(t);
  }

  /** A plus sign in front of a numeral keeps its value. */
  lemma PlusHexNumeral(s: string)
    requires |s| > 0 && s[0] == '+' && IsHexNumeral(s[1..])
    ensures ParseHexInt(s) == Some(HexValue(s[1..]))
  {
    var t := s[1..];
    assert WithoutHexPrefix(t) == t;
    PlainNumeralIsGrouped(t);
  }

  /** `int(s, 16)` raises ValueError on a text holding a character that is
      neither a hexadecimal digit nor one of the sign, prefix and grouping
      characters. */
  lemma ParseHexIntRejects(s: string, i: nat)
    requires i < |s| && !IsHexDigit(s[i]) && s[i] !in "+-_xX"
    ensures ParseHexInt(s).None?
  {
    var o := if s[0] == '+' || s[0] == '-' then 1 else 0;
    var u := s[o..];
    var p := if |u| >= 2 && u[0] == '0' && (u[1] == 'x' || u[1] == 'X') then
               (if |u| >= 3 && u[2] == '_' then 3 else 2)
             else 0;
    assert WithoutHexPrefix(u) == u[p..];
    // The sign and the prefix are made of digits and of `+ - _ x X` only.
    assert forall k :: 0 <= k < o + p ==> IsHexDigit(s[k]) || s[k] in "+-_xX" by {
      forall k | 0 <= k < o + p ensures IsHexDigit(s[k]) || s[k] in "+-_xX" {
        if k >= o { assert s[k] == u[k - o]; }
      }
    }
    assert u[p..][i - o - p] == s[i];
  }

  // ---------------------------------------------------------------------
  // Splitting at one separator

  /** The first position of `c` in `s`. */
  function IndexOf(s: string, c: char): (r: Option<nat>)
    ensures r.Some? ==> r.value < |s| && s[r.value] == c && c !in s[..r.value]
    ensures r.None? ==> c !in s
  {
    if s == [] then None
    else if s[0] == c then Some(0)
    else match IndexOf(s[1..], c)
      case None => None
      case Some(i) => assert s[..i + 1] == [s[0]] + s[1..][..i]; Some(i + 1)
  }

  /** Python's `a, b = s.split(sep)`: succeeds exactly when `sep` occurs
      once, giving the text before and after it; otherwise the unpacking
      raises ValueError, here `None`. */
  function SplitInTwo(s: string, sep: char): (r: Option<(string, string)>)
    ensures r.Some? ==> r.value.0 + [sep] + r.value.1 == s && sep !in r.value.0 && sep !in r.value.1
    ensures r.None? ==> sep !in s || exists i, j :: 0 <= i < j < |s| && s[i] == sep && s[j] == sep
  {
    match IndexOf(s, sep)
    case None => None
    case Some(i) =>
      if sep in s[i + 1..] then
        var j :| i + 1 <= j < |s| && s[j] == sep && s[i + 1..][j - (i + 1)] == sep;
        None
      else Some((s[..i], s[i + 1..]))
  }

  // ---------------------------------------------------------------------
  // Joining tokens

  /** Tokens written out with one space between each two. */
  function JoinSpaced(ts: seq<string>): string {
    if ts == [] then [] else if |ts| == 1 then ts[0] else ts[0] + " " + JoinSpaced(ts[1..])
  }

  lemma {:induction false} TokenLengthOfToken(t: string, rest: string)
    requires IsToken(t) && (rest == [] || IsSpace(rest[0]))
    ensures TokenLength(t + rest) == |t|
    decreases |t|
  {
    if |t| > 1 {
      TokenLengthOfToken(t[1..], rest);
      assert (t + rest)[1..] == t[1..] + rest;
    } else {
      assert (t + rest)[1..] == rest;
    }
  }

  lemma JoinSpacedEnds(ts: seq<string>)
    requires ts != [] && forall t :: t in ts ==> IsToken(t)
    ensures JoinSpaced(ts) != [] && ts[0] != []
    ensures JoinSpaced(ts)[0] == ts[0][0]
    ensures !IsSpace(JoinSpaced(ts)[|JoinSpaced(ts)| - 1])
  {
    assert IsToken(ts[0]) by { assert ts[0] in ts; }
    if |ts| > 1 {
      assert forall t :: t in ts[1..] ==> t in ts;
      JoinSpacedEnds(ts[1..]);
    } else {
      assert ts[0][|ts[0]| - 1] == JoinSpaced(ts)[|JoinSpaced(ts)| - 1];
    }
  }

  /** Whitespace in front of the text does not change its split. */
  lemma {:induction false} SplitSkipsWhitespace(ws: string, rest: string)
    requires forall i :: 0 <= i < |ws| ==> IsSpace(ws[i])
    ensures Split(ws + rest) == Split(rest)
    decreases |ws|
  {
    if ws != [] {
      assert (ws + rest)[0] == ws[0] && IsSpace(ws[0]);
      assert (ws + rest)[1..] == ws[1..] + rest;
      assert forall i :: 0 <= i < |ws| - 1 ==> ws[1..][i] == ws[i + 1];
      SplitSkipsWhitespace(ws[1..], rest);
    } else {
      assert ws + rest == rest;
    }
  }

  /** A token followed by whitespace, or by nothing, is the first word of
      the split. */
  lemma SplitLeadingToken(t: string, s: string)
    requires IsToken(t) && (s == [] || IsSpace(s[0]))
    ensures Split(t + s) == [t] + Split(s)
  {
    TokenLengthOfToken(t, s);
    assert (t + s)[..|t|] == t;
    assert (t + s)[|t|..] == s;
  }

  /** However much whitespace separates a token from the rest, the split
      is that token followed by the split of the rest. */
  lemma SplitTokenThenWhitespace(t: string, ws: string, rest: string)
    requires IsToken(t) && ws != [] && forall i :: 0 <= i < |ws| ==> IsSpace(ws[i])
    ensures Split(t + ws + rest) == [t] + Split(rest)
    ensures Split(ws + rest) == Split(rest)
  {
    assert t + ws + rest == t + (ws + rest);
    SplitLeadingToken(t, ws + rest);
    SplitSkipsWhitespace(ws, rest);
  }

  /** Whitespace after the text does not change its split. */
  lemma {:induction false} SplitIgnoresTrailingWhitespace(x: string, ws: string)
    requires forall i :: 0 <= i < |ws| ==> IsSpace(ws[i])
    ensures Split(x + ws) == Split(x)
    decreases |x|
  {
    if x == [] {
      assert x + ws == ws + [];
      SplitSkipsWhitespace(ws, []);
    } else if IsSpace(x[0]) {
      assert (x + ws)[0] == x[0];
      assert (x + ws)[1..] == x[1..] + ws;
      SplitIgnoresTrailingWhitespace(x[1..], ws);
    } else {
      var n := TokenLength(x);
      var t, after := x[..n], x[n..];
      assert IsToken(t);
      assert x == t + after;
      assert x + ws == t + (after + ws);
      if n < |x| {
        assert (after + ws)[0] == x[n];
        SplitLeadingToken(t, after + ws);
        SplitLeadingToken(t, after);
        SplitIgnoresTrailingWhitespace(after, ws);
      } else {
        assert after == [] && after + ws == ws;
        SplitLeadingToken(t, ws);
        SplitLeadingToken(t, after);
        SplitSkipsWhitespace(ws, []);
        assert ws + [] == ws;
      }
    }
  }

  /** Python's `s.strip().split()` is `s.split()`. */
  lemma SplitOfStripped(s: string)
    ensures Split(Strip(s)) == Split(s)
  {
    SplitOfStripLeft(s);
    SplitOfStripRight(StripLeft(s));
  }

  /** Leading whitespace does not count for the split. */
  lemma SplitOfStripLeft(s: string)
    ensures Split(StripLeft(s)) == Split(s)
  {
    var l := StripLeft(s);
    var lead := s[..|s| - |l|];
    assert s == lead + l;
    assert forall i :: 0 <= i < |lead| ==> IsSpace(lead[i]);
    SplitSkipsWhitespace(lead, l);
  }

  /** Nor does trailing whitespace. */
  lemma SplitOfStripRight(s: string)
    ensures Split(StripRight(s)) == Split(s)
  {
    var r := StripRight(s);
    var trail := s[|r|..];
    assert s == r + trail;
    assert forall i :: 0 <= i < |trail| ==> IsSpace(trail[i]);
    SplitIgnoresTrailingWhitespace(r, trail);
  }

  /** A non-empty run of whitespace. */
  predicate IsGap(g: string) {
    g != [] && forall i :: 0 <= i < |g| ==> IsSpace(g[i])
  }

  /** Tokens written out with the given runs of whitespace between them. */
  function Spaced(ts: seq<string>, gaps: seq<string>): string
    requires |ts| == |gaps| + 1
    decreases |gaps|
  {
    if gaps == [] then ts[0] else ts[0] + gaps[0] + Spaced(ts[1..], gaps[1..])
  }

  /** Splitting tokens separated by any runs of whitespace, with any
      whitespace after the last, gives the tokens back. */
  lemma {:induction false} SplitSpaced(ts: seq<string>, gaps: seq<string>, tail: string)
    requires |ts| == |gaps| + 1
    requires forall t :: t in ts ==> IsToken(t)
    requires forall g :: g in gaps ==> IsGap(g)
    requires forall i :: 0 <= i < |tail| ==> IsSpace(tail[i])
    ensures Split(Spaced(ts, gaps) + tail) == ts
    decreases |gaps|
  {
    assert IsToken(ts[0]) by { assert ts[0] in ts; }
    if gaps == [] {
      SplitLeadingToken(ts[0], tail);
      SplitSkipsWhitespace(tail, []);
      assert tail + [] == tail;
      assert ts == [ts[0]];
    } else {
      var rest := Spaced(ts[1..], gaps[1..]) + tail;
      assert Spaced(ts, gaps) + tail == ts[0] + gaps[0] + rest;
      assert IsGap(gaps[0]) by { assert gaps[0] in gaps; }
      SplitTokenThenWhitespace(ts[0], gaps[0], rest);
      assert forall t :: t in ts[1..] ==> t in ts;
      assert forall g :: g in gaps[1..] ==> g in gaps;
      SplitSpaced(ts[1..], gaps[1..], tail);
      assert ts == [ts[0]] + ts[1..];
    }
  }

  /** Splitting tokens written out with single spaces gives the tokens back. */
  lemma {:induction false} SplitJoinSpaced(ts: seq<string>)
    requires forall t :: t in ts ==> IsToken(t)
    ensures Split(JoinSpaced(ts)) == ts
  {
    if ts != [] {
      assert IsToken(ts[0]) by { assert ts[0] in ts; }
      if |ts| == 1 {
        SplitLeadingToken(ts[0], []);
        assert JoinSpaced(ts) == ts[0] + [];
      } else {
        SplitTokenThenWhitespace(ts[0], " ", JoinSpaced(ts[1..]));
        assert JoinSpaced(ts) == ts[0] + " " + JoinSpaced(ts[1..]);
        SplitJoinSpaced(ts[1..]);
      }
    }
  }

  /** Stripping a line of spaced tokens and its newline gives the tokens'
      text, so `line.strip().split()` gives the tokens back. */
  lemma SplitStrippedLine(ts: seq<string>)
    requires ts != [] && forall t :: t in ts ==> IsToken(t)
    ensures Split(Strip(JoinSpaced(ts) + "\n")) == ts
  {
    var s := JoinSpaced(ts);
    var line := s + "\n";
    JoinSpacedEnds(ts);
    assert IsToken(ts[0]) by { assert ts[0] in ts; }
    assert line[0] == s[0];
    assert StripLeft(line) == line;
    assert line[..|line| - 1] == s;
    assert StripRight(line) == StripRight(s) == s;
    SplitJoinSpaced(ts);
  }

}
