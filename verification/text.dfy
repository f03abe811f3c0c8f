/**
 * The handful of Python `str` operations the pipeline relies on: `lower`, `strip`, `replace`,
 * `str(n)` for a non-negative integer, and the regular-expression substitution that turns a
 * double-quoted span into a bracketed one.
 */
module Text {

  predicate IsUpper(c: char) { 'A' <= c <= 'Z' }

  predicate IsDigit(c: char) { '0' <= c <= '9' }

  /** `str.isspace` restricted to the ASCII and Latin-1 range. */
  predicate IsSpace(c: char) {
    var n := c as int;
    n == 32 || 9 <= n <= 13 || 28 <= n <= 31 || n == 0x85 || n == 0xA0
  }

  predicate NoUpper(s: string) { forall i :: 0 <= i < |s| ==> !IsUpper(s[i]) }

  predicate Lacks(s: string, c: char) { forall i :: 0 <= i < |s| ==> s[i] != c }

  function LowerChar(c: char): (r: char)
    ensures !IsUpper(r)
    ensures !IsUpper(c) ==> r == c
  {
    if IsUpper(c) then (c as int + 32) as char else c
  }

  /** `str.lower` on ASCII letters. */
  function Lower(s: string): (r: string)
    ensures |r| == |s| && NoUpper(r)
    ensures forall i :: 0 <= i < |s| ==> r[i] == LowerChar(s[i])
  {
    seq(|s|, i requires 0 <= i < |s| => LowerChar(s[i]))
  }

  lemma LowerOfLowered(s: string)
    requires NoUpper(s)
    ensures Lower(s) == s
  {
  }

  // ---------------------------------------------------------------------------------------------
  // strip

  function TrimStart(s: string): (r: string)
    ensures |r| <= |s| && r == s[|s| - |r|..]
    ensures r == [] || !IsSpace(r[0])
    ensures forall k :: 0 <= k < |s| - |r| ==> IsSpace(s[k])
    decreases |s|
  {
    if s != [] && IsSpace(s[0]) then TrimStart(s[1..]) else s
  }

  function TrimEnd(s: string): (r: string)
    ensures |r| <= |s| && r == s[..|r|]
    ensures r == [] || !IsSpace(r[|r| - 1])
    ensures forall k :: |r| <= k < |s| ==> IsSpace(s[k])
    decreases |s|
  {
    if s != [] && IsSpace(s[|s| - 1]) then TrimEnd(s[..|s| - 1]) else s
  }

  /**
   * `str.strip()`: `s` without its leading and trailing white space, a contiguous part of `s`
   * that neither starts nor ends with white space.
   */
  function Strip(s: string): (r: string)
    ensures |r| <= |s|
    ensures Contains(s, r)
    ensures r == [] || (!IsSpace(r[0]) && !IsSpace(r[|r| - 1]))
    ensures exists i, j :: StrippedAt(s, r, i, j)
  {
    var t := TrimStart(s);
    TrimmedSpan(s, t, TrimEnd(t));
    TrimEnd(t)
  }

  /**
   * A suffix `t` of `s` after white space, and a prefix `r` of `t` before white space, is the
   * span of `s` between its leading and its trailing white space.
   */
  lemma TrimmedSpan(s: string, t: string, r: string)
    requires |t| <= |s| && t == s[|s| - |t|..]
    requires |r| <= |t| && r == t[..|r|]
    requires forall k :: 0 <= k < |s| - |t| ==> IsSpace(s[k])
    requires forall k :: |r| <= k < |t| ==> IsSpace(t[k])
    ensures OccursAt(s, r, |s| - |t|)
    ensures StrippedAt(s, r, |s| - |t|, |s| - |t| + |r|)
  {
    var i, j := |s| - |t|, |s| - |t| + |r|;
    assert r == s[i..j];
    forall k | j <= k < |s|
      ensures IsSpace(s[k])
    {
      assert s[k] == t[k - i];
    }
  }

  /** `r` is `s[i..j]`, and everything of `s` before `i` and from `j` on is white space. */
  predicate StrippedAt(s: string, r: string, i: int, j: int) {
    && 0 <= i <= j <= |s| && r == s[i..j]
    && (forall k :: 0 <= k < i ==> IsSpace(s[k]))
    && (forall k :: j <= k < |s| ==> IsSpace(s[k]))
  }

  lemma {:induction false} TrimStartPadded(pre: string, rest: string)
    requires forall k :: 0 <= k < |pre| ==> IsSpace(pre[k])
    requires rest == [] || !IsSpace(rest[0])
    ensures TrimStart(pre + rest) == rest
    decreases |pre|
  {
    if pre != [] {
      assert (pre + rest)[1..] == pre[1..] + rest;
      TrimStartPadded(pre[1..], rest);
    } else {
      assert pre + rest == rest;
    }
  }

  lemma {:induction false} TrimEndPadded(w: string, post: string)
    requires forall k :: 0 <= k < |post| ==> IsSpace(post[k])
    requires w == [] || !IsSpace(w[|w| - 1])
    ensures TrimEnd(w + post) == w
    decreases |post|
  {
    if post != [] {
      var n := |post| - 1;
      assert (w + post)[..|w + post| - 1] == w + post[..n];
      TrimEndPadded(w, post[..n]);
    } else {
      assert w + post == w;
    }
  }

  /** White space at both ends of a word is dropped, and nothing else. */
  lemma StripPadded(pre: string, w: string, post: string)
    requires forall k :: 0 <= k < |pre| ==> IsSpace(pre[k])
    requires forall k :: 0 <= k < |post| ==> IsSpace(post[k])
    requires w == [] || (!IsSpace(w[0]) && !IsSpace(w[|w| - 1]))
    ensures Strip(pre + w + post) == w
  {
    if w == [] {
      assert pre + w + post == (pre + post) + [];
      TrimStartPadded(pre + post, []);
    } else {
      assert pre + w + post == pre + (w + post);
      TrimStartPadded(pre, w + post);
      TrimEndPadded(w, post);
    }
  }

  /** Stripping a string that neither starts nor ends with white space changes nothing. */
  lemma StripOfStripped(s: string)
    requires s == [] || (!IsSpace(s[0]) && !IsSpace(s[|s| - 1]))
    ensures Strip(s) == s
  {
  }

  // ---------------------------------------------------------------------------------------------
  // replace

  predicate OccursAt(s: string, p: string, i: nat) {
    i + |p| <= |s| && s[i..i + |p|] == p
  }

  predicate Contains(s: string, p: string) {
    exists i: nat | i <= |s| :: OccursAt(s, p, i)
  }

  predicate StartsWith(s: string, p: string) {
    |p| <= |s| && s[..|p|] == p
  }

  /**
   * `s.replace(pat, rep)`: scanning from the left, every occurrence of `pat` that does not overlap
   * an earlier replaced one becomes `rep`.
   */
  function ReplaceAll(s: string, pat: string, rep: string): (r: string)
    requires |pat| > 0
    ensures |rep| == |pat| ==> |r| == |s|
    decreases |s|
  {
    if |s| < |pat| then s
    else if s[..|pat|] == pat then rep + ReplaceAll(s[|pat|..], pat, rep)
    else [s[0]] + ReplaceAll(s[1..], pat, rep)
  }

  /** A string with no occurrence of the pattern comes back unchanged. */
  lemma {:induction false} ReplaceAbsent(s: string, pat: string, rep: string)
    requires |pat| > 0 && !Contains(s, pat)
    ensures ReplaceAll(s, pat, rep) == s
    decreases |s|
  {
    if |s| >= |pat| {
      assert !OccursAt(s, pat, 0);
      assert s[..|pat|] != pat;
      forall i: nat | OccursAt(s[1..], pat, i) ensures false {
        assert s[1..][i..i + |pat|] == s[i + 1..i + 1 + |pat|];
        assert OccursAt(s, pat, i + 1);
      }
      ReplaceAbsent(s[1..], pat, rep);
      assert [s[0]] + s[1..] == s;
    }
  }

  /** Every character of the result comes from the input or from the replacement. */
  lemma {:induction false} ReplaceChars(s: string, pat: string, rep: string, c: char)
    requires |pat| > 0 && c in ReplaceAll(s, pat, rep)
    ensures c in s || c in rep
    decreases |s|
  {
    if |s| >= |pat| {
      if s[..|pat|] == pat {
        if c !in rep {
          ReplaceChars(s[|pat|..], pat, rep, c);
        }
      } else if c != s[0] {
        ReplaceChars(s[1..], pat, rep, c);
      }
    }
  }

  /** Replacing a single character is a character-by-character map. */
  lemma {:induction false} ReplaceCharPointwise(s: string, a: char, b: char)
    ensures |ReplaceAll(s, [a], [b])| == |s|
    ensures forall i :: 0 <= i < |s| ==> ReplaceAll(s, [a], [b])[i] == (if s[i] == a then b else s[i])
    decreases |s|
  {
    if s != [] {
      ReplaceCharPointwise(s[1..], a, b);
    }
  }

  /**
   * When the replacement is non-empty and shares no character with the pattern, a prefix made
   * of pattern characters and shorter than the pattern can only stand at the head of the
   * result if it stood at the head of the input.
   */
  lemma {:induction false} ReplacePrefixBack(t: string, pat: string, rep: string, w: string)
    requires |pat| > 0 && |rep| > 0 && |w| < |pat|
    requires forall c :: c in rep ==> c !in pat
    requires forall c :: c in w ==> c in pat
    requires StartsWith(ReplaceAll(t, pat, rep), w)
    ensures StartsWith(t, w)
    decreases |t|
  {
    if |t| >= |pat| && w != [] {
      var r := ReplaceAll(t, pat, rep);
      assert w[0] in w && rep[0] in rep;
      assert r[0] == w[0] != rep[0];
      assert t[..|pat|] != pat;
      var r' := ReplaceAll(t[1..], pat, rep);
      assert r == [t[0]] + r';
      assert r'[..|w| - 1] == w[1..];
      forall c | c in w[1..] ensures c in pat {
        assert c in w;
      }
      ReplacePrefixBack(t[1..], pat, rep, w[1..]);
    }
  }

  /**
   * When the replacement is non-empty and shares no character with the pattern, no occurrence
   * of the pattern is left in the result.
   */
  lemma {:induction false} ReplaceRemoves(s: string, pat: string, rep: string)
    requires |pat| > 0 && |rep| > 0
    requires forall c :: c in rep ==> c !in pat
    ensures !Contains(ReplaceAll(s, pat, rep), pat)
    decreases |s|
  {
    var r := ReplaceAll(s, pat, rep);
    if |s| < |pat| {
      forall i: nat | i <= |r| ensures !OccursAt(r, pat, i) { }
    } else if s[..|pat|] == pat {
      ReplaceRemoves(s[|pat|..], pat, rep);
      assert r == rep + ReplaceAll(s[|pat|..], pat, rep);
      NoneAfterReplacement(rep, ReplaceAll(s[|pat|..], pat, rep), pat);
    } else {
      ReplaceRemoves(s[1..], pat, rep);
      assert r == [s[0]] + ReplaceAll(s[1..], pat, rep);
      KeptHeadStartsNone(s, pat, rep);
      NoneAfterKept(s[0], ReplaceAll(s[1..], pat, rep), pat);
    }
  }

  /** A replacement sharing no character with the pattern, followed by text without it, has none. */
  lemma NoneAfterReplacement(rep: string, rest: string, pat: string)
    requires |pat| > 0 && |rep| > 0
    requires forall c :: c in rep ==> c !in pat
    requires !Contains(rest, pat)
    ensures !Contains(rep + rest, pat)
  {
    var r := rep + rest;
    forall i: nat | i <= |r| ensures !OccursAt(r, pat, i) {
      if i < |rep| {
        assert rep[i] in rep && pat[0] in pat;
        assert r[i] == rep[i] != pat[0];
      } else if i + |pat| <= |r| {
        assert r[i..i + |pat|] == rest[i - |rep|..i - |rep| + |pat|];
        assert !OccursAt(rest, pat, i - |rep|);
      }
    }
  }

  /** A character at which no occurrence starts, followed by text without the pattern, has none. */
  lemma NoneAfterKept(c: char, rest: string, pat: string)
    requires |pat| > 0
    requires !Contains(rest, pat) && !OccursAt([c] + rest, pat, 0)
    ensures !Contains([c] + rest, pat)
  {
    var r := [c] + rest;
    forall i: nat | 0 < i <= |r| ensures !OccursAt(r, pat, i) {
      if i + |pat| <= |r| {
        assert r[i..i + |pat|] == rest[i - 1..i - 1 + |pat|];
        assert !OccursAt(rest, pat, i - 1);
      }
    }
  }

  /** No occurrence starts at a first character that was kept. */
  lemma KeptHeadStartsNone(s: string, pat: string, rep: string)
    requires |pat| > 0 && |rep| > 0 && |s| >= |pat| && s[..|pat|] != pat
    requires forall c :: c in rep ==> c !in pat
    ensures !OccursAt([s[0]] + ReplaceAll(s[1..], pat, rep), pat, 0)
  {
    var rest := ReplaceAll(s[1..], pat, rep);
    var r := [s[0]] + rest;
    if OccursAt(r, pat, 0) {
      assert StartsWith(rest, pat[1..]) by {
        assert rest[..|pat| - 1] == r[1..|pat|];
      }
      forall c | c in pat[1..] ensures c in pat { }
      ReplacePrefixBack(s[1..], pat, rep, pat[1..]);
      assert false;
    }
  }

  // ---------------------------------------------------------------------------------------------
  // str(n)

  function DigitChar(d: nat): (c: char)
    requires d < 10
    ensures IsDigit(c)
  {
    (48 + d) as char
  }

  /** `str(n)` for a non-negative integer: its decimal digits, never empty. */
  function NatToString(n: nat): (r: string)
    ensures |r| > 0
    ensures forall i :: 0 <= i < |r| ==> IsDigit(r[i])
    decreases n
  {
    if n < 10 then [DigitChar(n)] else NatToString(n / 10) + [DigitChar(n % 10)]
  }

  /** `str(n)` for any integer: a minus sign before the digits of a negative number. */
  function IntToString(n: int): (r: string)
    ensures |r| > 0
    ensures (r[0] == '-') == (n < 0)
  {
    if n < 0 then "-" + NatToString(-n) else NatToString(n)
  }

  // ---------------------------------------------------------------------------------------------
  // re.sub(r'"([^"]*)"', r"[\1]", s)

  /** The index of the first double quote at or after `from`, or `|s|` when there is none. */
  function NextQuote(s: string, from: nat): (k: nat)
    requires from <= |s|
    ensures from <= k <= |s|
    ensures forall i :: from <= i < k ==> s[i] != '"'
    ensures k < |s| ==> s[k] == '"'
    decreases |s| - from
  {
    if from == |s| || s[from] == '"' then from else NextQuote(s, from + 1)
  }

  /**
   * Each double-quoted span, found from the left without overlap, becomes a bracketed one: the
   * opening quote turns into `[` and the closing one into `]`. A final unmatched quote stays.
   */
  function QuoteToBracket(s: string): (r: string)
    ensures |r| == |s|
    decreases |s|
  {
    if s == [] then []
    else if s[0] != '"' then [s[0]] + QuoteToBracket(s[1..])
    else
      var k := NextQuote(s, 1);
      if k == |s| then s
      else ['['] + s[1..k] + [']'] + QuoteToBracket(s[k + 1..])
  }

  /** No double quote of `r` is followed by another. */
  predicate AtMostOneQuote(r: string) {
    forall i, j :: 0 <= i < j < |r| && r[i] == '"' ==> r[j] != '"'
  }

  /**
   * The rewrite keeps the length and every character other than a double quote, turns double
   * quotes only into brackets, and leaves at most one double quote behind.
   */
  lemma {:induction false} QuoteToBracketShape(s: string)
    ensures |QuoteToBracket(s)| == |s|
    ensures forall i :: 0 <= i < |s| && s[i] != '"' ==> QuoteToBracket(s)[i] == s[i]
    ensures forall i :: 0 <= i < |s| && s[i] == '"' ==> QuoteToBracket(s)[i] in "[]\""
    ensures AtMostOneQuote(QuoteToBracket(s))
    decreases |s|
  {
    var r := QuoteToBracket(s);
    if s == [] {
    } else if s[0] != '"' {
      var rest := QuoteToBracket(s[1..]);
      QuoteToBracketShape(s[1..]);
      assert r == [s[0]] + rest;
      forall i | 1 <= i < |s| ensures r[i] == rest[i - 1] && s[i] == s[1..][i - 1] {
      }
      forall i, j | 0 <= i < j < |r| && r[i] == '"' ensures r[j] != '"' {
        assert i > 0 && rest[i - 1] == '"';
      }
    } else {
      var k := NextQuote(s, 1);
      if k == |s| {
        assert r == s;
        forall i, j | 0 <= i < j < |r| && r[i] == '"' ensures r[j] != '"' {
        }
      } else {
        QuoteBracketSpan(s, k);
      }
    }
  }

  /** The case where the first character opens a span that the quote at `k` closes. */
  lemma {:induction false} QuoteBracketSpan(s: string, k: nat)
    requires 0 < |s| && s[0] == '"' && k < |s| && k == NextQuote(s, 1)
    ensures |QuoteToBracket(s)| == |s|
    ensures forall i :: 0 <= i < |s| && s[i] != '"' ==> QuoteToBracket(s)[i] == s[i]
    ensures forall i :: 0 <= i < |s| && s[i] == '"' ==> QuoteToBracket(s)[i] in "[]\""
    ensures AtMostOneQuote(QuoteToBracket(s))
    decreases |s|, 0
  {
    var r := QuoteToBracket(s);
    var tail := s[k + 1..];
    var rest := QuoteToBracket(tail);
    QuoteToBracketShape(tail);
    assert r == ['['] + s[1..k] + [']'] + rest;
    forall i | 0 <= i <= k ensures r[i] != '"' && (0 < i < k ==> r[i] == s[i]) && (i == 0 || i == k ==> r[i] in "[]") {
      if 0 < i < k {
        assert r[i] == s[1..k][i - 1];
      }
    }
    forall i | k < i < |s| ensures r[i] == rest[i - k - 1] && s[i] == tail[i - k - 1] {
    }
    forall i, j | 0 <= i < j < |r| && r[i] == '"' ensures r[j] != '"' {
      assert k < i && rest[i - k - 1] == '"';
      assert r[j] == rest[j - k - 1];
    }
  }

  /** A message without a double quote comes back unchanged. */
  lemma {:induction false} QuoteToBracketNoQuote(s: string)
    requires Lacks(s, '"')
    ensures QuoteToBracket(s) == s
    decreases |s|
  {
    if s != [] {
      QuoteToBracketNoQuote(s[1..]);
      assert [s[0]] + s[1..] == s;
    }
  }

  lemma {:induction false} QuoteToBracketPrefix(x: string, y: string)
    requires Lacks(x, '"')
    ensures QuoteToBracket(x + y) == x + QuoteToBracket(y)
    decreases |x|
  {
    if x != [] {
      assert x + y == [x[0]] + (x[1..] + y);
      QuoteToBracketCons(x[0], x[1..] + y);
      QuoteToBracketPrefix(x[1..], y);
      assert x + QuoteToBracket(y) == [x[0]] + (x[1..] + QuoteToBracket(y));
    } else {
      assert x + y == y;
    }
  }

  /** A leading character other than a quote is kept, and the rewrite carries on after it. */
  lemma QuoteToBracketCons(c: char, rest: string)
    requires c != '"'
    ensures QuoteToBracket([c] + rest) == [c] + QuoteToBracket(rest)
  {
    var s := [c] + rest;
    assert s[0] == c && s[1..] == rest;
  }

  /**
   * The first quoted span becomes a bracketed one: its opening quote turns into `[`, its
   * closing quote into `]`, the text between is kept, and the rewrite carries on after it.
   */
  lemma QuotedSpan(x: string, y: string, z: string)
    requires Lacks(x, '"') && Lacks(y, '"')
    ensures QuoteToBracket(x + "\"" + y + "\"" + z) == x + "[" + y + "]" + QuoteToBracket(z)
  {
    var s := "\"" + y + "\"" + z;
    assert x + "\"" + y + "\"" + z == x + s;
    QuoteToBracketPrefix(x, s);
    QuotedHead(y, z);
    assert x + "[" + y + "]" + QuoteToBracket(z) == x + ("[" + y + "]" + QuoteToBracket(z));
  }

  /** A message opening with a quoted span: the span is bracketed and the rest rewritten. */
  lemma QuotedHead(y: string, z: string)
    requires Lacks(y, '"')
    ensures QuoteToBracket("\"" + y + "\"" + z) == "[" + y + "]" + QuoteToBracket(z)
  {
    var s := "\"" + y + "\"" + z;
    var k := |y| + 1;
    assert s[k] == '"';
    assert forall i :: 1 <= i < k ==> s[i] == y[i - 1];
    assert NextQuote(s, 1) == k;
    assert s[1..k] == y && s[k + 1..] == z;
  }

  /** A quote with no later quote to close it is kept as it is. */
  lemma UnmatchedQuote(x: string, y: string)
    requires Lacks(x, '"') && Lacks(y, '"')
    ensures QuoteToBracket(x + "\"" + y) == x + "\"" + y
  {
    var s := "\"" + y;
    assert x + "\"" + y == x + s;
    QuoteToBracketPrefix(x, s);
    assert forall i :: 1 <= i < |s| ==> s[i] == y[i - 1];
    assert NextQuote(s, 1) == |s|;
  }

  /** Rewriting a second time changes nothing. */
  lemma {:induction false} QuoteToBracketIdempotent(s: string)
    ensures QuoteToBracket(QuoteToBracket(s)) == QuoteToBracket(s)
    decreases |s|
  {
    if s == [] {
    } else if s[0] != '"' {
      QuoteToBracketIdempotent(s[1..]);
      QuoteToBracketPrefix([s[0]], QuoteToBracket(s[1..]));
    } else {
      var k := NextQuote(s, 1);
      if k < |s| {
        var head := ['['] + s[1..k] + [']'];
        QuoteToBracketIdempotent(s[k + 1..]);
        QuoteToBracketPrefix(head, QuoteToBracket(s[k + 1..]));
      }
    }
  }
}
