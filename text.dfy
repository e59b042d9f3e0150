/**
 * The JavaScript string operations the core uses: `trim`, `split(/\s+/)`,
 * `split(sep)` / `join(sep)` on a one-character separator, and `substring`.
 * Strings are sequences of `char`, that is of Unicode scalar values; a
 * character outside the Basic Multilingual Plane is one `char` here.
 */
module Text {

  /**
   * The characters `\s` and `trim` treat as white space: ECMAScript's
   * WhiteSpace and LineTerminator productions.
   */
  predicate IsWhitespace(c: char) {
    c == ' ' || c == '\t' || c == '\n' || c == '\U{000B}' || c == '\U{000C}' || c == '\r'
    || c == '\U{00A0}' || c == '\U{1680}' || ('\U{2000}' <= c <= '\U{200A}')
    || c == '\U{2028}' || c == '\U{2029}' || c == '\U{202F}' || c == '\U{205F}'
    || c == '\U{3000}' || c == '\U{FEFF}'
  }

  predicate AllWhitespace(s: string) {
    forall i :: 0 <= i < |s| ==> IsWhitespace(s[i])
  }

  predicate NoWhitespace(s: string) {
    forall i :: 0 <= i < |s| ==> !IsWhitespace(s[i])
  }

  /** `trimStart`: drops the leading white space and nothing else. */
  function TrimStart(s: string): (r: string)
    ensures |r| <= |s| && r == s[|s| - |r|..]
    ensures AllWhitespace(s[..|s| - |r|])
    ensures r == [] || !IsWhitespace(r[0])
  {
    if s != [] && IsWhitespace(s[0]) then
      var r := TrimStart(s[1..]);
      DropOneBlank(s, r);
      r
    else s
  }

  /** One more leading blank in front of a text with a blank prefix. */
  lemma DropOneBlank(s: string, r: string)
    requires s != [] && IsWhitespace(s[0])
    requires |r| <= |s| - 1 && r == s[1..][|s| - 1 - |r|..] && AllWhitespace(s[1..][..|s| - 1 - |r|])
    ensures r == s[|s| - |r|..] && AllWhitespace(s[..|s| - |r|])
  {
    assert s[..|s| - |r|] == [s[0]] + s[1..][..|s| - 1 - |r|];
  }

  /** `trimEnd`: drops the trailing white space and nothing else. */
  function TrimEnd(s: string): (r: string)
    ensures |r| <= |s| && r == s[..|r|]
    ensures AllWhitespace(s[|r|..])
    ensures r == [] || !IsWhitespace(r[|r| - 1])
  {
    if s != [] && IsWhitespace(s[|s| - 1]) then TrimEnd(s[..|s| - 1]) else s
  }

  /** `trim`: a middle slice of `s` that neither starts nor ends with white space. */
  function Trim(s: string): (r: string)
    ensures |r| <= |s|
    ensures r == [] || (!IsWhitespace(r[0]) && !IsWhitespace(r[|r| - 1]))
  {
    TrimEndOfTrimStart(s);
    TrimEnd(TrimStart(s))
  }

  /** Trimming leaves nothing exactly when the text is blank. */
  lemma TrimEmptyIffBlank(s: string)
    ensures Trim(s) == [] <==> AllWhitespace(s)
  {
    TrimEndOfTrimStart(s);
  }

  lemma TrimEndOfTrimStart(s: string)
    ensures var r := TrimEnd(TrimStart(s));
      && (r == [] || !IsWhitespace(r[0]))
      && (r == [] <==> AllWhitespace(s))
  {
    TrimStartsOnText(s);
    TrimmedBlank(s, TrimStart(s));
    if AllWhitespace(s) {
      BlankTrimStart(s);
    }
  }

  lemma TrimStartsOnText(s: string)
    ensures var r := TrimEnd(TrimStart(s)); r == [] || !IsWhitespace(r[0])
  {
    var t := TrimStart(s);
    var r := TrimEnd(t);
    if r != [] {
      assert r[0] == t[0];
    }
  }

  lemma BlankTrimStart(s: string)
    requires AllWhitespace(s)
    ensures TrimStart(s) == []
  {
  }

  /** What `trimStart` and then `trimEnd` drop is white space only. */
  lemma TrimmedBlank(s: string, t: string)
    requires t == TrimStart(s)
    ensures TrimEnd(t) == [] ==> AllWhitespace(s)
  {
    if TrimEnd(t) == [] {
      assert t[0..] == t;
      assert s == s[..|s| - |t|] + t;
      AllWhitespaceConcat(s[..|s| - |t|], t);
    }
  }

  lemma AllWhitespaceConcat(a: string, b: string)
    requires AllWhitespace(a) && AllWhitespace(b)
    ensures AllWhitespace(a + b)
  {
  }

  /** `r` sits in `s` starting at offset `d`. */
  predicate SliceAt(s: string, r: string, d: int) {
    0 <= d <= |s| - |r| && s[d..d + |r|] == r
  }

  /**
   * The trimmed text is one contiguous piece of the input, and what lies
   * before and after it is white space only.
   */
  lemma TrimIsSlice(s: string)
    ensures exists d :: SliceAt(s, Trim(s), d) && AllWhitespace(s[..d]) && AllWhitespace(s[d + |Trim(s)|..])
  {
    var t := TrimStart(s);
    var r := TrimEnd(t);
    assert Trim(s) == r;
    SliceBetweenBlanks(s, t, r);
    var d := |s| - |t|;
    assert SliceAt(s, r, d) && AllWhitespace(s[..d]) && AllWhitespace(s[d + |r|..]);
  }

  /** A blank-led suffix `t` of `s` with a blank-tailed prefix `r`: `r` sits in `s` between two blank runs. */
  lemma SliceBetweenBlanks(s: string, t: string, r: string)
    requires |t| <= |s| && t == s[|s| - |t|..] && AllWhitespace(s[..|s| - |t|])
    requires |r| <= |t| && r == t[..|r|] && AllWhitespace(t[|r|..])
    ensures var d := |s| - |t|;
      SliceAt(s, r, d) && AllWhitespace(s[..d]) && AllWhitespace(s[d + |r|..])
  {
    var d := |s| - |t|;
    var after, blank := s[d + |r|..], t[|r|..];
    forall i | 0 <= i < |after|
      ensures IsWhitespace(after[i])
    {
      assert after[i] == blank[i];
    }
  }

  /** White space in front of a text that starts with a non-blank is exactly what `trimStart` drops. */
  lemma {:induction false} TrimStartBlankPrefix(lead: string, rest: string)
    requires AllWhitespace(lead)
    requires rest == [] || !IsWhitespace(rest[0])
    ensures TrimStart(lead + rest) == rest
  {
    if lead != [] {
      assert (lead + rest)[1..] == lead[1..] + rest;
      TrimStartBlankPrefix(lead[1..], rest);
    }
  }

  /** White space after a text that ends with a non-blank is exactly what `trimEnd` drops. */
  lemma {:induction false} TrimEndBlankSuffix(rest: string, trail: string)
    requires AllWhitespace(trail)
    requires rest == [] || !IsWhitespace(rest[|rest| - 1])
    ensures TrimEnd(rest + trail) == rest
  {
    if trail != [] {
      var last := |trail| - 1;
      assert (rest + trail)[..|rest + trail| - 1] == rest + trail[..last];
      TrimEndBlankSuffix(rest, trail[..last]);
    } else {
      assert rest + trail == rest;
    }
  }

  /** Surrounding a text that starts and ends with non-blanks by white space does not change its trim. */
  lemma TrimOfPadded(lead: string, x: string, trail: string)
    requires AllWhitespace(lead) && AllWhitespace(trail)
    requires x != [] && !IsWhitespace(x[0]) && !IsWhitespace(x[|x| - 1])
    ensures Trim(lead + x + trail) == x
  {
    assert lead + x + trail == lead + (x + trail);
    TrimStartBlankPrefix(lead, x + trail);
    TrimEndBlankSuffix(x, trail);
  }

  /** A string with no white space at either end is its own trim. */
  lemma TrimOfTrimmed(s: string)
    requires s == [] || (!IsWhitespace(s[0]) && !IsWhitespace(s[|s| - 1]))
    ensures Trim(s) == s
  {
  }

  /**
   * `s.split(/\s+/)`: the pieces between maximal runs of white space. A leading
   * or trailing run yields an empty piece, and "" yields [""].
   */
  function SplitWs(s: string): (r: seq<string>)
    ensures |r| >= 1
    ensures forall k :: 0 <= k < |r| ==> NoWhitespace(r[k])
    decreases |s|
  {
    if s == [] then [""]
    else if IsWhitespace(s[0]) then [""] + SplitWs(TrimStart(s))
    else
      var rest := SplitWs(s[1..]);
      [[s[0]] + rest[0]] + rest[1..]
  }

  /** `words.join(sep)` for a one-character separator. */
  function JoinWith(parts: seq<string>, sep: char): string {
    if |parts| == 0 then ""
    else if |parts| == 1 then parts[0]
    else parts[0] + [sep] + JoinWith(parts[1..], sep)
  }

  /** A word without white space glued in front of a text joins that text's first piece. */
  lemma {:induction false} SplitWsPrefix(w: string, t: string)
    requires NoWhitespace(w)
    ensures SplitWs(w + t) == [w + SplitWs(t)[0]] + SplitWs(t)[1..]
  {
    var st := SplitWs(t);
    if w != [] {
      assert w + t == [w[0]] + (w[1..] + t);
      SplitWsCons(w[0], w[1..] + t);
      SplitWsPrefix(w[1..], t);
      GlueFirstPiece(w, st, SplitWs(w[1..] + t), SplitWs(w + t));
    } else {
      EmptyWordPrefix(w, t);
    }
  }

  lemma EmptyWordPrefix(w: string, t: string)
    requires w == []
    ensures SplitWs(w + t) == [w + SplitWs(t)[0]] + SplitWs(t)[1..]
  {
    var st := SplitWs(t);
    assert w + t == t;
    assert w + st[0] == st[0];
    assert st == [st[0]] + st[1..];
  }

  /** Gluing a word's first character back in front of the pieces of the rest of it. */
  lemma GlueFirstPiece(w: string, st: seq<string>, rest: seq<string>, whole: seq<string>)
    requires w != [] && |st| >= 1
    requires rest == [w[1..] + st[0]] + st[1..]
    requires whole == [[w[0]] + rest[0]] + rest[1..]
    ensures whole == [w + st[0]] + st[1..]
  {
    assert [w[0]] + (w[1..] + st[0]) == w + st[0] by {
      assert [w[0]] + w[1..] == w;
    }
  }

  /** A character that is not white space joins the first piece of what follows it. */
  lemma SplitWsCons(c: char, s: string)
    requires !IsWhitespace(c)
    ensures SplitWs([c] + s) == [[c] + SplitWs(s)[0]] + SplitWs(s)[1..]
  {
    assert ([c] + s)[1..] == s;
  }

  /**
   * Words free of white space, joined by single spaces, split back into the
   * same words: the count `split(/\s+/).length` is the number of words.
   */
  lemma {:induction false} SplitWsJoin(words: seq<string>)
    requires |words| >= 1
    requires forall k :: 0 <= k < |words| ==> words[k] != [] && NoWhitespace(words[k])
    ensures SplitWs(JoinWith(words, ' ')) == words
  {
    var w0, tail := words[0], words[1..];
    assert words == [w0] + tail;
    if |words| == 1 {
      SplitWsPrefix(w0, "");
      assert w0 + "" == w0;
    } else {
      assert forall k :: 0 <= k < |tail| ==> tail[k] == words[k + 1];
      SplitWsJoin(tail);
      JoinWithStartsWith(tail);
      var rest := JoinWith(tail, ' ');
      SplitWsAfterSpace(rest);
      JoinWithCons(w0, tail, ' ');
      SplitWsPrefix(w0, [' '] + rest);
      EmptyFirstPiece(w0, SplitWs([' '] + rest), tail);
    }
  }

  /**
   * Words laid out with a run of white space between each pair:
   * `words[0] + gaps[0] + words[1] + ... + words[n-1]`.
   */
  function JoinWithGaps(words: seq<string>, gaps: seq<string>): string
    requires |words| >= 1 && |gaps| == |words| - 1
  {
    if |words| == 1 then words[0]
    else words[0] + gaps[0] + JoinWithGaps(words[1..], gaps[1..])
  }

  /** A run of white space in front of a word-initial text contributes one empty piece. */
  lemma SplitWsAfterGap(gap: string, rest: string)
    requires gap != [] && AllWhitespace(gap)
    requires rest == [] || !IsWhitespace(rest[0])
    ensures SplitWs(gap + rest) == [""] + SplitWs(rest)
  {
    assert (gap + rest)[0] == gap[0];
    TrimStartBlankPrefix(gap, rest);
  }

  /** Words laid out with runs of white space start with the first word's first character and end with the last word's last. */
  lemma {:induction false} JoinWithGapsEnds(words: seq<string>, gaps: seq<string>)
    requires |words| >= 1 && |gaps| == |words| - 1
    requires forall k :: 0 <= k < |words| ==> words[k] != []
    ensures var j := JoinWithGaps(words, gaps);
      j != [] && j[0] == words[0][0] && j[|j| - 1] == words[|words| - 1][|words[|words| - 1]| - 1]
  {
    if |words| > 1 {
      JoinWithGapsEnds(words[1..], gaps[1..]);
    }
  }

  /**
   * Words free of white space, with any non-empty runs of white space between
   * them, split back into the same words: the length of the runs does not matter.
   */
  lemma {:induction false} SplitWsJoinGaps(words: seq<string>, gaps: seq<string>)
    requires |words| >= 1 && |gaps| == |words| - 1
    requires forall k :: 0 <= k < |words| ==> words[k] != [] && NoWhitespace(words[k])
    requires forall k :: 0 <= k < |gaps| ==> gaps[k] != [] && AllWhitespace(gaps[k])
    ensures SplitWs(JoinWithGaps(words, gaps)) == words
  {
    if |words| == 1 {
      SplitWsPrefix(words[0], "");
      assert words[0] + "" == words[0];
    } else {
      var tail, rest := words[1..], JoinWithGaps(words[1..], gaps[1..]);
      GapsTail(words, gaps);
      SplitWsJoinGaps(tail, gaps[1..]);
      JoinWithGapsEnds(tail, gaps[1..]);
      assert JoinWithGaps(words, gaps) == words[0] + (gaps[0] + rest);
      SplitWsWordGap(words[0], gaps[0], rest, tail);
      assert words == [words[0]] + tail;
    }
  }

  /** The conditions on words and gaps carry over to their tails. */
  lemma GapsTail(words: seq<string>, gaps: seq<string>)
    requires |words| >= 2 && |gaps| == |words| - 1
    requires forall k :: 0 <= k < |words| ==> words[k] != [] && NoWhitespace(words[k])
    requires forall k :: 0 <= k < |gaps| ==> gaps[k] != [] && AllWhitespace(gaps[k])
    ensures forall k :: 0 <= k < |words[1..]| ==> words[1..][k] != [] && NoWhitespace(words[1..][k])
    ensures forall k :: 0 <= k < |gaps[1..]| ==> gaps[1..][k] != [] && AllWhitespace(gaps[1..][k])
    ensures gaps[0] != [] && AllWhitespace(gaps[0]) && words[0] != [] && NoWhitespace(words[0])
  {
    assert forall k :: 0 <= k < |words[1..]| ==> words[1..][k] == words[k + 1];
    assert forall k :: 0 <= k < |gaps[1..]| ==> gaps[1..][k] == gaps[k + 1];
  }

  /** A word, a run of white space, then a word-initial text: the word comes first, then the text's pieces. */
  lemma SplitWsWordGap(w: string, gap: string, rest: string, tail: seq<string>)
    requires NoWhitespace(w) && gap != [] && AllWhitespace(gap)
    requires rest != [] && !IsWhitespace(rest[0]) && SplitWs(rest) == tail
    ensures SplitWs(w + (gap + rest)) == [w] + tail
  {
    SplitWsAfterGap(gap, rest);
    SplitWsPrefix(w, gap + rest);
    EmptyFirstPiece(w, SplitWs(gap + rest), tail);
  }

  /** Joining a longer list is its head, the separator, then the joined tail. */
  lemma JoinWithCons(w: string, tail: seq<string>, sep: char)
    requires |tail| >= 1
    ensures JoinWith([w] + tail, sep) == w + ([sep] + JoinWith(tail, sep))
  {
    assert ([w] + tail)[1..] == tail;
  }

  lemma EmptyFirstPiece(w: string, pieces: seq<string>, tail: seq<string>)
    requires pieces == [""] + tail
    ensures [w + pieces[0]] + pieces[1..] == [w] + tail
  {
    assert w + pieces[0] == w;
  }

  /** A single space before a word-initial text contributes one empty piece. */
  lemma SplitWsAfterSpace(rest: string)
    requires rest != [] && !IsWhitespace(rest[0])
    ensures SplitWs([' '] + rest) == [""] + SplitWs(rest)
  {
    var gap := [' '] + rest;
    assert gap[1..] == rest;
    assert TrimStart(gap) == TrimStart(rest) == rest;
  }

  /** Joining non-empty words without white space starts with a non-space character. */
  lemma {:induction false} JoinWithStartsWith(words: seq<string>)
    requires |words| >= 1
    requires forall k :: 0 <= k < |words| ==> words[k] != [] && NoWhitespace(words[k])
    ensures JoinWith(words, ' ') != [] && JoinWith(words, ' ')[0] == words[0][0]
    ensures JoinWith(words, ' ')[|JoinWith(words, ' ')| - 1] == words[|words| - 1][|words[|words| - 1]| - 1]
  {
    if |words| > 1 {
      JoinWithStartsWith(words[1..]);
    }
  }

  /** `s.split(sep)` for a one-character separator. */
  function SplitOn(s: string, sep: char): (r: seq<string>)
    ensures |r| >= 1
    ensures forall k :: 0 <= k < |r| ==> sep !in r[k]
  {
    if s == [] then [""]
    else
      var rest := SplitOn(s[1..], sep);
      if s[0] == sep then [""] + rest else [[s[0]] + rest[0]] + rest[1..]
  }

  /** Splitting and re-joining on the same separator gives back the text. */
  lemma {:induction false} JoinSplit(s: string, sep: char)
    ensures JoinWith(SplitOn(s, sep), sep) == s
  {
    if s != [] {
      var rest := SplitOn(s[1..], sep);
      JoinSplit(s[1..], sep);
      if s[0] == sep {
        assert s == [sep] + s[1..];
      } else {
        var r := SplitOn(s, sep);
        if |rest| == 1 {
          assert r == [[s[0]] + rest[0]];
        } else {
          assert r[1..] == rest[1..];
          assert JoinWith(rest, sep) == rest[0] + [sep] + JoinWith(rest[1..], sep);
        }
        assert s == [s[0]] + s[1..];
      }
    }
  }

  /** Pieces free of the separator, joined by it, split back into the same pieces. */
  lemma {:induction false} SplitJoin(parts: seq<string>, sep: char)
    requires |parts| >= 1
    requires forall k :: 0 <= k < |parts| ==> sep !in parts[k]
    ensures SplitOn(JoinWith(parts, sep), sep) == parts
  {
    if |parts| == 1 {
      SplitOnFree(parts[0], [], sep);
      assert parts[0] + [] == parts[0];
    } else {
      var tail := JoinWith(parts[1..], sep);
      SplitJoin(parts[1..], sep);
      var gap := [sep] + tail;
      assert gap[0] == sep && gap[1..] == tail;
      assert SplitOn(gap, sep) == [""] + parts[1..];
      SplitOnFree(parts[0], gap, sep);
      assert JoinWith(parts, sep) == parts[0] + gap;
      assert parts[0] + "" == parts[0];
      assert parts == [parts[0]] + parts[1..];
    }
  }

  /** A separator-free prefix joins the first piece of what follows it. */
  lemma {:induction false} SplitOnFree(w: string, t: string, sep: char)
    requires sep !in w
    ensures SplitOn(w + t, sep) == [w + SplitOn(t, sep)[0]] + SplitOn(t, sep)[1..]
  {
    if w == [] {
      assert w + t == t;
      assert w + SplitOn(t, sep)[0] == SplitOn(t, sep)[0];
      assert SplitOn(t, sep) == [SplitOn(t, sep)[0]] + SplitOn(t, sep)[1..];
    } else {
      assert (w + t)[0] == w[0];
      assert (w + t)[1..] == w[1..] + t;
      SplitOnFree(w[1..], t, sep);
      assert [w[0]] + (w[1..] + SplitOn(t, sep)[0]) == w + SplitOn(t, sep)[0];
    }
  }

  /** The first piece of a split is the text before the first separator. */
  lemma {:induction false} SplitOnFirst(s: string, sep: char)
    ensures |SplitOn(s, sep)[0]| <= |s|
    ensures SplitOn(s, sep)[0] == s[..|SplitOn(s, sep)[0]|]
    ensures |SplitOn(s, sep)| > 1 <==> sep in s
    ensures |SplitOn(s, sep)| > 1 ==>
      |SplitOn(s, sep)[0]| < |s| && s[|SplitOn(s, sep)[0]|] == sep
  {
    if s != [] {
      SplitOnFirst(s[1..], sep);
      var rest := SplitOn(s[1..], sep);
      assert s == [s[0]] + s[1..];
      if s[0] != sep {
        assert sep in s <==> sep in s[1..];
        assert SplitOn(s, sep)[0] == [s[0]] + rest[0];
        assert |SplitOn(s, sep)| == |rest|;
      }
    }
  }

  /** Clamps an index into `[0, |s|]`, as `substring` does. */
  function ClampIndex(i: int, n: nat): (r: nat)
    ensures r <= n
    ensures 0 <= i <= n ==> r == i
  {
    if i < 0 then 0 else if i > n then n else i
  }

  /** `s.substring(start, end)`: both bounds clamped into range, then ordered. */
  function Substring(s: string, start: int, end: int): (r: string)
    ensures 0 <= start <= end <= |s| ==> r == s[start..end]
    ensures |r| <= |s|
  {
    var a, b := ClampIndex(start, |s|), ClampIndex(end, |s|);
    if a <= b then s[a..b] else s[b..a]
  }
}
