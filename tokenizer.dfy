/** Word extraction: `cleanWord`, the tokenizer (lines, regex parts, word
    tokens with their line and part index) and the end-of-line test. */
module Tokenizer {
  import opened Text

  /** The class `[A-Za-z']` of a word part. */
  predicate IsWordPart(c: char) {
    IsLetter(c) || c == '\''
  }

  /** Membership in the run kind: word parts, or `[^A-Za-z'\s]`. */
  predicate InRun(c: char, word: bool) {
    if word then IsWordPart(c) else !IsWordPart(c) && !IsSpace(c)
  }

  /** Length of the longest prefix of `s` in one run kind (a greedy `+`). */
  function RunLength(s: string, word: bool): (n: nat)
    ensures n <= |s|
    ensures forall k :: 0 <= k < n ==> InRun(s[k], word)
    ensures n < |s| ==> !InRun(s[n], word)
    decreases |s|
  {
    if s != [] && InRun(s[0], word) then 1 + RunLength(s[1..], word) else 0
  }

  /** `line.match(/[A-Za-z']+|[^A-Za-z'\s]+/g) || []`: at each position the
      first alternative is tried, then the second; white space is skipped. */
  function Parts(s: string): (r: seq<string>)
    ensures forall k :: 0 <= k < |r| ==> r[k] != []
    ensures forall k :: 0 <= k < |r| ==>
      (forall m :: 0 <= m < |r[k]| ==> InRun(r[k][m], IsWordPart(r[k][0])))
    decreases |s|
  {
    if s == [] then []
    else if IsSpace(s[0]) then Parts(s[1..])
    else
      var n := RunLength(s, IsWordPart(s[0]));
      [s[..n]] + Parts(s[n..])
  }

  function Concat(ps: seq<string>): string {
    if ps == [] then [] else ps[0] + Concat(ps[1..])
  }

  /** The parts cover every character that is not white space, in order. */
  lemma {:induction false} PartsCover(s: string)
    ensures Concat(Parts(s)) == RemoveSpaces(s)
    decreases |s|
  {
    if s != [] {
      if IsSpace(s[0]) {
        PartsCover(s[1..]);
        SpaceCover(s);
      } else {
        var n := RunLength(s, IsWordPart(s[0]));
        PartsCover(s[n..]);
        RunStep(s, n);
      }
    }
  }

  lemma SpaceCover(s: string)
    requires s != [] && IsSpace(s[0])
    requires Concat(Parts(s[1..])) == RemoveSpaces(s[1..])
    ensures Concat(Parts(s)) == RemoveSpaces(s)
  {
  }

  lemma RunStep(s: string, n: nat)
    requires s != [] && !IsSpace(s[0]) && n == RunLength(s, IsWordPart(s[0]))
    requires Concat(Parts(s[n..])) == RemoveSpaces(s[n..])
    ensures Concat(Parts(s)) == RemoveSpaces(s)
  {
    assert Parts(s) == [s[..n]] + Parts(s[n..]);
    forall k | 0 <= k < n ensures !IsSpace(s[k]) {
      assert InRun(s[k], IsWordPart(s[0]));
    }
    RunCover(s, n, Parts(s[n..]));
  }

  /** A space-free run followed by parts that cover the rest covers both. */
  lemma RunCover(s: string, n: nat, rest: seq<string>)
    requires n <= |s|
    requires forall k :: 0 <= k < n ==> !IsSpace(s[k])
    requires Concat(rest) == RemoveSpaces(s[n..])
    ensures Concat([s[..n]] + rest) == RemoveSpaces(s)
  {
    var run := s[..n];
    assert ([run] + rest)[1..] == rest;
    RemoveSpacesAppend(run, s[n..]);
    RemoveSpacesOfSpaceFree(run);
    assert run + s[n..] == s;
  }

  lemma {:induction false} RunLengthAll(s: string, word: bool)
    requires forall k :: 0 <= k < |s| ==> InRun(s[k], word)
    ensures RunLength(s, word) == |s|
    decreases |s|
  {
    if s != [] {
      RunLengthAll(s[1..], word);
    }
  }

  /** The test `/^[A-Za-z']+$/`. */
  predicate IsWordToken(t: string) {
    t != [] && forall k :: 0 <= k < |t| ==> IsWordPart(t[k])
  }

  /** Characters that survive `replace(/[^a-zA-Z'\-]/g, '')`. */
  predicate IsKept(c: char) {
    IsLetter(c) || c == '\'' || c == '-'
  }

  function KeepChars(s: string): (r: string)
    ensures |r| <= |s|
    ensures forall k :: 0 <= k < |r| ==> IsKept(r[k])
    ensures (forall k :: 0 <= k < |s| ==> !IsUpper(s[k])) ==> forall k :: 0 <= k < |r| ==> !IsUpper(r[k])
    ensures forall k :: 0 <= k < |r| ==> r[k] in s
    ensures forall k :: 0 <= k < |s| && IsKept(s[k]) ==> s[k] in r
    decreases |s|
  {
    if s == [] then [] else (if IsKept(s[0]) then [s[0]] else []) + KeepChars(s[1..])
  }

  /** The filter distributes over concatenation; with the one-character case
      of its definition, this makes `KeepChars(s)` the kept characters of `s`
      in their order. */
  lemma {:induction false} KeepCharsAppend(a: string, b: string)
    ensures KeepChars(a + b) == KeepChars(a) + KeepChars(b)
    decreases |a|
  {
    if a != [] {
      assert (a + b)[1..] == a[1..] + b;
      KeepCharsAppend(a[1..], b);
    } else {
      assert a + b == b;
    }
  }

  function DropLeadingApostrophes(s: string): (r: string)
    ensures |r| <= |s| && r == s[|s| - |r|..]
    ensures forall k :: 0 <= k < |s| - |r| ==> s[k] == '\''
    ensures r != [] ==> r[0] != '\''
    decreases |s|
  {
    if s != [] && s[0] == '\'' then DropLeadingApostrophes(s[1..]) else s
  }

  function DropTrailingApostrophes(s: string): (r: string)
    ensures |r| <= |s| && r == s[..|r|]
    ensures forall k :: |r| <= k < |s| ==> s[k] == '\''
    ensures r != [] ==> r[|r| - 1] != '\''
    decreases |s|
  {
    if s != [] && s[|s| - 1] == '\'' then DropTrailingApostrophes(s[..|s| - 1]) else s
  }

  /** Lower-case letters and apostrophes only. */
  predicate LowerOrApostrophes(w: string) {
    forall m :: 0 <= m < |w| ==> IsLower(w[m]) || w[m] == '\''
  }

  lemma KeepLowerOrApostrophes(s: string)
    requires LowerOrApostrophes(s)
    ensures LowerOrApostrophes(KeepChars(s))
  {
    var kept := KeepChars(s);
    forall k | 0 <= k < |kept| ensures IsLower(kept[k]) || kept[k] == '\'' {
      assert kept[k] in s;
    }
  }

  lemma DropLowerOrApostrophes(s: string)
    requires LowerOrApostrophes(s)
    ensures LowerOrApostrophes(DropTrailingApostrophes(DropLeadingApostrophes(s)))
  {
    var front := DropLeadingApostrophes(s);
    assert LowerOrApostrophes(front) by {
      assert front == s[|s| - |front|..];
    }
    var r := DropTrailingApostrophes(front);
    assert r == front[..|r|];
  }

  /** A word part (`[A-Za-z']+`) cleans to lower-case letters and apostrophes
      only: its hyphens could only come from the part, which has none. */
  lemma WordPartClean(p: string)
    requires IsWordToken(p)
    ensures LowerOrApostrophes(CleanWord(p))
  {
    var low := Lower(p);
    forall k | 0 <= k < |low| ensures IsLower(low[k]) || low[k] == '\'' {
      assert IsWordPart(p[k]);
    }
    KeepLowerOrApostrophes(low);
    DropLowerOrApostrophes(KeepChars(low));
  }

  /** A cleaned word: lower-case letters, apostrophes and hyphens, with no
      apostrophe at either end. */
  predicate IsClean(w: string) {
    && (forall k :: 0 <= k < |w| ==> IsLower(w[k]) || w[k] == '\'' || w[k] == '-')
    && (w != [] ==> w[0] != '\'' && w[|w| - 1] != '\'')
  }

  /** `cleanWord`. */
  function CleanWord(w: string): (r: string)
    ensures IsClean(r)
  {
    var kept := KeepChars(Lower(w));
    var r := DropTrailingApostrophes(DropLeadingApostrophes(kept));
    r
  }

  lemma {:induction false} KeepKept(s: string)
    requires forall k :: 0 <= k < |s| ==> IsKept(s[k])
    ensures KeepChars(s) == s
    decreases |s|
  {
    if s != [] {
      KeepKept(s[1..]);
    }
  }

  /** A clean word is its own cleaning. */
  lemma CleanOfClean(w: string)
    requires IsClean(w)
    ensures CleanWord(w) == w
  {
    assert Lower(w) == w;
    KeepKept(w);
  }

  /** Cleaning twice is cleaning once, so the cache key of a token's word is
      the word itself. */
  lemma CleanWordIdempotent(w: string)
    ensures CleanWord(CleanWord(w)) == CleanWord(w)
  {
    CleanOfClean(CleanWord(w));
  }

  /** A word of letters cleans to its lower-case form. */
  lemma CleanWordOfLetters(w: string)
    requires forall k :: 0 <= k < |w| ==> IsLetter(w[k])
    ensures CleanWord(w) == Lower(w)
  {
    var low := Lower(w);
    forall k | 0 <= k < |low| ensures IsLetter(low[k]) {
      assert low[k] == LowerChar(w[k]);
    }
    KeepKept(low);
    LettersKeepEnds(low);
  }

  /** Apostrophes are only dropped where there are some. */
  lemma LettersKeepEnds(s: string)
    requires forall k :: 0 <= k < |s| ==> IsLetter(s[k])
    ensures DropTrailingApostrophes(DropLeadingApostrophes(s)) == s
  {
    if s != [] {
      assert s[0] != '\'' && s[|s| - 1] != '\'' by {
        assert IsLetter(s[0]) && IsLetter(s[|s| - 1]);
      }
    }
    assert DropLeadingApostrophes(s) == s;
  }

  /** One pushed word: the cleaned part, its line and its part index. */
  datatype Token = Token(word: string, line: nat, pos: nat)

  /** What part `idx` of line `li` pushes: its cleaned word, when the part
      is a word part whose cleaning is not "". */
  function PartToken(parts: seq<string>, li: nat, idx: nat): (r: seq<Token>)
    requires idx < |parts|
    ensures |r| <= 1
  {
    var t := parts[idx];
    if IsWordToken(t) && CleanWord(t) != [] then [Token(CleanWord(t), li, idx)] else []
  }

  /** The tokens of `parts[from..]` of line `li`. */
  function PartTokens(parts: seq<string>, li: nat, from: nat): seq<Token>
    decreases |parts| - from
  {
    if from >= |parts| then []
    else PartToken(parts, li, from) + PartTokens(parts, li, from + 1)
  }

  /** Pushing the token of part `idx` onto the tokens before it leaves the
      tokens from part `idx + 1` on still to come. */
  lemma PartTokensPush(done: seq<Token>, before: seq<Token>, after: seq<Token>, parts: seq<string>, li: nat, idx: nat)
    requires idx < |parts|
    requires before + PartTokens(parts, li, idx) == done
    requires after == before + PartToken(parts, li, idx)
    ensures after + PartTokens(parts, li, idx + 1) == done
  {
    var head, rest := PartToken(parts, li, idx), PartTokens(parts, li, idx + 1);
    assert PartTokens(parts, li, idx) == head + rest;
    ConcatAssoc(before, head, rest);
  }

  lemma ConcatAssoc(a: seq<Token>, b: seq<Token>, c: seq<Token>)
    ensures (a + b) + c == a + (b + c)
  {
  }

  /** The tokens of `lines[from..]`. */
  function LineTokens(lines: seq<string>, from: nat): seq<Token>
    decreases |lines| - from
  {
    if from >= |lines| then []
    else PartTokens(Parts(lines[from]), from, 0) + LineTokens(lines, from + 1)
  }

  /** `tokenize`. */
  function Tokens(text: string): seq<Token> {
    LineTokens(Lines(text), 0)
  }

  /** The token was made from part `t.pos` of `parts`. */
  predicate FromPartOf(parts: seq<string>, t: Token) {
    && t.pos < |parts|
    && IsWordToken(parts[t.pos])
    && t.word == CleanWord(parts[t.pos])
    && t.word != []
  }

  /** Where a token comes from: a word part of its line whose cleaning is
      non-empty. */
  predicate FromPart(lines: seq<string>, t: Token) {
    t.line < |lines| && FromPartOf(Parts(lines[t.line]), t)
  }

  /** Tokens in the order they were pushed: by line, then by part. */
  predicate Ordered(ts: seq<Token>) {
    forall a, b :: 0 <= a < b < |ts| ==>
      ts[a].line < ts[b].line || (ts[a].line == ts[b].line && ts[a].pos < ts[b].pos)
  }

  /** Tokens of one line lie at increasing positions, each tagged with the line. */
  predicate OrderedFrom(ts: seq<Token>, li: nat, from: nat) {
    && (forall k :: 0 <= k < |ts| ==> ts[k].line == li && ts[k].pos >= from)
    && (forall a, b :: 0 <= a < b < |ts| ==> ts[a].pos < ts[b].pos)
  }

  lemma ConsOrdered(x: Token, rest: seq<Token>, li: nat, from: nat)
    requires OrderedFrom(rest, li, from + 1) && x.line == li && x.pos == from
    ensures OrderedFrom([x] + rest, li, from)
  {
    var ts := [x] + rest;
    forall k | 0 <= k < |ts| ensures ts[k].line == li && ts[k].pos >= from {
      if k > 0 {
        assert ts[k] == rest[k - 1];
      }
    }
    forall a, b | 0 <= a < b < |ts| ensures ts[a].pos < ts[b].pos {
      assert ts[b] == rest[b - 1];
      if a > 0 {
        assert ts[a] == rest[a - 1];
      }
    }
  }

  lemma {:induction false} PartTokensOrdered(parts: seq<string>, li: nat, from: nat)
    ensures OrderedFrom(PartTokens(parts, li, from), li, from)
    decreases |parts| - from
  {
    if from < |parts| {
      PartTokensOrdered(parts, li, from + 1);
      var rest := PartTokens(parts, li, from + 1);
      var t := parts[from];
      if IsWordToken(t) && CleanWord(t) != [] {
        ConsOrdered(Token(CleanWord(t), li, from), rest, li, from);
      }
    }
  }

  lemma {:induction false} PartTokensFrom(parts: seq<string>, li: nat, from: nat)
    ensures forall t | t in PartTokens(parts, li, from) :: FromPartOf(parts, t)
    decreases |parts| - from
  {
    if from < |parts| {
      PartTokensFrom(parts, li, from + 1);
    }
  }

  lemma {:induction false} LineTokensFrom(lines: seq<string>, from: nat)
    ensures forall t | t in LineTokens(lines, from) :: FromPart(lines, t) && t.line >= from
    decreases |lines| - from
  {
    if from < |lines| {
      PartTokensOrdered(Parts(lines[from]), from, 0);
      PartTokensFrom(Parts(lines[from]), from, 0);
      LineTokensFrom(lines, from + 1);
    }
  }

  lemma {:induction false} LineTokensAfter(lines: seq<string>, from: nat)
    ensures forall t | t in LineTokens(lines, from) :: t.line >= from
    decreases |lines| - from
  {
    if from < |lines| {
      PartTokensOrdered(Parts(lines[from]), from, 0);
      LineTokensAfter(lines, from + 1);
    }
  }

  lemma AppendOrdered(head: seq<Token>, rest: seq<Token>, li: nat)
    requires OrderedFrom(head, li, 0) && Ordered(rest)
    requires forall t | t in rest :: t.line > li
    ensures Ordered(head + rest)
  {
    var ts := head + rest;
    forall a, b | 0 <= a < b < |ts|
      ensures ts[a].line < ts[b].line || (ts[a].line == ts[b].line && ts[a].pos < ts[b].pos)
    {
      if b < |head| {
        assert ts[a] == head[a] && ts[b] == head[b];
      } else if a < |head| {
        assert ts[a] == head[a];
        assert ts[b] == rest[b - |head|];
        assert ts[b] in rest;
      } else {
        assert ts[a] == rest[a - |head|] && ts[b] == rest[b - |head|];
      }
    }
  }

  lemma {:induction false} LineTokensOrdered(lines: seq<string>, from: nat)
    ensures Ordered(LineTokens(lines, from))
    decreases |lines| - from
  {
    if from < |lines| {
      PartTokensOrdered(Parts(lines[from]), from, 0);
      LineTokensOrdered(lines, from + 1);
      LineTokensAfter(lines, from + 1);
      AppendOrdered(PartTokens(Parts(lines[from]), from, 0), LineTokens(lines, from + 1), from);
    }
  }

  /** Every token is a cleaned, non-empty word part of its line, and the
      tokens come in line order and, within a line, in part order. */
  lemma TokensShape(text: string)
    ensures var ts := Tokens(text);
            && Ordered(ts)
            && forall k :: 0 <= k < |ts| ==> FromPart(Lines(text), ts[k]) && IsClean(ts[k].word)
    ensures var ts := Tokens(text);
            forall k :: 0 <= k < |ts| ==> LowerOrApostrophes(ts[k].word)
  {
    LineTokensOrdered(Lines(text), 0);
    LineTokensFrom(Lines(text), 0);
    var ts := Tokens(text);
    forall k | 0 <= k < |ts| ensures FromPart(Lines(text), ts[k]) {
      assert ts[k] in ts;
    }
    forall k | 0 <= k < |ts| ensures LowerOrApostrophes(ts[k].word) {
      assert FromPart(Lines(text), ts[k]);
      WordPartClean(Parts(Lines(text)[ts[k].line])[ts[k].pos]);
    }
  }

  /** A text that is one word part yields one token, line 0 and part 0,
      unless it cleans to "". */
  lemma TokensOfWord(w: string)
    requires IsWordToken(w)
    ensures Tokens(w) == if CleanWord(w) != [] then [Token(CleanWord(w), 0, 0)] else []
  {
    assert '\n' !in w by {
      forall k | 0 <= k < |w| ensures w[k] != '\n' {
        assert IsWordPart(w[k]);
      }
    }
    LinesOfLineFree(w);
    RunLengthAll(w, true);
    assert w[..|w|] == w && w[|w|..] == [];
    assert Parts(w) == [w];
    assert PartTokens([w], 0, 1) == [];
    assert LineTokens([w], 1) == [];
  }

  /** `isLineEnd`: its loop returns in its first round, so only the next
      token is looked at. */
  predicate IsLineEnd(ts: seq<Token>, i: nat)
    requires i < |ts|
  {
    i + 1 == |ts| || ts[i + 1].line != ts[i].line
  }

  /** On ordered tokens, the next-token test means: no later token is on the
      same line. */
  lemma LineEndIsLastOfLine(ts: seq<Token>, i: nat)
    requires Ordered(ts) && i < |ts|
    ensures IsLineEnd(ts, i) <==> forall j :: i < j < |ts| ==> ts[j].line != ts[i].line
  {
    if IsLineEnd(ts, i) && i + 1 < |ts| {
      forall j | i < j < |ts| ensures ts[j].line != ts[i].line {
        assert ts[i + 1].line <= ts[j].line;
      }
    }
  }
}
