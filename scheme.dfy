/** The rhyme scheme: which group ends each line, and the letters `A`, `B`, …
    handed out to those groups in order of first appearance. */
module Scheme {
  import opened Text
  import opened Grouping

  /** Span `s` ends line `l`. */
  predicate Ends(spans: seq<Span>, s: nat, l: nat) {
    s < |spans| && spans[s].isEnd && spans[s].line == l
  }

  /** No two spans end the same line. */
  predicate OneEndPerLine(spans: seq<Span>) {
    forall s, t :: 0 <= s < t < |spans| && spans[s].isEnd && spans[t].isEnd ==> spans[s].line != spans[t].line
  }

  // ----- lineFinalGroup -----

  /** The map after the members of group `gi` have been visited: each member
      that ends its line sets that line's entry to `gi`. */
  function MarkGroup(m: map<nat, nat>, spans: seq<Span>, g: seq<nat>, gi: nat): map<nat, nat>
    decreases |g|
  {
    if g == [] then m
    else
      var s := g[|g| - 1];
      var m' := MarkGroup(m, spans, g[..|g| - 1], gi);
      if s < |spans| && spans[s].isEnd then m'[spans[s].line := gi] else m'
  }

  /** `lineFinalGroup` once the groups `gs` have been visited in order. */
  function LineFinal(spans: seq<Span>, gs: seq<seq<nat>>): map<nat, nat>
    decreases |gs|
  {
    if gs == [] then map[] else MarkGroup(LineFinal(spans, gs[..|gs| - 1]), spans, gs[|gs| - 1], |gs| - 1)
  }

  lemma {:induction false} MarkGroupShape(m: map<nat, nat>, spans: seq<Span>, g: seq<nat>, gi: nat)
    ensures forall l :: l in MarkGroup(m, spans, g, gi) <==> l in m || exists s :: s in g && Ends(spans, s, l)
    ensures forall s :: s in g && s < |spans| && spans[s].isEnd ==>
              spans[s].line in MarkGroup(m, spans, g, gi) && MarkGroup(m, spans, g, gi)[spans[s].line] == gi
    ensures forall l :: l in m && (forall s :: s in g ==> !Ends(spans, s, l)) ==> MarkGroup(m, spans, g, gi)[l] == m[l]
    decreases |g|
  {
    if g != [] {
      var front := g[..|g| - 1];
      var last := g[|g| - 1];
      MarkGroupShape(m, spans, front, gi);
      assert forall s :: s in g <==> s in front || s == last;
      var m' := MarkGroup(m, spans, front, gi);
      if last < |spans| && spans[last].isEnd {
        assert MarkGroup(m, spans, g, gi) == m'[spans[last].line := gi];
        assert Ends(spans, last, spans[last].line);
      } else {
        assert MarkGroup(m, spans, g, gi) == m';
        assert forall l :: !Ends(spans, last, l);
      }
    }
  }

  /** With disjoint groups and at most one line end per line, a line has an
      entry exactly when a member of some group ends it, and the entry names
      that member's group. */
  lemma {:induction false} LineFinalShape(spans: seq<Span>, gs: seq<seq<nat>>)
    requires Disjoint(gs) && OneEndPerLine(spans)
    ensures forall l :: l in LineFinal(spans, gs) <==> exists p, s :: 0 <= p < |gs| && s in gs[p] && Ends(spans, s, l)
    ensures forall p, s :: 0 <= p < |gs| && s in gs[p] && s < |spans| && spans[s].isEnd ==>
              spans[s].line in LineFinal(spans, gs) && LineFinal(spans, gs)[spans[s].line] == p
    decreases |gs|
  {
    if gs != [] {
      var q := |gs| - 1;
      var front := gs[..q];
      assert Disjoint(front);
      LineFinalShape(spans, front);
      var m := LineFinal(spans, front);
      MarkGroupShape(m, spans, gs[q], q);
      assert LineFinal(spans, gs) == MarkGroup(m, spans, gs[q], q);
      forall l | l in LineFinal(spans, gs)
        ensures exists p, s :: 0 <= p < |gs| && s in gs[p] && Ends(spans, s, l)
      {
        if l in m {
          var p, s :| 0 <= p < q && s in front[p] && Ends(spans, s, l);
          assert gs[p] == front[p];
        } else {
          var s :| s in gs[q] && Ends(spans, s, l);
        }
      }
      forall l | exists p, s :: 0 <= p < |gs| && s in gs[p] && Ends(spans, s, l)
        ensures l in LineFinal(spans, gs)
      {
        var p, s :| 0 <= p < |gs| && s in gs[p] && Ends(spans, s, l);
        if p < q {
          assert front[p] == gs[p];
        }
      }
      forall p, s | 0 <= p < q && s in gs[p] && s < |spans| && spans[s].isEnd
        ensures spans[s].line in LineFinal(spans, gs) && LineFinal(spans, gs)[spans[s].line] == p
      {
        assert gs[p] == front[p];
        forall t | t in gs[q] ensures !Ends(spans, t, spans[s].line) {
        }
      }
    }
  }

  /** The nested loop that fills `lineFinalGroup`. */
  method LineFinalGroups(spans: seq<Span>, groups: seq<seq<nat>>) returns (lfg: map<nat, nat>)
    requires forall p, k :: 0 <= p < |groups| && 0 <= k < |groups[p]| ==> groups[p][k] < |spans|
    ensures lfg == LineFinal(spans, groups)
  {
    lfg := map[];
    for gi := 0 to |groups|
      invariant lfg == LineFinal(spans, groups[..gi])
    {
      assert groups[..gi + 1][..gi] == groups[..gi];
      ghost var m := lfg;
      var g := groups[gi];
      for k := 0 to |g|
        invariant lfg == MarkGroup(m, spans, g[..k], gi)
      {
        assert g[..k + 1][..k] == g[..k];
        var s := spans[g[k]];
        if s.isEnd {
          lfg := lfg[s.line := gi];
        }
      }
      assert g[..|g|] == g;
    }
    assert groups[..|groups|] == groups;
  }

  // ----- The number of lines -----

  /** `spans.reduce((m, s) => Math.max(m, s.line), -1) + 1`. */
  function LineCount(spans: seq<Span>): (r: nat)
    ensures forall s :: 0 <= s < |spans| ==> spans[s].line < r
    ensures spans == [] <==> r == 0
    ensures spans != [] ==> exists s :: 0 <= s < |spans| && spans[s].line == r - 1
    decreases |spans|
  {
    if spans == [] then 0
    else
      var m := LineCount(spans[..|spans| - 1]);
      var line := spans[|spans| - 1].line;
      assert forall s :: 0 <= s < |spans| - 1 ==> spans[s] == spans[..|spans| - 1][s];
      if m > line + 1 then m else line + 1
  }

  // ----- The letters -----

  /** The scheme built so far, the letter codes issued per group, and the
      next code. A letter is kept as the code it was made from; the entry
      pushed is `String.fromCharCode` of it. */
  datatype Lettering = Lettering(scheme: seq<CodeUnit>, letters: map<nat, nat>, next: nat)

  /** The first code issued, `'A'.charCodeAt(0)`. */
  const FirstCode: nat := 65

  /** The lettering after lines `0..n`. */
  function Letter(lfg: map<nat, nat>, n: nat): (r: Lettering)
    ensures |r.scheme| == n
    decreases n
  {
    if n == 0 then Lettering([], map[], FirstCode)
    else
      var st := Letter(lfg, n - 1);
      var l := n - 1;
      if l !in lfg then st.(scheme := st.scheme + [Dash])
      else if lfg[l] in st.letters then st.(scheme := st.scheme + [FromCharCode(st.letters[lfg[l]])])
      else Lettering(st.scheme + [FromCharCode(st.next)], st.letters[lfg[l] := st.next], st.next + 1)
  }

  /** The groups met on lines before `n`. */
  function Seen(lfg: map<nat, nat>, n: nat): set<nat> {
    set l | 0 <= l < n && l in lfg :: lfg[l]
  }

  lemma SeenStep(lfg: map<nat, nat>, n: nat)
    ensures Seen(lfg, n + 1) == if n in lfg then Seen(lfg, n) + {lfg[n]} else Seen(lfg, n)
  {
  }

  /** The groups lettered after `n` lines are those seen, and `next` has
      advanced once per group. */
  lemma {:induction false} LetterKeys(lfg: map<nat, nat>, n: nat)
    ensures Letter(lfg, n).letters.Keys == Seen(lfg, n)
    ensures Letter(lfg, n).next == FirstCode + |Seen(lfg, n)|
    decreases n
  {
    if n > 0 {
      var l := n - 1;
      LetterKeys(lfg, l);
      SeenStep(lfg, l);
      var st := Letter(lfg, l);
      if l in lfg && lfg[l] !in st.letters {
        assert |Seen(lfg, l) + {lfg[l]}| == |Seen(lfg, l)| + 1;
      }
    }
  }

  /** The codes given out are distinct and run from `FirstCode` up to `next`. */
  lemma {:induction false} LetterCodes(lfg: map<nat, nat>, n: nat)
    ensures var st := Letter(lfg, n);
            && FirstCode <= st.next
            && (forall g :: g in st.letters ==> FirstCode <= st.letters[g] < st.next)
            && (forall g, h :: g in st.letters && h in st.letters && g != h ==> st.letters[g] != st.letters[h])
    decreases n
  {
    if n > 0 {
      LetterCodes(lfg, n - 1);
    }
  }

  /** Later lines only append entries and add letters; earlier entries and
      letters stay as they were. */
  lemma {:induction false} LetterGrows(lfg: map<nat, nat>, a: nat, b: nat)
    requires a <= b
    ensures Letter(lfg, b).scheme[..a] == Letter(lfg, a).scheme
    ensures forall g :: g in Letter(lfg, a).letters ==>
              g in Letter(lfg, b).letters && Letter(lfg, b).letters[g] == Letter(lfg, a).letters[g]
    decreases b - a
  {
    if a < b {
      LetterGrows(lfg, a, b - 1);
      assert Letter(lfg, b).scheme[..b - 1] == Letter(lfg, b - 1).scheme;
      assert Letter(lfg, b).scheme[..a] == Letter(lfg, b).scheme[..b - 1][..a];
    }
  }

  /** Line `l`'s entry: a dash without a final group, else the letter of its
      group; a group first met on line `l` gets the code `next` had there. */
  lemma LetterOfLine(lfg: map<nat, nat>, n: nat, l: nat)
    requires l < n
    ensures var st := Letter(lfg, n);
            && (l !in lfg ==> st.scheme[l] == Dash)
            && (l in lfg ==> lfg[l] in st.letters && st.scheme[l] == FromCharCode(st.letters[lfg[l]]))
            && (l in lfg && lfg[l] !in Seen(lfg, l) ==> st.letters[lfg[l]] == Letter(lfg, l).next)
  {
    LetterGrows(lfg, l + 1, n);
    LetterKeys(lfg, l);
    assert Letter(lfg, n).scheme[l] == Letter(lfg, n).scheme[..l + 1][l];
  }

  /** At most one new group per line. */
  lemma {:induction false} SeenBound(lfg: map<nat, nat>, n: nat)
    ensures |Seen(lfg, n)| <= n
    decreases n
  {
    if n > 0 {
      SeenBound(lfg, n - 1);
      SeenStep(lfg, n - 1);
      if n - 1 in lfg {
        assert |Seen(lfg, n - 1) + {lfg[n - 1]}| <= |Seen(lfg, n - 1)| + 1;
      }
    }
  }

  /** Letters wrap around after 65536 codes (`fromCharCode` keeps 16 bits);
      up to this many lines every code issued is below the wrap. */
  const MaxLines: nat := 0x1_0000 - FirstCode

  /** Up to `MaxLines` lines: an entry is a dash exactly when the line has no
      final group, and two lines with final groups share a letter exactly
      when they share the group. */
  lemma SchemeLetters(lfg: map<nat, nat>, n: nat)
    requires n <= MaxLines
    ensures var sc := Letter(lfg, n).scheme;
            && (forall l :: 0 <= l < n ==> (sc[l] == Dash <==> l !in lfg))
            && (forall l, l' :: 0 <= l < n && 0 <= l' < n && l in lfg && l' in lfg ==>
                  (sc[l] == sc[l'] <==> lfg[l] == lfg[l']))
  {
    var st := Letter(lfg, n);
    LetterKeys(lfg, n);
    LetterCodes(lfg, n);
    SeenBound(lfg, n);
    forall l | 0 <= l < n
      ensures l !in lfg ==> st.scheme[l] == Dash
      ensures l in lfg ==> lfg[l] in st.letters && st.scheme[l] == st.letters[lfg[l]] && st.letters[lfg[l]] != Dash
    {
      LetterOfLine(lfg, n, l);
    }
  }

  /** Letters are issued in order of first appearance: the line where a group
      first ends a line gets the code after those of the groups seen before. */
  lemma SchemeFirstAppearance(lfg: map<nat, nat>, n: nat, l: nat)
    requires n <= MaxLines && l < n && l in lfg && lfg[l] !in Seen(lfg, l)
    ensures Letter(lfg, n).scheme[l] == FirstCode + |Seen(lfg, l)|
  {
    LetterOfLine(lfg, n, l);
    LetterKeys(lfg, l);
    SeenBound(lfg, l);
  }

  /** For disjoint groups over spans with one end per line: a line of the
      scheme is a dash exactly when no group member ends it. */
  lemma SchemeDash(spans: seq<Span>, gs: seq<seq<nat>>, n: nat)
    requires Disjoint(gs) && OneEndPerLine(spans) && n <= MaxLines
    ensures var sc := Letter(LineFinal(spans, gs), n).scheme;
            forall l :: 0 <= l < n ==>
              (sc[l] == Dash <==> !exists p, s :: 0 <= p < |gs| && s in gs[p] && Ends(spans, s, l))
  {
    LineFinalShape(spans, gs);
    SchemeLetters(LineFinal(spans, gs), n);
  }

  /** For disjoint groups over spans with one end per line, all on lines
      below `n`: the lines two group members end share a letter exactly
      when the members share the group. */
  lemma SchemeSameGroup(spans: seq<Span>, gs: seq<seq<nat>>, n: nat)
    requires Disjoint(gs) && OneEndPerLine(spans) && n <= MaxLines
    requires forall s :: 0 <= s < |spans| ==> spans[s].line < n
    ensures var sc := Letter(LineFinal(spans, gs), n).scheme;
            forall p, q, s, t ::
              && 0 <= p < |gs| && 0 <= q < |gs| && s in gs[p] && t in gs[q]
              && s < |spans| && spans[s].isEnd && t < |spans| && spans[t].isEnd
              ==>
              (sc[spans[s].line] == sc[spans[t].line] <==> p == q)
  {
    LineFinalShape(spans, gs);
    SchemeLetters(LineFinal(spans, gs), n);
  }

  /** What the scheme promises: one entry per line up to the last line
      holding a span; up to `MaxLines` lines, a dash exactly where no group
      member ends the line, and a shared letter exactly where the line-final
      members share a group. */
  predicate SchemeMarks(spans: seq<Span>, gs: seq<seq<nat>>, sc: seq<CodeUnit>) {
    && |sc| == LineCount(spans)
    && (LineCount(spans) <= MaxLines ==>
          forall l :: 0 <= l < |sc| ==>
            (sc[l] == Dash <==> !exists p, s :: 0 <= p < |gs| && s in gs[p] && Ends(spans, s, l)))
    && (LineCount(spans) <= MaxLines ==>
          forall p, q, s, t ::
            && 0 <= p < |gs| && 0 <= q < |gs| && s in gs[p] && t in gs[q]
            && s < |spans| && spans[s].isEnd && t < |spans| && spans[t].isEnd
            ==>
            spans[s].line < |sc| && spans[t].line < |sc| &&
            (sc[spans[s].line] == sc[spans[t].line] <==> p == q))
  }

  /** The scheme written for disjoint groups over spans with one end per
      line keeps `SchemeMarks`. */
  lemma SchemeShape(spans: seq<Span>, gs: seq<seq<nat>>, sc: seq<CodeUnit>)
    requires Disjoint(gs) && OneEndPerLine(spans)
    requires sc == Letter(LineFinal(spans, gs), LineCount(spans)).scheme
    ensures SchemeMarks(spans, gs, sc)
  {
    var n := LineCount(spans);
    if n <= MaxLines {
      SchemeDash(spans, gs, n);
      SchemeSameGroup(spans, gs, n);
    }
  }

  /** The loop that writes the scheme. */
  method SchemeOf(lfg: map<nat, nat>, lineCount: nat) returns (scheme: seq<CodeUnit>)
    ensures scheme == Letter(lfg, lineCount).scheme
  {
    var schemeLetters: map<nat, nat> := map[];
    var nextCode := FirstCode;
    scheme := [];
    for l := 0 to lineCount
      invariant Lettering(scheme, schemeLetters, nextCode) == Letter(lfg, l)
    {
      if l !in lfg {
        scheme := scheme + [Dash];
      } else {
        var g := lfg[l];
        if g !in schemeLetters {
          schemeLetters := schemeLetters[g := nextCode];
          nextCode := nextCode + 1;
        }
        scheme := scheme + [FromCharCode(schemeLetters[g])];
      }
    }
  }
}
