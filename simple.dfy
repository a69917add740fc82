/** The command-only variant `RhymeAnalyzerSimple.scheme`: every non-blank
    line gets one letter, keyed by the vowel class and the last two tail
    characters of the line's last word; equal keys share a letter, and
    letters are handed out from `A` in order of first appearance. */
module Simple {
  import opened Text

  datatype Option<T> = None | Some(value: T)

  // ----- Lines and end words -----

  /** `text.split(/\n/).map(s => s.trim()).filter(Boolean)`. */
  function TrimmedLines(ls: seq<string>): (r: seq<string>)
    ensures |r| <= |ls|
    ensures forall k :: 0 <= k < |r| ==> r[k] != []
    decreases |ls|
  {
    if ls == [] then []
    else
      var t := Trim(ls[|ls| - 1]);
      TrimmedLines(ls[..|ls| - 1]) + (if t == [] then [] else [t])
  }

  /** The lines are the non-blank ones: one per line that is not blank. */
  lemma {:induction false} TrimmedLinesCount(ls: seq<string>)
    ensures |TrimmedLines(ls)| == |BlankFree(ls)|
    decreases |ls|
  {
    if ls != [] {
      TrimmedLinesCount(ls[..|ls| - 1]);
    }
  }

  /** The indices of the lines that are not blank. */
  function BlankFree(ls: seq<string>): (r: seq<nat>)
    ensures forall k :: 0 <= k < |r| ==> r[k] < |ls| && !IsBlank(ls[r[k]])
    ensures forall i :: 0 <= i < |ls| && !IsBlank(ls[i]) ==> i in r
    decreases |ls|
  {
    if ls == [] then []
    else
      var front := BlankFree(ls[..|ls| - 1]);
      assert forall i :: 0 <= i < |ls| - 1 ==> ls[..|ls| - 1][i] == ls[i];
      front + (if IsBlank(ls[|ls| - 1]) then [] else [|ls| - 1])
  }

  /** A character of the class `[A-Za-z']`. */
  predicate IsEndChar(c: char) {
    IsLetter(c) || c == '\''
  }

  /** The end characters at the very end of `s`, up to the first other one. */
  function TrailingRun(s: string): (r: string)
    ensures |r| <= |s| && r == s[|s| - |r|..]
    ensures forall k :: 0 <= k < |r| ==> IsEndChar(r[k])
    ensures |r| < |s| ==> !IsEndChar(s[|s| - |r| - 1])
    decreases |s|
  {
    if s != [] && IsEndChar(s[|s| - 1]) then TrailingRun(s[..|s| - 1]) + [s[|s| - 1]] else []
  }

  /** Where the last end character of `s` stops, 0 when there is none. */
  function LastRunEnd(s: string): (e: nat)
    ensures e <= |s|
    ensures e > 0 ==> IsEndChar(s[e - 1])
    ensures forall k :: e <= k < |s| ==> !IsEndChar(s[k])
    decreases |s|
  {
    if s == [] then 0
    else if IsEndChar(s[|s| - 1]) then |s|
    else LastRunEnd(s[..|s| - 1])
  }

  /** The last match of `/[A-Za-z']+/g`: the maximal run of end characters
      that no later end character follows; "" when there is none. */
  function LastMatch(s: string): string {
    TrailingRun(s[..LastRunEnd(s)])
  }

  /** `(l.match(/[A-Za-z']+/g) || []).pop()?.toLowerCase() || ''`. */
  function EndWord(line: string): string {
    Lower(LastMatch(line))
  }

  /** `r` is the run of end characters that ends at `e`, starts the line or
      follows another character, and after which the line holds no end
      character; it is empty exactly when the line holds none at all. */
  predicate LastRun(s: string, e: nat, r: string) {
    && |r| <= e <= |s| && r == s[e - |r|..e]
    && (forall k :: 0 <= k < |r| ==> IsEndChar(r[k]))
    && (e - |r| == 0 || !IsEndChar(s[e - |r| - 1]))
    && (forall k :: e <= k < |s| ==> !IsEndChar(s[k]))
    && (r == [] <==> forall k :: 0 <= k < |s| ==> !IsEndChar(s[k]))
  }

  /** The end word is the lower-cased last run of `[A-Za-z']`. */
  lemma LastMatchShape(s: string)
    ensures LastRun(s, LastRunEnd(s), LastMatch(s))
  {
    var e := LastRunEnd(s);
    RunAt(s, e, TrailingRun(s[..e]));
  }

  /** The trailing run of the prefix that ends at the last end character. */
  lemma RunAt(s: string, e: nat, r: string)
    requires e <= |s|
    requires e > 0 ==> IsEndChar(s[e - 1])
    requires forall k :: e <= k < |s| ==> !IsEndChar(s[k])
    requires |r| <= e && r == s[..e][e - |r|..]
    requires forall k :: 0 <= k < |r| ==> IsEndChar(r[k])
    requires |r| < e ==> !IsEndChar(s[..e][e - |r| - 1])
    ensures LastRun(s, e, r)
  {
    assert s[..e][e - |r|..] == s[e - |r|..e];
    if |r| < e {
      assert s[..e][e - |r| - 1] == s[e - |r| - 1];
    }
    if e > 0 && r == [] {
      assert s[..e][e - 1] == s[e - 1];
    }
  }

  /** End words hold only `[a-z']`. */
  predicate IsTailChar(c: char) {
    IsLower(c) || c == '\''
  }

  lemma EndWordChars(line: string)
    ensures forall k :: 0 <= k < |EndWord(line)| ==> IsTailChar(EndWord(line)[k])
  {
    LastMatchShape(line);
    LowerEndChars(LastMatch(line));
  }

  /** Lower-casing a run of end characters leaves `[a-z']`. */
  lemma LowerEndChars(r: string)
    requires forall k :: 0 <= k < |r| ==> IsEndChar(r[k])
    ensures forall k :: 0 <= k < |Lower(r)| ==> IsTailChar(Lower(r)[k])
  {
    forall k | 0 <= k < |r| ensures IsTailChar(LowerChar(r[k])) {
      assert IsEndChar(r[k]);
    }
  }

  /** The end words of the non-blank lines of `text`. */
  function EndWords(text: string): (r: seq<string>)
    ensures |r| == |TrimmedLines(Lines(text))|
  {
    var ls := TrimmedLines(Lines(text));
    seq(|ls|, i requires 0 <= i < |ls| => EndWord(ls[i]))
  }

  // ----- classOf -----

  predicate IsVowelLetter(c: char) {
    c == 'a' || c == 'e' || c == 'i' || c == 'o' || c == 'u' || c == 'y'
  }

  /** The two-letter alternatives of the `classOf` pattern: oy, oi, ay, ai,
      ey, ei, oo, ow, ou, au, ee, ie, ea (the pattern lists `ei` twice). */
  predicate IsDigraph(a: char, b: char) {
    || (a == 'o' && (b == 'y' || b == 'i' || b == 'o' || b == 'w' || b == 'u'))
    || (a == 'a' && (b == 'y' || b == 'i' || b == 'u'))
    || (a == 'e' && (b == 'y' || b == 'i' || b == 'e' || b == 'a'))
    || (a == 'i' && b == 'e')
  }

  /** Some alternative of the pattern matches at `q`: a digraph or one of
      the letters `[aeiouy]`. */
  predicate UnitStarts(w: string, q: nat) {
    q < |w| && (IsVowelLetter(w[q]) || (q + 1 < |w| && IsDigraph(w[q], w[q + 1])))
  }

  /** The lookahead `(?!.*(…))` at `p`: no alternative matches from `p` on. */
  predicate NoUnitFrom(w: string, p: nat) {
    forall q :: p <= q < |w| ==> !UnitStarts(w, q)
  }

  /** Every digraph starts with a vowel letter, so an alternative starts at
      `q` exactly when `w[q]` is a vowel letter. */
  lemma UnitStartsVowel(w: string, q: nat)
    ensures UnitStarts(w, q) <==> q < |w| && IsVowelLetter(w[q])
  {
  }

  /** The alternatives tried in order at `p`: the digraphs first (which of
      them matches decides nothing, each being its own text), then one vowel
      letter; each only when the lookahead holds after it. */
  function UnitAt(w: string, p: nat): Option<string> {
    if p + 2 <= |w| && IsDigraph(w[p], w[p + 1]) && NoUnitFrom(w, p + 2) then Some(w[p..p + 2])
    else if p < |w| && IsVowelLetter(w[p]) && NoUnitFrom(w, p + 1) then Some([w[p]])
    else None
  }

  /** The leftmost match from `p` on. */
  function UnitFrom(w: string, p: nat): Option<string>
    decreases |w| - p
  {
    if p >= |w| then None
    else if UnitAt(w, p).Some? then UnitAt(w, p)
    else UnitFrom(w, p + 1)
  }

  /** The class names `classOf` returns; `NoVowel` is its '_'. Equal names
      are equal constructors, so comparing classes is comparing the strings. */
  datatype VowelClass = NoVowel | OY | AY | UW | OW | AO | IY | EH | AE | IH | UH

  /** The digraph table of `classOf`, looked up by the two letters. */
  function DigraphClass(a: char, b: char): (r: Option<VowelClass>)
    ensures r.Some? <==> IsDigraph(a, b)
  {
    match (a, b)
    case ('o', 'y') => Some(OY) case ('o', 'i') => Some(OY)
    case ('a', 'y') => Some(AY) case ('a', 'i') => Some(AY)
    case ('e', 'y') => Some(AY) case ('e', 'i') => Some(AY)
    case ('o', 'o') => Some(UW) case ('o', 'w') => Some(OW) case ('o', 'u') => Some(OW)
    case ('a', 'u') => Some(AO) case ('e', 'e') => Some(IY) case ('i', 'e') => Some(IY)
    case ('e', 'a') => Some(EH)
    case _ => None
  }

  /** The single-letter table of `classOf`. */
  function LetterClass(c: char): (r: Option<VowelClass>)
    ensures r.Some? <==> IsVowelLetter(c)
  {
    match c
    case 'a' => Some(AE) case 'e' => Some(EH) case 'i' => Some(IH)
    case 'o' => Some(AO) case 'u' => Some(UH) case 'y' => Some(IH)
    case _ => None
  }

  /** The class of a matched unit: the digraph table (whose keys have two
      letters), else the letter table (one letter), else '_'. */
  function UnitClass(v: string): VowelClass {
    if |v| == 2 && DigraphClass(v[0], v[1]).Some? then DigraphClass(v[0], v[1]).value
    else if |v| == 1 && LetterClass(v[0]).Some? then LetterClass(v[0]).value
    else NoVowel
  }

  /** `classOf(w)`. */
  function ClassOf(w: string): VowelClass {
    match UnitFrom(w, 0)
    case None => NoVowel
    case Some(v) => UnitClass(v)
  }

  /** Index of the last vowel letter of `w`, -1 when there is none. */
  function LastVowelLetter(w: string): (k: int)
    ensures -1 <= k < |w|
    ensures 0 <= k ==> IsVowelLetter(w[k])
    ensures forall j :: k < j < |w| ==> !IsVowelLetter(w[j])
    decreases |w|
  {
    if w == [] then -1
    else if IsVowelLetter(w[|w| - 1]) then |w| - 1
    else LastVowelLetter(w[..|w| - 1])
  }

  /** A vowel letter starts an alternative; nothing after the last one does. */
  lemma NoUnitAfterLast(w: string)
    ensures NoUnitFrom(w, LastVowelLetter(w) + 1)
    ensures forall p :: 0 <= p <= LastVowelLetter(w) ==> !NoUnitFrom(w, p)
  {
    var l := LastVowelLetter(w);
    NoUnitPastLast(w);
    if l >= 0 {
      UnitStartsVowel(w, l);
    }
  }

  lemma NoUnitPastLast(w: string)
    ensures NoUnitFrom(w, LastVowelLetter(w) + 1)
  {
    var l := LastVowelLetter(w);
    forall q | l + 1 <= q < |w| ensures !UnitStarts(w, q) {
      UnitStartsVowel(w, q);
    }
  }

  /** Where the `classOf` match starts: the letter before the last vowel
      letter when the two form a digraph, else the last vowel letter. */
  function UnitStart(w: string): (s: nat)
    requires LastVowelLetter(w) >= 0
    ensures s <= LastVowelLetter(w)
  {
    var l := LastVowelLetter(w);
    if l >= 1 && IsDigraph(w[l - 1], w[l]) then l - 1 else l
  }

  /** Nothing matches before the start. */
  lemma NoUnitBefore(w: string, p: nat)
    requires LastVowelLetter(w) >= 0 && p < UnitStart(w)
    ensures UnitAt(w, p) == None
  {
    NoUnitAfterLast(w);
  }

  lemma {:induction false} UnitFromSkips(w: string, p: nat)
    requires LastVowelLetter(w) >= 0 && p <= UnitStart(w)
    ensures UnitFrom(w, p) == UnitAt(w, UnitStart(w))
    decreases UnitStart(w) - p
  {
    if p < UnitStart(w) {
      NoUnitBefore(w, p);
      UnitFromSkips(w, p + 1);
    } else {
      UnitAtStart(w);
    }
  }

  /** The unit that starts at `s` for the last vowel letter `l`: the
      digraph ending at `l` when `s` is before it, else "ow" for an `o`
      followed by `w`, else the letter at `l`. */
  function LastUnit(w: string, l: nat, s: nat): string
    requires s <= l < |w|
  {
    if s < l then w[l - 1..l + 1]
    else if l + 2 <= |w| && w[l] == 'o' && w[l + 1] == 'w' then "ow"
    else [w[l]]
  }

  /** The unit found at the start. */
  lemma UnitAtStart(w: string)
    requires LastVowelLetter(w) >= 0
    ensures UnitAt(w, UnitStart(w)) == Some(LastUnit(w, LastVowelLetter(w), UnitStart(w)))
  {
    NoUnitPastLast(w);
    UnitAtLast(w, LastVowelLetter(w), UnitStart(w));
  }

  lemma UnitAtLast(w: string, l: nat, s: nat)
    requires l < |w| && IsVowelLetter(w[l]) && NoUnitFrom(w, l + 1)
    requires s == if l >= 1 && IsDigraph(w[l - 1], w[l]) then l - 1 else l
    ensures UnitAt(w, s) == Some(LastUnit(w, l, s))
  {
    if s < l {
      assert s + 2 == l + 1;
      DigraphUnit(w, s);
    } else if l + 2 <= |w| && w[l] == 'o' && w[l + 1] == 'w' {
      assert NoUnitFrom(w, l + 2);
      DigraphUnit(w, l);
      OwSlice(w, l);
    } else {
      LetterUnit(w, l);
    }
  }

  lemma DigraphUnit(w: string, s: nat)
    requires s + 2 <= |w| && IsDigraph(w[s], w[s + 1]) && NoUnitFrom(w, s + 2)
    ensures UnitAt(w, s) == Some(w[s..s + 2])
  {
  }

  lemma OwSlice(w: string, l: nat)
    requires l + 2 <= |w| && w[l] == 'o' && w[l + 1] == 'w'
    ensures w[l..l + 2] == "ow"
  {
  }

  lemma LetterUnit(w: string, l: nat)
    requires l < |w| && IsVowelLetter(w[l]) && NoUnitFrom(w, l + 1)
    requires !(l + 2 <= |w| && w[l] == 'o' && w[l + 1] == 'w')
    ensures UnitAt(w, l) == Some([w[l]])
  {
    if l + 2 <= |w| {
      assert !UnitStarts(w, l + 1);
    }
  }

  /** `classOf(w)` by the last vowel letter `l`: '_' without one; the digraph
      table's class when `w[l-1]` and `w[l]` form a digraph; `OW` for an `o`
      followed by `w`; otherwise the single-letter table's class of `w[l]`. */
  function ClassByLast(w: string): VowelClass {
    ClassAt(w, LastVowelLetter(w))
  }

  function ClassAt(w: string, l: int): VowelClass
    requires -1 <= l < |w|
    requires l >= 0 ==> IsVowelLetter(w[l])
  {
    if l < 0 then NoVowel
    else if l >= 1 && IsDigraph(w[l - 1], w[l]) then DigraphClass(w[l - 1], w[l]).value
    else if l + 2 <= |w| && w[l] == 'o' && w[l + 1] == 'w' then OW
    else LetterClass(w[l]).value
  }

  /** The leftmost match of the `classOf` pattern is found at the last vowel
      letter, so `classOf` is the class read off there. */
  lemma ClassOfLastVowel(w: string)
    ensures ClassOf(w) == ClassByLast(w)
  {
    var l := LastVowelLetter(w);
    if l < 0 {
      NoUnitAnywhere(w, 0);
    } else {
      UnitFromSkips(w, 0);
      UnitAtStart(w);
      UnitClassAt(w, l, UnitStart(w));
    }
  }

  lemma UnitClassAt(w: string, l: nat, s: nat)
    requires l < |w| && IsVowelLetter(w[l])
    requires s == if l >= 1 && IsDigraph(w[l - 1], w[l]) then l - 1 else l
    ensures UnitClass(LastUnit(w, l, s)) == ClassAt(w, l)
  {
    var u := LastUnit(w, l, s);
    if s < l {
      assert u[0] == w[l - 1] && u[1] == w[l];
    } else if l + 2 <= |w| && w[l] == 'o' && w[l + 1] == 'w' {
      assert DigraphClass('o', 'w') == Some(OW);
    }
  }

  lemma {:induction false} NoUnitAnywhere(w: string, p: nat)
    requires LastVowelLetter(w) < 0
    ensures UnitFrom(w, p) == None
    decreases |w| - p
  {
    if p < |w| {
      NoUnitAfterLast(w);
      NoUnitAnywhere(w, p + 1);
    }
  }

  // ----- cod -----

  /** The last `k` characters of `s` (`slice(-k)`), all of it when shorter. */
  function LastChars(s: string, k: nat): (r: string)
    ensures |r| == if |s| < k then |s| else k
    ensures r == s[|s| - |r|..]
  {
    if |s| < k then s else s[|s| - k..]
  }

  /** All of `s` is `[a-z']`. */
  predicate AllTail(s: string) {
    forall k :: 0 <= k < |s| ==> IsTailChar(s[k])
  }

  lemma AllTailSuffix(s: string, k: nat)
    requires AllTail(s) && k <= |s|
    ensures AllTail(s[k..])
  {
    forall i | 0 <= i < |s| - k ensures IsTailChar(s[k..][i]) {
      assert s[k..][i] == s[k + i];
    }
  }

  /** The backtracking of `(?:.*[aeiouy])([a-z']*)$` from `e` down: the
      greatest position at most `e` holding a vowel letter after which only
      `[a-z']` follows, or None. */
  function CodStart(w: string, e: int): (r: Option<nat>)
    requires e < |w|
    ensures r.Some? ==> r.value <= e
    decreases e + 1
  {
    if e < 0 then None
    else if IsVowelLetter(w[e]) && AllTail(w[e + 1..]) then Some(e)
    else CodStart(w, e - 1)
  }

  /** A vowel letter followed by `[a-z']` only, up to the end of `w`. */
  predicate CodAnchor(w: string, q: nat)
    requires q < |w|
  {
    IsVowelLetter(w[q]) && AllTail(w[q + 1..])
  }

  /** `r` is the last anchor at or before `e`, None when there is none. */
  predicate LastAnchor(w: string, e: int, r: Option<nat>)
    requires e < |w|
  {
    && (r.Some? ==> r.value <= e && CodAnchor(w, r.value))
    && (forall q: nat :: (if r.Some? then r.value < q else true) && q <= e ==> !CodAnchor(w, q))
  }

  /** The search finds the last anchor at or before `e`, None when there is
      none. */
  lemma {:induction false} CodStartSpec(w: string, e: int)
    requires e < |w|
    ensures LastAnchor(w, e, CodStart(w, e))
    decreases e + 1
  {
    if e >= 0 && !CodAnchor(w, e) {
      CodStartSpec(w, e - 1);
    }
  }

  /** `cod(w)`: the captured tail after that vowel letter, "" without a
      match, cut to its last two characters. */
  function Cod(w: string): string {
    match CodStart(w, |w| - 1)
    case None => ""
    case Some(e) => LastChars(w[e + 1..], 2)
  }

  /** For any word, `cod` has at most two characters, each of `[a-z']` and
      none a vowel letter. */
  lemma CodShape(w: string)
    ensures |Cod(w)| <= 2
    ensures forall k :: 0 <= k < |Cod(w)| ==> IsTailChar(Cod(w)[k]) && !IsVowelLetter(Cod(w)[k])
  {
    var m := CodStart(w, |w| - 1);
    CodStartSpec(w, |w| - 1);
    if m.Some? {
      var e := m.value;
      var t := w[e + 1..];
      forall k | 0 <= k < |t| ensures IsTailChar(t[k]) && !IsVowelLetter(t[k]) {
        assert w[e + 1 + k + 1..] == t[k + 1..];
        assert !CodAnchor(w, e + 1 + k);
      }
    }
  }

  /** The tail after the last vowel letter, cut to two characters, and ""
      when there is no vowel letter. */
  function CodByLast(w: string): string {
    TailAfter(w, LastVowelLetter(w))
  }

  /** The last two characters after position `l`, "" when `l` is -1. */
  function TailAfter(w: string, l: int): string
    requires -1 <= l < |w|
  {
    if l < 0 then "" else LastChars(w[l + 1..], 2)
  }

  /** On an end word (`[a-z']` only), the backtracking `cod` is the tail
      after the last vowel letter. */
  lemma CodOfLastVowel(w: string)
    requires AllTail(w)
    ensures Cod(w) == CodByLast(w)
  {
    var l, m := LastVowelLetter(w), CodStart(w, |w| - 1);
    CodStartSpec(w, |w| - 1);
    if l >= 0 {
      AllTailSuffix(w, l + 1);
    }
    AnchorAtLast(w, l, m);
    CodAt(w, m);
    assert (if m.None? then -1 else m.value) == l;
  }

  /** Given what both searches find, the last anchor is the last vowel
      letter. */
  lemma AnchorAtLast(w: string, l: int, m: Option<nat>)
    requires -1 <= l < |w|
    requires 0 <= l ==> IsVowelLetter(w[l]) && AllTail(w[l + 1..])
    requires forall j :: l < j < |w| ==> !IsVowelLetter(w[j])
    requires LastAnchor(w, |w| - 1, m)
    ensures m == if l < 0 then None else Some(l)
  {
    if m.Some? {
      assert IsVowelLetter(w[m.value]);
    }
    if l >= 0 {
      assert CodAnchor(w, l);
    }
  }

  lemma CodAt(w: string, m: Option<nat>)
    requires m == CodStart(w, |w| - 1)
    ensures m.Some? ==> m.value < |w|
    ensures Cod(w) == TailAfter(w, if m.None? then -1 else m.value)
  {
  }

  // ----- Keys -----

  /** Two end words share a letter when `classOf` and `cod` agree on them. */
  datatype Key = Key(vowel: VowelClass, tail: string)

  function KeyOf(w: string): Key {
    Key(ClassOf(w), Cod(w))
  }

  function KeysOf(ends: seq<string>): (r: seq<Key>)
    ensures |r| == |ends|
    ensures forall i :: 0 <= i < |ends| ==> r[i] == KeyOf(ends[i])
  {
    seq(|ends|, i requires 0 <= i < |ends| => KeyOf(ends[i]))
  }

  /** A key `cod` can produce: a tail of at most two `[a-z']` characters. */
  predicate ValidKey(k: Key) {
    |k.tail| <= 2 && AllTail(k.tail)
  }

  lemma KeyOfValid(w: string)
    ensures ValidKey(KeyOf(w))
  {
    CodShape(w);
  }

  /** Numbering of the keys, to count them. */
  function ClassCode(c: VowelClass): (n: nat)
    ensures n < 11
  {
    match c
    case NoVowel => 0 case OY => 1 case AY => 2 case UW => 3 case OW => 4 case AO => 5
    case IY => 6 case EH => 7 case AE => 8 case IH => 9 case UH => 10
  }

  function ClassOfCode(n: nat): (c: VowelClass)
    requires n < 11
  {
    [NoVowel, OY, AY, UW, OW, AO, IY, EH, AE, IH, UH][n]
  }

  lemma ClassCodeRoundTrip(c: VowelClass)
    ensures ClassOfCode(ClassCode(c)) == c
  {
  }

  /** `a`..`z` as 1..26 and `'` as 27. */
  function CharCode(c: char): (n: nat)
    requires IsTailChar(c)
    ensures 1 <= n <= 27
  {
    if c == '\'' then 27 else (c as int) - ('a' as int) + 1
  }

  function CharOfCode(n: nat): (c: char)
    requires 1 <= n <= 27
  {
    if n == 27 then '\'' else (('a' as int) + n - 1) as char
  }

  lemma CharCodeRoundTrip(c: char)
    requires IsTailChar(c)
    ensures CharOfCode(CharCode(c)) == c
  {
  }

  /** A tail as a number below 784: 0 for "", 1..27 for one character,
      28 and over for two. */
  function TailCode(t: string): (n: nat)
    requires |t| <= 2 && AllTail(t)
    ensures n < 784
  {
    if |t| == 0 then 0
    else if |t| == 1 then CharCode(t[0])
    else 28 * CharCode(t[0]) + CharCode(t[1])
  }

  function TailOfCode(n: nat): string
    requires n < 784
  {
    if n == 0 then ""
    else if n < 28 then [CharOfCode(n)]
    else if 1 <= n / 28 <= 27 && 1 <= n % 28 <= 27 then [CharOfCode(n / 28), CharOfCode(n % 28)]
    else ""
  }

  lemma TailCodeRoundTrip(t: string)
    requires |t| <= 2 && AllTail(t)
    ensures TailOfCode(TailCode(t)) == t
  {
    if |t| == 1 {
      CharCodeRoundTrip(t[0]);
    } else if |t| == 2 {
      var a, b := CharCode(t[0]), CharCode(t[1]);
      assert (28 * a + b) / 28 == a && (28 * a + b) % 28 == b;
      CharCodeRoundTrip(t[0]);
      CharCodeRoundTrip(t[1]);
    }
  }

  /** There are fewer than 8624 keys. */
  const KeySpace: nat := 11 * 784

  function KeyCode(k: Key): (n: nat)
    requires ValidKey(k)
    ensures n < KeySpace
  {
    784 * ClassCode(k.vowel) + TailCode(k.tail)
  }

  function KeyOfCode(n: nat): Key
    requires n < KeySpace
  {
    Key(ClassOfCode(n / 784), TailOfCode(n % 784))
  }

  lemma KeyCodeRoundTrip(k: Key)
    requires ValidKey(k)
    ensures KeyOfCode(KeyCode(k)) == k
  {
    var c, t := ClassCode(k.vowel), TailCode(k.tail);
    assert (784 * c + t) / 784 == c && (784 * c + t) % 784 == t;
    ClassCodeRoundTrip(k.vowel);
    TailCodeRoundTrip(k.tail);
  }

  /** Distinct naturals below `n` number at most `n`. */
  lemma {:induction false} Pigeonhole(xs: seq<nat>, n: nat)
    requires forall i :: 0 <= i < |xs| ==> xs[i] < n
    requires forall i, j :: 0 <= i < j < |xs| ==> xs[i] != xs[j]
    ensures |xs| <= n
    decreases n
  {
    if xs == [] {
    } else if k :| 0 <= k < |xs| && xs[k] == n - 1 {
      var ys := xs[..k] + xs[k + 1..];
      assert forall i :: 0 <= i < |ys| ==> ys[i] == if i < k then xs[i] else xs[i + 1];
      Pigeonhole(ys, n - 1);
    } else {
      assert xs[0] < n;
      Pigeonhole(xs, n - 1);
    }
  }

  /** Distinct valid keys number at most `KeySpace`. */
  lemma KeyCount(ks: seq<Key>)
    requires forall i :: 0 <= i < |ks| ==> ValidKey(ks[i])
    requires forall i, j :: 0 <= i < j < |ks| ==> ks[i] != ks[j]
    ensures |ks| <= KeySpace
  {
    var codes := seq(|ks|, i requires 0 <= i < |ks| => KeyCode(ks[i]));
    forall i, j | 0 <= i < j < |ks| ensures codes[i] != codes[j] {
      KeyCodeRoundTrip(ks[i]);
      KeyCodeRoundTrip(ks[j]);
    }
    Pigeonhole(codes, KeySpace);
  }

  // ----- Letters -----

  /** No key occurs twice. */
  predicate Distinct(ks: seq<Key>) {
    forall i, j :: 0 <= i < j < |ks| ==> ks[i] != ks[j]
  }

  /** The distinct keys of `keys` in order of first appearance. */
  function Order(keys: seq<Key>): (r: seq<Key>)
    ensures Distinct(r)
    ensures forall x :: x in r <==> x in keys
    ensures |r| <= |keys|
    decreases |keys|
  {
    if keys == [] then []
    else
      var front := Order(keys[..|keys| - 1]);
      assert forall y :: y in keys <==> y in keys[..|keys| - 1] || y == keys[|keys| - 1];
      AddKey(front, keys[|keys| - 1])
  }

  /** `o` with `x` appended when it is new. */
  function AddKey(o: seq<Key>, x: Key): (r: seq<Key>)
    requires Distinct(o)
    ensures Distinct(r) && o <= r
    ensures forall y :: y in r <==> y in o || y == x
    ensures |r| == |o| + (if x in o then 0 else 1)
    ensures x !in o ==> r[|o|] == x
  {
    if x in o then o else o + [x]
  }

  /** Position of `x` in `s`, the first one. */
  function IndexOf(s: seq<Key>, x: Key): (k: nat)
    requires x in s
    ensures k < |s| && s[k] == x
    ensures forall t :: 0 <= t < k ==> s[t] != x
    decreases |s|
  {
    if s[0] == x then 0 else 1 + IndexOf(s[1..], x)
  }

  /** The first letter handed out, `A`. */
  const FirstLabel: nat := 'A' as int

  /** The letter of line `i`: the one whose offset from `A` is the rank of
      the line's key among the keys by first appearance. */
  function LabelOf(keys: seq<Key>, i: nat): CodeUnit
    requires i < |keys|
  {
    FromCharCode(FirstLabel + IndexOf(Order(keys), keys[i]))
  }

  function Labels(keys: seq<Key>): (r: seq<CodeUnit>)
    ensures |r| == |keys|
    ensures forall i :: 0 <= i < |keys| ==> r[i] == LabelOf(keys, i)
  {
    seq(|keys|, i requires 0 <= i < |keys| => LabelOf(keys, i))
  }

  /** The scheme of `text`. */
  function SchemeOf(text: string): seq<CodeUnit> {
    Labels(KeysOf(EndWords(text)))
  }

  /** One step of `Order`: a key already seen adds nothing, a new one goes
      last. */
  lemma OrderStep(keys: seq<Key>, i: nat)
    requires i < |keys|
    ensures Order(keys[..i + 1]) == AddKey(Order(keys[..i]), keys[i])
  {
    assert keys[..i + 1][..i] == keys[..i];
  }

  /** The order of a prefix is a prefix of the order. */
  lemma {:induction false} OrderPrefix(keys: seq<Key>, i: nat)
    requires i <= |keys|
    ensures Order(keys[..i]) <= Order(keys)
    decreases |keys|
  {
    if i < |keys| {
      var front := keys[..|keys| - 1];
      assert keys[..i] == front[..i];
      OrderPrefix(front, i);
      PrefixTrans(Order(front[..i]), Order(front), Order(keys));
    } else {
      assert keys[..i] == keys;
    }
  }

  lemma PrefixTrans(a: seq<Key>, b: seq<Key>, c: seq<Key>)
    requires a <= b && b <= c
    ensures a <= c
  {
  }

  /** A key's rank, once it has appeared, stays the same. */
  lemma IndexInPrefix(p: seq<Key>, q: seq<Key>, x: Key)
    requires p <= q && x in p
    ensures x in q && IndexOf(p, x) == IndexOf(q, x)
  {
    var k := IndexOf(p, x);
    assert q[k] == x;
    assert forall t :: 0 <= t < k ==> q[t] == p[t];
  }

  /** The label of line `i` by the keys up to it: the rank of its key there. */
  lemma LabelOfPrefix(keys: seq<Key>, i: nat)
    requires i < |keys|
    ensures keys[i] in Order(keys[..i + 1])
    ensures LabelOf(keys, i) == FromCharCode(FirstLabel + IndexOf(Order(keys[..i + 1]), keys[i]))
  {
    assert keys[..i + 1][i] == keys[i];
    OrderPrefix(keys, i + 1);
    IndexInPrefix(Order(keys[..i + 1]), Order(keys), keys[i]);
  }

  /** A key seen for the first time at line `i` gets the letter after all
      letters handed out before it. */
  lemma {:induction false} FirstAppearance(keys: seq<Key>, i: nat)
    requires i < |keys| && keys[i] !in keys[..i]
    ensures LabelOf(keys, i) == FromCharCode(FirstLabel + |Order(keys[..i])|)
  {
    OrderStep(keys, i);
    LabelOfPrefix(keys, i);
    var o := Order(keys[..i]);
    assert keys[i] !in o;
    IndexAtDistinct(Order(keys[..i + 1]), keys[i], |o|);
  }

  /** In a sequence without repeats, the position holding `x` is its index. */
  lemma IndexAtDistinct(s: seq<Key>, x: Key, k: nat)
    requires Distinct(s) && k < |s| && s[k] == x
    ensures IndexOf(s, x) == k
  {
  }

  /** Keys `cod` and `classOf` produce number fewer than 8624, so the
      letters stay within `A` + 8623 and never wrap around 16 bits. */
  lemma {:induction false} LabelRange(keys: seq<Key>, i: nat)
    requires forall k :: 0 <= k < |keys| ==> ValidKey(keys[k])
    requires i < |keys|
    ensures LabelOf(keys, i) == FirstLabel + IndexOf(Order(keys), keys[i])
    ensures FirstLabel <= LabelOf(keys, i) < FirstLabel + |Order(keys)| <= FirstLabel + KeySpace
  {
    var o := Order(keys);
    forall k | 0 <= k < |o| ensures ValidKey(o[k]) {
      assert o[k] in keys;
    }
    KeyCount(o);
    var n := FirstLabel + IndexOf(o, keys[i]);
    assert n < 0x1_0000;
    assert FromCharCode(n) == n;
  }

  /** Every key `cod` and `classOf` produce is valid. */
  predicate AllValid(keys: seq<Key>) {
    forall k :: 0 <= k < |keys| ==> ValidKey(keys[k])
  }

  lemma KeysOfValid(ends: seq<string>)
    ensures AllValid(KeysOf(ends))
  {
    forall k | 0 <= k < |ends| ensures ValidKey(KeysOf(ends)[k]) {
      KeyOfValid(ends[k]);
    }
  }

  /** Two lines get the same letter exactly when their keys agree. */
  lemma SameLabelIffSameKey(keys: seq<Key>, i: nat, j: nat)
    requires AllValid(keys) && i < |keys| && j < |keys|
    ensures LabelOf(keys, i) == LabelOf(keys, j) <==> keys[i] == keys[j]
  {
    LabelRange(keys, i);
    LabelRange(keys, j);
    var o := Order(keys);
    if IndexOf(o, keys[i]) == IndexOf(o, keys[j]) {
      assert keys[i] == keys[j];
    }
  }

  /** Two lines get the same letter exactly when their end words have the
      same `classOf` and the same `cod`. */
  lemma SameLetterIffSameClassAndCod(ends: seq<string>, i: nat, j: nat)
    requires i < |ends| && j < |ends|
    ensures Labels(KeysOf(ends))[i] == Labels(KeysOf(ends))[j] <==>
              ClassOf(ends[i]) == ClassOf(ends[j]) && Cod(ends[i]) == Cod(ends[j])
  {
    KeysOfValid(ends);
    SameLabelIffSameKey(KeysOf(ends), i, j);
  }

  /** A line holds no letter and no apostrophe. */
  predicate NoEndChar(line: string) {
    forall k :: 0 <= k < |line| ==> !IsEndChar(line[k])
  }

  /** Non-blank lines without letters or apostrophes all end in the word
      "", so they share one letter. */
  lemma LetterlessLinesShare(text: string, i: nat, j: nat)
    requires var ls := TrimmedLines(Lines(text));
             i < |ls| && j < |ls| && NoEndChar(ls[i]) && NoEndChar(ls[j])
    ensures SchemeOf(text)[i] == SchemeOf(text)[j]
  {
    var ls := TrimmedLines(Lines(text));
    var ends := EndWords(text);
    LastMatchShape(ls[i]);
    LastMatchShape(ls[j]);
    assert ends[i] == [] && ends[j] == [];
    SameLetterIffSameClassAndCod(ends, i, j);
  }

  /** No line is left with `-`: every letter is `A` or after it. */
  lemma LabelNotDash(ends: seq<string>, i: nat)
    requires i < |ends|
    ensures FirstLabel <= Labels(KeysOf(ends))[i] < FirstLabel + KeySpace
    ensures Labels(KeysOf(ends))[i] != Dash
  {
    KeysOfValid(ends);
    LabelRange(KeysOf(ends), i);
  }

  /** The first line gets `A`; a line whose key is new gets the next unused
      letter. */
  lemma LettersInOrder(keys: seq<Key>, i: nat)
    requires AllValid(keys) && i < |keys|
    ensures keys[i] !in keys[..i] ==> LabelOf(keys, i) == FirstLabel + |Order(keys[..i])|
    ensures i == 0 ==> LabelOf(keys, i) == FirstLabel
  {
    if keys[i] !in keys[..i] {
      FirstAppearance(keys, i);
      LabelRange(keys, i);
      OrderPrefix(keys, i);
      assert FirstLabel + |Order(keys[..i])| < 0x1_0000;
    }
    if i == 0 {
      assert keys[..0] == [];
    }
  }

  // ----- scheme -----

  /** Line `k` is the first with its key. */
  predicate IsFirst(keys: seq<Key>, k: nat)
    requires k < |keys|
  {
    keys[k] !in keys[..k]
  }

  /** The number of keys seen grows by one exactly at a first appearance. */
  lemma OrderCount(keys: seq<Key>, i: nat)
    requires i < |keys|
    ensures |Order(keys[..i + 1])| == |Order(keys[..i])| + (if IsFirst(keys, i) then 1 else 0)
  {
    OrderStep(keys, i);
  }

  /** The letters of the first `i` lines recorded so far (`labels`): one per
      line that is first with its key. */
  function FirstLabels(keys: seq<Key>, i: nat): map<nat, CodeUnit>
    requires i <= |keys|
  {
    map k: nat | k < i && IsFirst(keys, k) :: LabelOf(keys, k)
  }

  lemma FirstLabelsStep(keys: seq<Key>, i: nat)
    requires i < |keys|
    ensures FirstLabels(keys, i + 1) ==
              if IsFirst(keys, i) then FirstLabels(keys, i)[i := LabelOf(keys, i)] else FirstLabels(keys, i)
  {
  }

  /** The inner loop of `scheme` for line `i`: the letter of the first
      earlier line with the same `classOf` and `cod`, `-` when there is none. */
  method EarlierLetter(ends: seq<string>, i: nat, labels: map<nat, CodeUnit>) returns (lab: CodeUnit)
    requires i < |ends| && labels == FirstLabels(KeysOf(ends), i)
    ensures lab == Dash <==> IsFirst(KeysOf(ends), i)
    ensures !IsFirst(KeysOf(ends), i) ==> lab == LabelOf(KeysOf(ends), i)
  {
    ghost var keys := KeysOf(ends);
    lab := Dash;
    var j := 0;
    while j < i
      invariant j <= i && NoEarlier(keys, i, j)
    {
      if ClassOf(ends[i]) == ClassOf(ends[j]) && Cod(ends[i]) == Cod(ends[j]) {
        // `labels[j] ??= …` never assigns: line `j` is the first with this
        // key, so it got its letter when it was reached.
        FoundLetter(ends, keys, i, j, labels);
        lab := labels[j];
        return;
      }
      KeysDiffer(ends[i], ends[j]);
      NoEarlierStep(keys, i, j);
      j := j + 1;
    }
    NoEarlierFirst(keys, i);
  }

  /** No line before `j` has the key of line `i`. */
  ghost predicate NoEarlier(keys: seq<Key>, i: nat, j: nat)
    requires j <= i < |keys|
  {
    forall t :: 0 <= t < j ==> keys[t] != keys[i]
  }

  lemma NoEarlierStep(keys: seq<Key>, i: nat, j: nat)
    requires j < i < |keys| && NoEarlier(keys, i, j) && keys[j] != keys[i]
    ensures NoEarlier(keys, i, j + 1)
  {
  }

  /** Keys differ when `classOf` or `cod` does. */
  lemma KeysDiffer(x: string, y: string)
    requires !(ClassOf(x) == ClassOf(y) && Cod(x) == Cod(y))
    ensures KeyOf(x) != KeyOf(y)
  {
  }

  lemma NoEarlierFirst(keys: seq<Key>, i: nat)
    requires i < |keys| && NoEarlier(keys, i, i)
    ensures IsFirst(keys, i)
  {
    assert forall t :: 0 <= t < i ==> keys[..i][t] == keys[t];
  }

  /** The first earlier line with the same key already has its letter, and
      it is the letter of line `i`. */
  lemma FoundLetter(ends: seq<string>, keys: seq<Key>, i: nat, j: nat, labels: map<nat, CodeUnit>)
    requires keys == KeysOf(ends) && j < i < |ends| && labels == FirstLabels(keys, i)
    requires ClassOf(ends[i]) == ClassOf(ends[j]) && Cod(ends[i]) == Cod(ends[j])
    requires NoEarlier(keys, i, j)
    ensures j in labels && labels[j] != Dash && labels[j] == LabelOf(keys, i)
    ensures !IsFirst(keys, i)
  {
    KeysOfValid(ends);
    assert keys[j] == keys[i];
    assert keys[..i][j] == keys[i];
    assert keys[j] !in keys[..j];
    LabelRange(keys, j);
    LabelRange(keys, i);
  }

  /** The state of the labelling loop after `i` lines: the letters of those
      lines, the next letter to hand out, the letters recorded by line. */
  ghost predicate Labelled(keys: seq<Key>, i: nat, out: seq<CodeUnit>, labels: map<nat, CodeUnit>, nxt: nat)
    requires i <= |keys|
  {
    && |out| == i
    && (forall k :: 0 <= k < i ==> out[k] == LabelOf(keys, k))
    && nxt == FirstLabel + |Order(keys[..i])|
    && labels == FirstLabels(keys, i)
  }

  /** A line that is first with its key gets the next letter. */
  lemma LabelledNew(keys: seq<Key>, i: nat, out: seq<CodeUnit>, labels: map<nat, CodeUnit>, nxt: nat)
    requires i < |keys| && Labelled(keys, i, out, labels, nxt) && IsFirst(keys, i)
    ensures FromCharCode(nxt) == LabelOf(keys, i)
    ensures Labelled(keys, i + 1, out + [FromCharCode(nxt)], labels[i := FromCharCode(nxt)], nxt + 1)
  {
    OrderCount(keys, i);
    FirstLabelsStep(keys, i);
    FirstAppearance(keys, i);
    LabelsSnoc(keys, i, out, FromCharCode(nxt));
  }

  /** A line whose key appeared before gets that key's letter. */
  lemma LabelledSeen(keys: seq<Key>, i: nat, out: seq<CodeUnit>, labels: map<nat, CodeUnit>, nxt: nat)
    requires i < |keys| && Labelled(keys, i, out, labels, nxt) && !IsFirst(keys, i)
    ensures Labelled(keys, i + 1, out + [LabelOf(keys, i)], labels, nxt)
  {
    OrderCount(keys, i);
    FirstLabelsStep(keys, i);
    LabelsSnoc(keys, i, out, LabelOf(keys, i));
  }

  lemma LabelsSnoc(keys: seq<Key>, i: nat, out: seq<CodeUnit>, x: CodeUnit)
    requires i < |keys| && |out| == i && x == LabelOf(keys, i)
    requires forall k :: 0 <= k < i ==> out[k] == LabelOf(keys, k)
    ensures forall k :: 0 <= k < i + 1 ==> (out + [x])[k] == LabelOf(keys, k)
  {
  }

  /** The labelling loop of `scheme`: for each end word, the letter of the
      first earlier line with the same `classOf` and `cod`, else the next
      letter from `nxt`. */
  method Label(ends: seq<string>) returns (out: seq<CodeUnit>)
    ensures out == Labels(KeysOf(ends))
  {
    ghost var keys := KeysOf(ends);
    var labels: map<nat, CodeUnit> := map[];
    var nxt: nat := FirstLabel;
    out := [];
    assert keys[..0] == [];
    for i := 0 to |ends|
      invariant Labelled(keys, i, out, labels, nxt)
    {
      var lab := EarlierLetter(ends, i, labels);
      if lab == Dash {
        LabelledNew(keys, i, out, labels, nxt);
        labels := labels[i := FromCharCode(nxt)];
        nxt := nxt + 1;
        lab := labels[i];
      } else {
        LabelledSeen(keys, i, out, labels, nxt);
      }
      out := out + [lab];
    }
  }

  /** `scheme(text)`: one letter per non-blank line. */
  method Scheme(text: string) returns (out: seq<CodeUnit>)
    ensures out == SchemeOf(text)
    ensures |out| == |BlankFree(Lines(text))|
  {
    var ends := EndWords(text);
    TrimmedLinesCount(Lines(text));
    out := Label(ends);
  }
}
