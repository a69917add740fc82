/** `heuristicPhones`: a rough spelling-to-phone conversion for words that
    are not in the override table. Each `String.replace` with a global regular
    expression is an explicit left-to-right scanner here: a replaced letter or
    pair becomes one space and pushes one phone. */
module Heuristic {
  import opened Text
  import opened Phones

  /** A string after some replace passes, with the phones they pushed. */
  datatype Pass = Pass(text: string, phones: seq<string>)

  /** The digraph passes, in order: the two-letter alternatives of one
      regular expression and the phone each match pushes. */
  const Digraphs: seq<(seq<string>, string)> := [
    (["oy", "oi"], "OY1"),
    (["ay", "ai", "ey", "ei"], "AY1"),
    (["oo"], "UW1"),
    (["ow", "ou"], "OW1"),
    (["au"], "AO1"),
    (["ee", "ie", "ei"], "IY1"),
    (["ea"], "EH1")]

  const VowelLetters: map<char, string> :=
    map['a' := "AE1", 'e' := "EH1", 'i' := "IH1", 'o' := "OW1", 'u' := "UH1"]

  const Consonants: map<char, string> := map[
    'b' := "B", 'c' := "K", 'd' := "D", 'f' := "F", 'g' := "G", 'h' := "HH", 'j' := "JH",
    'k' := "K", 'l' := "L", 'm' := "M", 'n' := "N", 'p' := "P", 'q' := "K", 'r' := "R",
    's' := "S", 't' := "T", 'v' := "V", 'w' := "W", 'x' := "K", 'y' := "Y", 'z' := "Z"]

  /** Every phone the vowel passes can push. */
  const VowelPhoneSet: set<string> :=
    {"OY1", "AY1", "UW1", "OW1", "AO1", "IY1", "EH1", "AE1", "IH1", "UH1"}

  /** Every phone the consonant table can give. */
  const ConsonantPhoneSet: set<string> :=
    {"B", "K", "D", "F", "G", "HH", "JH", "L", "M", "N", "P", "R", "S", "T", "V", "W", "Y", "Z"}

  /** The fallback phone for a word that yields none. */
  const Neutral := "AH0"

  lemma VowelPhoneSetShape()
    ensures forall p | p in VowelPhoneSet :: IsVowelPhone(p) && WellFormedPhone(p)
  {
    StressedVowel("OY", '1'); assert "OY" + ['1'] == "OY1";
    StressedVowel("AY", '1'); assert "AY" + ['1'] == "AY1";
    StressedVowel("UW", '1'); assert "UW" + ['1'] == "UW1";
    StressedVowel("OW", '1'); assert "OW" + ['1'] == "OW1";
    StressedVowel("AO", '1'); assert "AO" + ['1'] == "AO1";
    StressedVowel("IY", '1'); assert "IY" + ['1'] == "IY1";
    StressedVowel("EH", '1'); assert "EH" + ['1'] == "EH1";
    StressedVowel("AE", '1'); assert "AE" + ['1'] == "AE1";
    StressedVowel("IH", '1'); assert "IH" + ['1'] == "IH1";
    StressedVowel("UH", '1'); assert "UH" + ['1'] == "UH1";
  }

  /** A vowel code followed by a stress digit is a well-formed vowel phone. */
  lemma StressedVowel(code: string, d: char)
    requires code in VowelCodes && '0' <= d <= '2'
    ensures IsVowelPhone(code + [d]) && WellFormedPhone(code + [d])
  {
    var p := code + [d];
    assert StripStress(p) == code;
    assert code[..2] == code;
  }

  lemma ConsonantPhoneSetShape()
    ensures forall p | p in ConsonantPhoneSet ::
      !IsVowelPhone(p) && WellFormedPhone(p) && StripStress(p) == p
  {
    forall p | p in ConsonantPhoneSet
      ensures !IsVowelPhone(p) && WellFormedPhone(p) && StripStress(p) == p
    {
      if |p| == 2 {
        assert p[1..] == [p[1]];
        assert !ContainsCode(p[1..]);
      }
    }
  }

  lemma NeutralShape()
    ensures IsVowelPhone(Neutral) && WellFormedPhone(Neutral) && StripStress(Neutral) == "AH"
  {
    assert StripStress(Neutral) == "AH";
    assert "AH"[..2] == "AH";
  }

  /** One pass `s.replace(/xy|.../g, ...)` over two-letter alternatives: the
      matches do not overlap and are taken from the left. */
  function DigraphPass(s: string, alts: seq<string>, ph: string): (r: Pass)
    ensures forall k :: 0 <= k < |r.phones| ==> r.phones[k] == ph
    ensures |r.text| + |r.phones| == |s|
    decreases |s|
  {
    if |s| >= 2 && s[..2] in alts then
      var rest := DigraphPass(s[2..], alts, ph);
      Pass([' '] + rest.text, [ph] + rest.phones)
    else if s == [] then Pass([], [])
    else
      var rest := DigraphPass(s[1..], alts, ph);
      Pass([s[0]] + rest.text, rest.phones)
  }

  /** The pass `s.replace(/[aeiou]/g, ...)`. */
  function VowelPass(s: string): (r: Pass)
    ensures forall k :: 0 <= k < |r.phones| ==> r.phones[k] in VowelPhoneSet
    ensures |r.text| == |s|
    ensures forall k :: 0 <= k < |r.text| ==> r.text[k] !in VowelLetters
    decreases |s|
  {
    if s == [] then Pass([], [])
    else
      var rest := VowelPass(s[1..]);
      if s[0] in VowelLetters then Pass([' '] + rest.text, [VowelLetters[s[0]]] + rest.phones)
      else Pass([s[0]] + rest.text, rest.phones)
  }

  /** The pass `s.replace(/y\b/g, ...)`: a `y` followed by the end or by a
      character outside `\w` (the spaces earlier passes left count). */
  function FinalYPass(s: string): (r: Pass)
    ensures forall k :: 0 <= k < |r.phones| ==> r.phones[k] == "IY1"
    ensures |r.text| == |s|
    decreases |s|
  {
    if s == [] then Pass([], [])
    else
      var rest := FinalYPass(s[1..]);
      if s[0] == 'y' && (|s| == 1 || !IsWordChar(s[1])) then Pass([' '] + rest.text, ["IY1"] + rest.phones)
      else Pass([s[0]] + rest.text, rest.phones)
  }

  /** The consonant loop: each mapped character pushes its phone; the rest
      are dropped. */
  function ConsonantPhones(s: string): (r: seq<string>)
    ensures forall k :: 0 <= k < |r| ==> r[k] in ConsonantPhoneSet
    decreases |s|
  {
    if s == [] then []
    else (if s[0] in Consonants then [Consonants[s[0]]] else []) + ConsonantPhones(s[1..])
  }

  /** The first `n` digraph passes over `s`. */
  function DigraphPasses(s: string, n: nat): (r: Pass)
    requires n <= |Digraphs|
    ensures forall k :: 0 <= k < |r.phones| ==> r.phones[k] in VowelPhoneSet
  {
    if n == 0 then Pass(s, [])
    else
      var p := DigraphPasses(s, n - 1);
      var q := DigraphPass(p.text, Digraphs[n - 1].0, Digraphs[n - 1].1);
      Pass(q.text, p.phones + q.phones)
  }

  /** All vowel passes over the lower-cased word: what is left of it, and the
      vowel phones pushed, in pass order. */
  function VowelStages(word: string): (r: Pass)
    ensures forall k :: 0 <= k < |r.phones| ==> r.phones[k] in VowelPhoneSet
  {
    var d := DigraphPasses(Lower(word), |Digraphs|);
    var v := VowelPass(d.text);
    var y := FinalYPass(v.text);
    Pass(y.text, d.phones + v.phones + y.phones)
  }

  /** The consonant phones of what the vowel passes left. */
  function HeuristicConsonants(word: string): seq<string> {
    ConsonantPhones(RemoveSpaces(VowelStages(word).text))
  }

  function Heuristic(word: string): (r: seq<string>)
    ensures r != []
  {
    var out := VowelStages(word).phones + HeuristicConsonants(word);
    if out == [] then [Neutral] else out
  }

  /** The result is never empty, every phone is well formed, and every vowel
      phone comes before every consonant phone. */
  lemma HeuristicShape(word: string)
    ensures var v := VowelStages(word).phones;
            var c := HeuristicConsonants(word);
            && Heuristic(word) == (if v + c == [] then [Neutral] else v + c)
            && (forall k :: 0 <= k < |v| ==> IsVowelPhone(v[k]) && WellFormedPhone(v[k]))
            && (forall k :: 0 <= k < |c| ==> !IsVowelPhone(c[k]) && WellFormedPhone(c[k]) && StripStress(c[k]) == c[k])
  {
    VowelPhoneSetShape();
    ConsonantPhoneSetShape();
  }

  /** Vowel phones followed by stress-free consonant phones: the nucleus is
      the last vowel and the coda all the consonants. */
  lemma VowelsThenConsonants(v: seq<string>, c: seq<string>)
    requires v != []
    requires forall k :: 0 <= k < |v| ==> IsVowelPhone(v[k])
    requires forall k :: 0 <= k < |c| ==> !IsVowelPhone(c[k]) && StripStress(c[k]) == c[k]
    ensures NucleusCodaOf(v + c) == NucleusCoda([StripStress(v[|v| - 1])], c)
  {
    var ph := v + c;
    assert ph[|v| - 1] == v[|v| - 1];
    assert ph[|v|..] == c;
    forall j | |v| - 1 < j < |ph| ensures !IsVowelPhone(ph[j]) {
      assert ph[j] == c[j - |v|];
    }
    NucleusCodaAtVowel(ph, |v| - 1);
    MapStripFixed(c);
  }

  /** The tail of `v + c`, or of the neutral phone when both are empty, for
      vowel phones `v` and stress-free consonant phones `c`. */
  lemma TailOfVowelsAndConsonants(v: seq<string>, c: seq<string>)
    requires forall k :: 0 <= k < |v| ==> IsVowelPhone(v[k])
    requires forall k :: 0 <= k < |c| ==> !IsVowelPhone(c[k]) && StripStress(c[k]) == c[k]
    ensures var nc := NucleusCodaOf(if v + c == [] then [Neutral] else v + c);
            && (v != [] ==> nc == NucleusCoda([StripStress(v[|v| - 1])], c))
            && (v == [] && c != [] ==> nc == NucleusCoda([], c[|c| - Min(2, |c|)..]))
            && (v == [] && c == [] ==> nc == NucleusCoda(["AH"], []))
  {
    if v != [] {
      VowelsThenConsonants(v, c);
    } else if c != [] {
      assert v + c == c;
      TailOfConsonants(c);
    } else {
      assert v + c == [];
      TailOfNeutral();
    }
  }

  /** Stress-free consonant phones alone: no nucleus, the last two as coda. */
  lemma TailOfConsonants(c: seq<string>)
    requires c != []
    requires forall k :: 0 <= k < |c| ==> !IsVowelPhone(c[k]) && StripStress(c[k]) == c[k]
    ensures NucleusCodaOf(c) == NucleusCoda([], c[|c| - Min(2, |c|)..])
  {
    var t := c[|c| - Min(2, |c|)..];
    forall k | 0 <= k < |t| ensures StripStress(t[k]) == t[k] {
      assert t[k] == c[|c| - Min(2, |c|) + k];
    }
    MapStripFixed(t);
    assert NucleusCodaOf(c).nucleus == [];
  }

  /** The neutral phone alone: nucleus `AH`, no coda. */
  lemma TailOfNeutral()
    ensures NucleusCodaOf([Neutral]) == NucleusCoda(["AH"], [])
  {
    NeutralShape();
    assert LastVowel([Neutral]) == 0;
  }

  /** Consequence: the nucleus is the last vowel phone the vowel passes
      pushed and the coda is the whole consonant sequence; a word with no
      phones at all rhymes as the neutral vowel. */
  lemma HeuristicTail(word: string)
    ensures var v := VowelStages(word).phones;
            var c := HeuristicConsonants(word);
            var nc := NucleusCodaOf(Heuristic(word));
            && (v != [] ==> nc == NucleusCoda([StripStress(v[|v| - 1])], c))
            && (v == [] && c != [] ==> nc == NucleusCoda([], c[|c| - Min(2, |c|)..]))
            && (v == [] && c == [] ==> nc == NucleusCoda(["AH"], []))
  {
    HeuristicShape(word);
    TailOfVowelsAndConsonants(VowelStages(word).phones, HeuristicConsonants(word));
  }

  /** The state of a replace loop: what was emitted so far (`t`, `out`)
      followed by what the pass makes of the rest is what it makes of the
      whole string. */
  ghost predicate Scanned(t: string, out: seq<string>, rest: Pass, whole: Pass, out0: seq<string>) {
    t + rest.text == whole.text && out + rest.phones == out0 + whole.phones
  }

  /** Emitting the head of the rest's result keeps the loop state. */
  lemma ScannedStep(t: string, out: seq<string>, x: string, y: seq<string>, rest: Pass, next: Pass,
                    whole: Pass, out0: seq<string>)
    requires Scanned(t, out, rest, whole, out0)
    requires rest == Pass(x + next.text, y + next.phones)
    ensures Scanned(t + x, out + y, next, whole, out0)
  {
    assert t + (x + next.text) == (t + x) + next.text;
    assert out + (y + next.phones) == (out + y) + next.phones;
  }

  lemma DigraphTake(s: string, alts: seq<string>, ph: string, i: nat)
    requires i + 1 < |s| && s[i..i + 2] in alts
    ensures DigraphPass(s[i..], alts, ph) ==
              Pass([' '] + DigraphPass(s[i + 2..], alts, ph).text, [ph] + DigraphPass(s[i + 2..], alts, ph).phones)
  {
    assert s[i..][..2] == s[i..i + 2] && s[i..][2..] == s[i + 2..];
  }

  lemma DigraphKeep(s: string, alts: seq<string>, ph: string, i: nat)
    requires i < |s| && !(i + 1 < |s| && s[i..i + 2] in alts)
    ensures DigraphPass(s[i..], alts, ph) ==
              Pass([s[i]] + DigraphPass(s[i + 1..], alts, ph).text, [] + DigraphPass(s[i + 1..], alts, ph).phones)
  {
    assert s[i..][1..] == s[i + 1..];
    assert |s[i..]| >= 2 ==> s[i..][..2] == s[i..i + 2];
    assert [] + DigraphPass(s[i + 1..], alts, ph).phones == DigraphPass(s[i + 1..], alts, ph).phones;
  }

  method ReplaceDigraphs(s: string, alts: seq<string>, ph: string, out0: seq<string>)
    returns (t: string, out: seq<string>)
    ensures t == DigraphPass(s, alts, ph).text
    ensures out == out0 + DigraphPass(s, alts, ph).phones
  {
    t, out := "", out0;
    var i := 0;
    assert s[0..] == s;
    while i < |s|
      invariant 0 <= i <= |s|
      invariant Scanned(t, out, DigraphPass(s[i..], alts, ph), DigraphPass(s, alts, ph), out0)
    {
      if i + 1 < |s| && s[i..i + 2] in alts {
        DigraphTake(s, alts, ph, i);
        ScannedStep(t, out, " ", [ph], DigraphPass(s[i..], alts, ph), DigraphPass(s[i + 2..], alts, ph),
                    DigraphPass(s, alts, ph), out0);
        t, out := t + " ", out + [ph];
        i := i + 2;
      } else {
        DigraphKeep(s, alts, ph, i);
        ScannedStep(t, out, [s[i]], [], DigraphPass(s[i..], alts, ph), DigraphPass(s[i + 1..], alts, ph),
                    DigraphPass(s, alts, ph), out0);
        assert out + [] == out;
        t := t + [s[i]];
        i := i + 1;
      }
    }
    assert s[i..] == [];
  }

  lemma VowelStep(s: string, i: nat)
    requires i < |s|
    ensures VowelPass(s[i..]) ==
              if s[i] in VowelLetters then Pass([' '] + VowelPass(s[i + 1..]).text, [VowelLetters[s[i]]] + VowelPass(s[i + 1..]).phones)
              else Pass([s[i]] + VowelPass(s[i + 1..]).text, [] + VowelPass(s[i + 1..]).phones)
  {
    assert s[i..][1..] == s[i + 1..];
    assert [] + VowelPass(s[i + 1..]).phones == VowelPass(s[i + 1..]).phones;
  }

  method ReplaceVowels(s: string, out0: seq<string>) returns (t: string, out: seq<string>)
    ensures t == VowelPass(s).text
    ensures out == out0 + VowelPass(s).phones
  {
    t, out := "", out0;
    assert s[0..] == s;
    for i := 0 to |s|
      invariant Scanned(t, out, VowelPass(s[i..]), VowelPass(s), out0)
    {
      VowelStep(s, i);
      var m := s[i];
      if m in VowelLetters {
        ScannedStep(t, out, " ", [VowelLetters[m]], VowelPass(s[i..]), VowelPass(s[i + 1..]), VowelPass(s), out0);
        t, out := t + " ", out + [VowelLetters[m]];
      } else {
        ScannedStep(t, out, [m], [], VowelPass(s[i..]), VowelPass(s[i + 1..]), VowelPass(s), out0);
        assert out + [] == out;
        t := t + [m];
      }
    }
    assert s[|s|..] == [];
  }

  lemma FinalYStep(s: string, i: nat)
    requires i < |s|
    ensures FinalYPass(s[i..]) ==
              if s[i] == 'y' && (i + 1 == |s| || !IsWordChar(s[i + 1])) then Pass([' '] + FinalYPass(s[i + 1..]).text, ["IY1"] + FinalYPass(s[i + 1..]).phones)
              else Pass([s[i]] + FinalYPass(s[i + 1..]).text, [] + FinalYPass(s[i + 1..]).phones)
  {
    assert s[i..][1..] == s[i + 1..];
    assert [] + FinalYPass(s[i + 1..]).phones == FinalYPass(s[i + 1..]).phones;
  }

  method ReplaceFinalY(s: string, out0: seq<string>) returns (t: string, out: seq<string>)
    ensures t == FinalYPass(s).text
    ensures out == out0 + FinalYPass(s).phones
  {
    t, out := "", out0;
    assert s[0..] == s;
    for i := 0 to |s|
      invariant Scanned(t, out, FinalYPass(s[i..]), FinalYPass(s), out0)
    {
      FinalYStep(s, i);
      if s[i] == 'y' && (i + 1 == |s| || !IsWordChar(s[i + 1])) {
        ScannedStep(t, out, " ", ["IY1"], FinalYPass(s[i..]), FinalYPass(s[i + 1..]), FinalYPass(s), out0);
        t, out := t + " ", out + ["IY1"];
      } else {
        ScannedStep(t, out, [s[i]], [], FinalYPass(s[i..]), FinalYPass(s[i + 1..]), FinalYPass(s), out0);
        assert out + [] == out;
        t := t + [s[i]];
      }
    }
    assert s[|s|..] == [];
  }

  /** The loop over the digraph table. */
  method ApplyDigraphs(w: string) returns (s: string, out: seq<string>)
    ensures Pass(s, out) == DigraphPasses(w, |Digraphs|)
  {
    s, out := w, [];
    for r := 0 to |Digraphs|
      invariant Pass(s, out) == DigraphPasses(w, r)
    {
      s, out := ReplaceDigraphs(s, Digraphs[r].0, Digraphs[r].1, out);
    }
  }

  /** The loop over the remaining characters, pushing consonant phones. */
  method PushConsonants(letters: string, out0: seq<string>) returns (out: seq<string>)
    ensures out == out0 + ConsonantPhones(letters)
  {
    out := out0;
    for k := 0 to |letters|
      invariant out + ConsonantPhones(letters[k..]) == out0 + ConsonantPhones(letters)
    {
      assert letters[k..][1..] == letters[k + 1..];
      var ch := letters[k];
      if ch in Consonants {
        out := out + [Consonants[ch]];
      }
    }
    assert letters[|letters|..] == [];
  }

  /** `heuristicPhones`, pass by pass, pushing into one list. */
  method HeuristicPhones(word: string) returns (out: seq<string>)
    ensures out == Heuristic(word)
  {
    var s;
    s, out := ApplyDigraphs(Lower(word));
    s, out := ReplaceVowels(s, out);
    s, out := ReplaceFinalY(s, out);
    assert Pass(s, out) == VowelStages(word);
    out := PushConsonants(RemoveSpaces(s), out);
    if out == [] {
      out := [Neutral];
    }
  }
}
