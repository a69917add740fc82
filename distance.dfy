/** The distance model: how far apart two nuclei, two codas and two
    nucleus/coda pairs sound, on a scale from 0 (same) to 1 (unrelated).
    Distances are exact reals; the source computes them in double precision. */
module Distance {
  import opened Phones

  /** The vowel-family table `FAM`. */
  const Families: map<string, string> := map[
    "AA" := "low-back", "AH" := "low-back", "AO" := "low-back", "AE" := "low-front",
    "EH" := "mid-front", "EY" := "mid-front", "ER" := "r-colored", "IH" := "high-front",
    "IY" := "high-front", "OW" := "mid-back", "UH" := "mid-back", "UW" := "high-back",
    "AY" := "diph", "AW" := "diph", "OY" := "diph"]

  /** The consonant equivalences of `codaDistance`: voiced and voiceless
      pairs, the nasals, and the affricate and fricative pairs collapse. */
  const Equivalents: map<string, string> := map[
    "S" := "S", "Z" := "S", "T" := "T", "D" := "T", "F" := "F", "V" := "F",
    "K" := "K", "G" := "K", "M" := "N", "N" := "N", "NG" := "N", "R" := "R",
    "L" := "L", "B" := "B", "P" := "P", "CH" := "CH", "JH" := "CH",
    "SH" := "SH", "ZH" := "SH"]

  /** A nucleus counts as present when its first phone is a non-empty string. */
  predicate HasVowel(nuc: seq<string>) {
    |nuc| > 0 && nuc[0] != ""
  }

  function VowelClass(nuc: seq<string>): string {
    if HasVowel(nuc) then StripStress(nuc[0]) else "unk"
  }

  function VowelFamily(nuc: seq<string>): string {
    if HasVowel(nuc) then
      var base := StripStress(nuc[0]);
      if base in Families then Families[base] else base
    else "unk"
  }

  /** `nucleusDistance`: 0 for the same vowel class, 0.25 for two vowels of
      one family, 1 otherwise. */
  function NucleusDist(a: seq<string>, b: seq<string>): (r: real)
    ensures r == 0.0 || r == 0.25 || r == 1.0
    ensures r == 0.0 <==> VowelClass(a) == VowelClass(b)
    ensures r == 0.25 <==> VowelClass(a) != VowelClass(b) && VowelFamily(a) == VowelFamily(b)
  {
    if VowelClass(a) == VowelClass(b) then 0.0
    else if VowelFamily(a) == VowelFamily(b) then 0.25
    else 1.0
  }

  lemma NucleusDistSymmetric(a: seq<string>, b: seq<string>)
    ensures NucleusDist(a, b) == NucleusDist(b, a)
  {
  }

  function Eq(c: string): (r: string)
    ensures r == "" <==> c == ""
  {
    assert forall k | k in Equivalents :: Equivalents[k] != "";
    if c in Equivalents then Equivalents[c] else c
  }

  /** The `i`-th phone counted from the end (`i` from 1), or "" past the start. */
  function Slot(c: seq<string>, i: nat): string {
    if 1 <= i <= |c| then c[|c| - i] else ""
  }

  /** Position `i` from the end counts as a comparison when either side has a phone there. */
  predicate Compared(aC: seq<string>, bC: seq<string>, i: nat) {
    Eq(Slot(aC, i)) != "" || Eq(Slot(bC, i)) != ""
  }

  predicate Mismatch(aC: seq<string>, bC: seq<string>, i: nat) {
    Compared(aC, bC, i) && Eq(Slot(aC, i)) != Eq(Slot(bC, i))
  }

  /** How many of the positions 1..n from the end are compared. */
  function Comparisons(aC: seq<string>, bC: seq<string>, n: nat): (r: nat)
    ensures r <= n
  {
    if n == 0 then 0
    else Comparisons(aC, bC, n - 1) + (if Compared(aC, bC, n) then 1 else 0)
  }

  /** How many of the positions 1..n from the end mismatch. */
  function Mismatches(aC: seq<string>, bC: seq<string>, n: nat): (r: nat)
    ensures r <= Comparisons(aC, bC, n)
  {
    if n == 0 then 0
    else Mismatches(aC, bC, n - 1) + (if Mismatch(aC, bC, n) then 1 else 0)
  }

  /** `codaDistance`: the share of mismatches among the compared positions
      of the last three, or the neutral 0.6 when nothing is compared. */
  function CodaDist(aC: seq<string>, bC: seq<string>): real {
    var len := Max(|aC|, |bC|);
    if len == 0 then 0.6
    else
      var n := Min(3, len);
      var comp := Comparisons(aC, bC, n);
      if comp == 0 then 0.6 else Mismatches(aC, bC, n) as real / comp as real
  }

  /** `codaDistance`, with its loop over the last three positions. */
  method CodaDistance(aC: seq<string>, bC: seq<string>) returns (d: real)
    ensures d == CodaDist(aC, bC)
  {
    var len := Max(|aC|, |bC|);
    if len == 0 {
      return 0.6;
    }
    var score, comp := 0, 0;
    for i := 1 to Min(3, len) + 1
      invariant score == Mismatches(aC, bC, i - 1)
      invariant comp == Comparisons(aC, bC, i - 1)
    {
      var a := Eq(Slot(aC, i));
      var b := Eq(Slot(bC, i));
      if a == "" && b == "" {
        continue;
      }
      comp := comp + 1;
      score := score + (if a == b then 0 else 1);
    }
    d := if comp > 0 then score as real / comp as real else 0.6;
  }

  lemma {:induction false} CountsSymmetric(aC: seq<string>, bC: seq<string>, n: nat)
    ensures Comparisons(aC, bC, n) == Comparisons(bC, aC, n)
    ensures Mismatches(aC, bC, n) == Mismatches(bC, aC, n)
  {
    if n > 0 {
      CountsSymmetric(aC, bC, n - 1);
    }
  }

  lemma CodaDistSymmetric(aC: seq<string>, bC: seq<string>)
    ensures CodaDist(aC, bC) == CodaDist(bC, aC)
  {
    CountsSymmetric(aC, bC, Min(3, Max(|aC|, |bC|)));
  }

  lemma RatioAtMostOne(m: nat, c: nat)
    requires 0 < c && m <= c
    ensures 0.0 <= m as real / c as real <= 1.0
  {
    assert m as real / c as real * c as real == m as real;
  }

  /** Every coda distance is the neutral 0.6 or lies in [0, 1]. */
  lemma CodaDistRange(aC: seq<string>, bC: seq<string>)
    ensures CodaDist(aC, bC) == 0.6 || 0.0 <= CodaDist(aC, bC) <= 1.0
  {
    var len := Max(|aC|, |bC|);
    if len > 0 {
      var n := Min(3, len);
      if Comparisons(aC, bC, n) > 0 {
        RatioAtMostOne(Mismatches(aC, bC, n), Comparisons(aC, bC, n));
      }
    }
  }

  /** No phone is the empty string, as holds for every phone the tables produce. */
  predicate NonEmptyPhones(c: seq<string>) {
    forall k :: 0 <= k < |c| ==> c[k] != ""
  }

  lemma {:induction false} AllCompared(aC: seq<string>, bC: seq<string>, n: nat)
    requires NonEmptyPhones(aC) && NonEmptyPhones(bC)
    requires n <= Max(|aC|, |bC|)
    ensures Comparisons(aC, bC, n) == n
  {
    if n > 0 {
      AllCompared(aC, bC, n - 1);
      if n <= |aC| {
        assert Slot(aC, n) == aC[|aC| - n];
      } else {
        assert Slot(bC, n) == bC[|bC| - n];
      }
    }
  }

  /** With non-empty phones, the coda distance is 0.6 exactly when both codas
      are empty, and otherwise mismatches / min(3, longer length). */
  lemma CodaDistExact(aC: seq<string>, bC: seq<string>)
    requires NonEmptyPhones(aC) && NonEmptyPhones(bC)
    ensures CodaDist(aC, bC) == 0.6 <==> aC == [] && bC == []
    ensures aC != [] || bC != [] ==>
      var n := Min(3, Max(|aC|, |bC|));
      CodaDist(aC, bC) == Mismatches(aC, bC, n) as real / n as real
  {
    var len := Max(|aC|, |bC|);
    if len > 0 {
      var n := Min(3, len);
      AllCompared(aC, bC, n);
      RatioNotNeutral(Mismatches(aC, bC, n), n);
    }
  }

  /** No share of up to three comparisons equals the neutral 0.6. */
  lemma RatioNotNeutral(m: nat, n: nat)
    requires 1 <= n <= 3 && m <= n
    ensures m as real / n as real != 0.6
  {
    if n == 1 {
      assert m as real / 1.0 == m as real;
    } else if n == 2 {
      assert m as real / 2.0 == m as real * 0.5;
    } else {
      assert m == 0 || m == 1 || m == 2 || m == 3;
    }
  }

  lemma {:induction false} NoSelfMismatch(c: seq<string>, n: nat)
    ensures Mismatches(c, c, n) == 0
  {
    if n > 0 {
      NoSelfMismatch(c, n - 1);
    }
  }

  /** The last `n` positions of `c` hold no phone: each is "" or past the start. */
  predicate BlankTail(c: seq<string>, n: nat) {
    forall i :: 1 <= i <= n ==> Slot(c, i) == ""
  }

  lemma {:induction false} NoSelfComparison(c: seq<string>, n: nat)
    ensures Comparisons(c, c, n) == 0 <==> BlankTail(c, n)
  {
    if n > 0 {
      NoSelfComparison(c, n - 1);
      assert Compared(c, c, n) <==> Slot(c, n) != "";
    }
  }

  /** A coda is 0 away from itself, unless none of its last three positions
      holds a phone: then nothing is compared and the distance is 0.6. With
      non-empty phones that happens only for the empty coda. */
  lemma CodaDistSelf(c: seq<string>)
    ensures CodaDist(c, c) == if BlankTail(c, Min(3, |c|)) then 0.6 else 0.0
    ensures NonEmptyPhones(c) ==> (BlankTail(c, Min(3, |c|)) <==> c == [])
  {
    NoSelfMismatch(c, Min(3, |c|));
    NoSelfComparison(c, Min(3, |c|));
    if c != [] {
      assert Slot(c, 1) == c[|c| - 1];
    }
  }

  /** `rhymeDistance`: the vowel weighs 0.7 and the coda 0.3. */
  function RhymeDist(a: NucleusCoda, b: NucleusCoda): real {
    0.7 * NucleusDist(a.nucleus, b.nucleus) + 0.3 * CodaDist(a.coda, b.coda)
  }

  method RhymeDistance(a: NucleusCoda, b: NucleusCoda) returns (d: real)
    ensures d == RhymeDist(a, b)
  {
    var c := CodaDistance(a.coda, b.coda);
    d := 0.7 * NucleusDist(a.nucleus, b.nucleus) + 0.3 * c;
  }

  lemma RhymeDistRange(a: NucleusCoda, b: NucleusCoda)
    ensures 0.0 <= RhymeDist(a, b) <= 1.0
  {
    CodaDistRange(a.coda, b.coda);
  }

  lemma RhymeDistSymmetric(a: NucleusCoda, b: NucleusCoda)
    ensures RhymeDist(a, b) == RhymeDist(b, a)
  {
    CodaDistSymmetric(a.coda, b.coda);
  }

  /** A tail is 0 away from itself, unless none of the last three positions of
      its coda holds a phone: then the neutral coda distance leaves
      0.3 * 0.6 = 0.18. With non-empty phones that is the empty coda. */
  lemma RhymeDistSelf(a: NucleusCoda)
    ensures RhymeDist(a, a) == if BlankTail(a.coda, Min(3, |a.coda|)) then 0.18 else 0.0
    ensures NonEmptyPhones(a.coda) ==> (RhymeDist(a, a) == 0.18 <==> a.coda == [])
  {
    CodaDistSelf(a.coda);
  }
}
