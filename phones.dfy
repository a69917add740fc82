/** Phone symbols (ARPAbet codes with an optional stress digit) and the
    split of a phone sequence into its rhyming nucleus and coda. */
module Phones {

  /** The two-letter vowel codes that `isVowelPhone` searches for. */
  const VowelCodes: set<string> :=
    {"AA", "AE", "AH", "AO", "AW", "AY", "EH", "ER", "EY", "IH", "IY", "OW", "OY", "UH", "UW"}

  /** Removes one trailing stress digit (0, 1 or 2). */
  function StripStress(p: string): (r: string)
    ensures |p| - 1 <= |r| <= |p| && r == p[..|r|]
    ensures |r| < |p| <==> (|p| > 0 && '0' <= p[|p| - 1] <= '2')
  {
    if |p| > 0 && '0' <= p[|p| - 1] <= '2' then p[..|p| - 1] else p
  }

  /** Some vowel code occurs anywhere in `s` (the regex test is unanchored). */
  predicate ContainsCode(s: string)
    decreases |s|
  {
    |s| >= 2 && (s[..2] in VowelCodes || ContainsCode(s[1..]))
  }

  predicate IsVowelPhone(p: string) {
    ContainsCode(StripStress(p))
  }

  /** A phone as the tables write it: non-empty, starting with a capital
      letter, so that stripping its stress leaves it non-empty. */
  predicate WellFormedPhone(p: string) {
    |p| >= 1 && 'A' <= p[0] <= 'Z'
  }

  lemma StrippedWellFormed(p: string)
    requires WellFormedPhone(p)
    ensures WellFormedPhone(StripStress(p))
  {
  }

  lemma {:induction false} ContainsCodeSnoc(t: string, d: char)
    requires !('A' <= d <= 'Z')
    ensures ContainsCode(t + [d]) == ContainsCode(t)
    decreases |t|
  {
    if |t| >= 1 {
      assert (t + [d])[1..] == t[1..] + [d];
      ContainsCodeSnoc(t[1..], d);
      if |t| == 1 {
        assert (t + [d])[..2] == [t[0], d];
        assert [t[0], d] !in VowelCodes;
      } else {
        assert (t + [d])[..2] == t[..2];
      }
    }
  }

  /** Stripping stress first does not change whether a phone is a vowel. */
  lemma VowelPhoneOfStripped(p: string)
    ensures IsVowelPhone(StripStress(p)) == IsVowelPhone(p)
  {
    var s := StripStress(p);
    if |s| > 0 && '0' <= s[|s| - 1] <= '2' {
      assert s == s[..|s| - 1] + [s[|s| - 1]];
      ContainsCodeSnoc(s[..|s| - 1], s[|s| - 1]);
    }
  }

  /** The stress-stripped phones of `ps`, in order (`.map(stripStress)`). */
  function MapStrip(ps: seq<string>): (r: seq<string>)
    ensures |r| == |ps|
    ensures forall k :: 0 <= k < |ps| ==> r[k] == StripStress(ps[k])
  {
    seq(|ps|, k requires 0 <= k < |ps| => StripStress(ps[k]))
  }

  function Min(a: int, b: int): int { if a <= b then a else b }
  function Max(a: int, b: int): int { if a >= b then a else b }

  /** Index of the last vowel phone, or -1 when there is none. */
  function LastVowel(phones: seq<string>): (k: int)
    ensures -1 <= k < |phones|
    ensures 0 <= k ==> IsVowelPhone(phones[k])
    ensures forall j :: k < j < |phones| ==> !IsVowelPhone(phones[j])
    decreases |phones|
  {
    if phones == [] then -1
    else if IsVowelPhone(phones[|phones| - 1]) then |phones| - 1
    else LastVowel(phones[..|phones| - 1])
  }

  datatype NucleusCoda = NucleusCoda(nucleus: seq<string>, coda: seq<string>)

  /** A nucleus as `phonesToNucleusCoda` makes it: none, or one phone of at
      least two characters (a vowel code survives stress stripping). */
  predicate ProperNucleus(t: NucleusCoda) {
    t.nucleus == [] || (|t.nucleus| == 1 && |t.nucleus[0]| >= 2)
  }

  /** What `phonesToNucleusCoda` returns, by position: the nucleus is empty
      exactly when no phone is a vowel; otherwise it is the stress-stripped
      vowel just before the coda, and the coda is the stripped phones after
      it; without a vowel the coda is the last two phones, stripped. */
  predicate TailOf(phones: seq<string>, r: NucleusCoda) {
    && |r.nucleus| <= 1
    && (r.nucleus == [] <==> forall j :: 0 <= j < |phones| ==> !IsVowelPhone(phones[j]))
    && (r.nucleus != [] ==>
      && |r.coda| < |phones|
      && IsVowelPhone(phones[|phones| - |r.coda| - 1])
      && r.nucleus == [StripStress(phones[|phones| - |r.coda| - 1])]
      && r.coda == MapStrip(phones[|phones| - |r.coda|..]))
    && (r.nucleus == [] ==> r.coda == MapStrip(phones[|phones| - Min(2, |phones|)..]))
  }

  /** The rhyming tail of a phone sequence: the last vowel and the phones
      after it, or, without a vowel, no nucleus and the last two phones. */
  function NucleusCodaOf(phones: seq<string>): (r: NucleusCoda)
    ensures TailOf(phones, r)
    ensures forall j :: 0 <= j < |r.coda| ==> !IsVowelPhone(r.coda[j])
    ensures ProperNucleus(r)
  {
    var k := LastVowel(phones);
    TailAtLast(phones, k, TailAt(phones, k));
    TailAt(phones, k)
  }

  /** The tail taken at the last vowel, described by position. */
  lemma TailAtLast(phones: seq<string>, k: int, r: NucleusCoda)
    requires -1 <= k < |phones|
    requires 0 <= k ==> IsVowelPhone(phones[k])
    requires forall j :: k < j < |phones| ==> !IsVowelPhone(phones[j])
    requires r == TailAt(phones, k)
    ensures TailOf(phones, r)
  {
    if k >= 0 {
      assert |r.coda| == |phones| - k - 1;
    }
  }

  /** The tail taken at vowel index `k`, or from the last two phones when
      `k` is -1 (no vowel); no vowel phone follows `k`. */
  function TailAt(phones: seq<string>, k: int): (r: NucleusCoda)
    requires -1 <= k < |phones|
    requires 0 <= k ==> IsVowelPhone(phones[k])
    requires forall j :: k < j < |phones| ==> !IsVowelPhone(phones[j])
    ensures forall j :: 0 <= j < |r.coda| ==> !IsVowelPhone(r.coda[j])
    ensures ProperNucleus(r)
  {
    if k == -1 then
      var r := NucleusCoda([], MapStrip(phones[|phones| - Min(2, |phones|)..]));
      forall j | 0 <= j < |r.coda| ensures !IsVowelPhone(r.coda[j]) {
        VowelPhoneOfStripped(phones[|phones| - Min(2, |phones|) + j]);
      }
      r
    else
      var r := NucleusCoda([StripStress(phones[k])], MapStrip(phones[k + 1..]));
      VowelPhoneLong(phones[k]);
      forall j | 0 <= j < |r.coda| ensures !IsVowelPhone(r.coda[j]) {
        VowelPhoneOfStripped(phones[k + 1 + j]);
      }
      r
  }

  /** `phonesToNucleusCoda`: a backward search for the last vowel phone. */
  method PhonesToNucleusCoda(phones: seq<string>) returns (r: NucleusCoda)
    ensures r == NucleusCodaOf(phones)
  {
    var lastV := -1;
    var i := |phones| - 1;
    while i >= 0
      invariant -1 <= i < |phones|
      invariant lastV == -1
      invariant forall j :: i < j < |phones| ==> !IsVowelPhone(phones[j])
    {
      if IsVowelPhone(phones[i]) {
        lastV := i;
        break;
      }
      i := i - 1;
    }
    if lastV == -1 {
      assert LastVowel(phones) == -1;
      return NucleusCoda([], MapStrip(phones[|phones| - Min(2, |phones|)..]));
    }
    assert LastVowel(phones) == lastV;
    var nucleus := [StripStress(phones[lastV])];
    var coda := MapStrip(phones[lastV + 1..]);
    r := NucleusCoda(nucleus, coda);
  }

  /** The last vowel phone is the vowel phone after which none follows. */
  lemma {:induction false} LastVowelAt(phones: seq<string>, k: nat)
    requires k < |phones| && IsVowelPhone(phones[k])
    requires forall j :: k < j < |phones| ==> !IsVowelPhone(phones[j])
    ensures LastVowel(phones) == k
    decreases |phones|
  {
    if k < |phones| - 1 {
      var front := phones[..|phones| - 1];
      assert !IsVowelPhone(phones[|phones| - 1]);
      assert front[k] == phones[k];
      forall j | k < j < |front| ensures !IsVowelPhone(front[j]) {
        assert front[j] == phones[j];
      }
      LastVowelAt(front, k);
    }
  }

  /** The tail when the last vowel phone is at `k`. */
  lemma NucleusCodaAtVowel(phones: seq<string>, k: nat)
    requires k < |phones| && IsVowelPhone(phones[k])
    requires forall j :: k < j < |phones| ==> !IsVowelPhone(phones[j])
    ensures NucleusCodaOf(phones) == NucleusCoda([StripStress(phones[k])], MapStrip(phones[k + 1..]))
  {
    LastVowelAt(phones, k);
  }

  /** Stripping phones that carry no stress digit changes nothing. */
  lemma MapStripFixed(ps: seq<string>)
    requires forall k :: 0 <= k < |ps| ==> StripStress(ps[k]) == ps[k]
    ensures MapStrip(ps) == ps
  {
  }

  lemma VowelPhoneLong(p: string)
    requires IsVowelPhone(p)
    ensures |StripStress(p)| >= 2
  {
  }
}
