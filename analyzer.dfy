/** The analyzer: its settings and tables, the phone lookup with its cache,
    the tokenizer loop, and `analyze`, which turns a text into spans, rhyme
    groups, assonance clusters and a letter scheme. */
module Analyzer {
  import opened Text
  import opened Phones
  import opened Distance
  import opened Heuristic
  import opened Tokenizer
  import opened Grouping
  import opened Scheme

  /** The engine's settings. `autoAnalyzeOnType` is read only by the host plugin. */
  datatype Settings = Settings(
    autoAnalyzeOnType: bool,
    perfectThreshold: real,
    slantThreshold: real,
    assonanceEnabled: bool,
    assonanceThreshold: real,
    ignoreStopwords: bool)

  const DefaultSettings := Settings(true, 0.18, 0.50, true, 0.35, true)

  /** The stopword table `STOPWORDS`. */
  function StopWords(): set<string> {
    {"the", "and", "a", "an", "of", "to", "in", "is", "it", "that", "for", "on", "with", "as", "at",
     "by", "be", "or", "but", "if", "so", "then", "than", "this", "these", "those", "from", "are",
     "was", "were", "will", "would", "could", "should", "i", "you", "he", "she", "we", "they", "me",
     "him", "her", "us", "them", "my", "your", "his", "its", "our", "their"}
  }

  /** The override table `CUSTOM_ARPA`: its own keys. */
  function CustomArpa(): map<string, seq<string>> {
    map[
      "lekker" := ["L", "EH1", "K", "ER0"],
      "bru" := ["B", "R", "UW1"],
      "boet" := ["B", "UH1", "T"],
      "ja" := ["Y", "AA1"],
      "ain't" := ["EY1", "N", "T"]]
  }

  // ----- The table lookup as written -----

  /** What reading a property of a plain object literal gives: one of its own
      values, a value inherited from `Object.prototype`, or `undefined`. */
  datatype Property = Own(phones: seq<string>) | Inherited | Undefined

  /** The names `Object.prototype` provides. */
  function PrototypeNames(): set<string> {
    {"constructor", "hasOwnProperty", "isPrototypeOf", "propertyIsEnumerable", "toLocaleString",
     "toString", "valueOf", "__defineGetter__", "__defineSetter__", "__lookupGetter__",
     "__lookupSetter__", "__proto__"}
  }

  /** `CUSTOM_ARPA[key]`. */
  function ArpaProperty(key: string): (r: Property)
    ensures r.Own? <==> key in CustomArpa()
    ensures r.Inherited? <==> key !in CustomArpa() && key in PrototypeNames()
  {
    if key in CustomArpa() then Own(CustomArpa()[key])
    else if key in PrototypeNames() then Inherited
    else Undefined
  }

  datatype Outcome = Found(phones: seq<string>) | TypeError

  /** The lookup as written: an inherited value is truthy, so the heuristic
      is skipped, and `ph.slice()` on a function throws. */
  function LookupAsWritten(key: string): (r: Outcome)
    ensures r.TypeError? <==> ArpaProperty(key).Inherited?
  {
    match ArpaProperty(key)
    case Own(ph) => Found(ph)
    case Inherited => TypeError
    case Undefined => Found(Heuristic.Heuristic(key))
  }

  /** A text holding the word "Constructor" makes the lookup as written throw:
      the word is a token whose cleaned form is an inherited property name. */
  lemma ConstructorThrows()
    ensures Tokens("Constructor") == [Token("constructor", 0, 0)]
    ensures LookupAsWritten("constructor") == TypeError
  {
    ConstructorToken();
    ConstructorInherited();
  }

  lemma ConstructorToken()
    ensures Tokens("Constructor") == [Token("constructor", 0, 0)]
  {
    var text := "Constructor";
    assert IsWordToken(text) by {
      forall k | 0 <= k < |text| ensures IsWordPart(text[k]) {
      }
    }
    ConstructorCleans();
    TokensOfWord(text);
  }

  lemma ConstructorCleans()
    ensures CleanWord("Constructor") == "constructor"
  {
    LettersClean("Constructor", "constructor");
  }

  /** A word of letters whose lower-case form is `low` cleans to `low`. */
  lemma LettersClean(text: string, low: string)
    requires forall k :: 0 <= k < |text| ==> IsLetter(text[k])
    requires Lower(text) == low
    ensures CleanWord(text) == low
  {
    CleanWordOfLetters(text);
  }

  lemma ConstructorInherited()
    ensures ArpaProperty("constructor") == Inherited
  {
    assert |"constructor"| == 11;
    assert "constructor" !in CustomArpa() by {
      assert CustomArpa().Keys == {"lekker", "bru", "boet", "ja", "ain't"};
    }
    assert "constructor" in PrototypeNames();
  }

  /** The lookup as meant: only the table's own keys override the heuristic. */
  function Resolve(key: string): (r: seq<string>)
    ensures r != []
  {
    if key in CustomArpa() then CustomArpa()[key] else Heuristic.Heuristic(key)
  }

  /** Wherever the lookup as written answers, the corrected lookup gives the
      same phones; for the inherited name "constructor" it gives the
      heuristic's phones instead of throwing. */
  lemma ResolveAgrees(key: string)
    ensures LookupAsWritten(key).Found? ==> Resolve(key) == LookupAsWritten(key).phones
  {
  }

  // ----- `wordToPhones` as written, with its cache -----

  /** What the cache can hold as written: phones, or the inherited value that
      the lookup stored before it threw. */
  datatype CacheEntry = CachedPhones(phones: seq<string>) | CachedInherited

  /** One call of `wordToPhones` as written: its outcome and the new cache. */
  datatype Lookup = Lookup(outcome: Outcome, cache: map<string, CacheEntry>)

  /** `wordToPhones(w)` as written. A cached entry answers (and an inherited
      one throws at `c.slice()`); on a miss the table value, or else the
      heuristic's phones, is cached before `ph.slice()`. */
  function WordToPhonesAsWritten(cache: map<string, CacheEntry>, w: string): (r: Lookup)
    ensures forall k :: k in cache ==> k in r.cache && r.cache[k] == cache[k]
    ensures forall k :: k in r.cache ==> k in cache || k == CleanWord(w)
    ensures CleanWord(w) != [] ==> CleanWord(w) in r.cache
    ensures CleanWord(w) == [] ==> r == Lookup(Found([]), cache)
  {
    var key := CleanWord(w);
    if key == [] then Lookup(Found([]), cache)
    else if key in cache then Lookup(Hit(cache[key]), cache)
    else Miss(cache, key, ArpaProperty(key))
  }

  /** A cache hit: `c.slice()` copies phones and throws on the inherited value. */
  function Hit(entry: CacheEntry): (r: Outcome)
    ensures r.TypeError? <==> entry.CachedInherited?
  {
    match entry
    case CachedPhones(ph) => Found(ph)
    case CachedInherited => TypeError
  }

  /** A cache miss on `key`, whose table property is `prop`. */
  function Miss(cache: map<string, CacheEntry>, key: string, prop: Property): (r: Lookup)
    requires key !in cache
    ensures r.cache.Keys == cache.Keys + {key}
    ensures forall k :: k in cache ==> r.cache[k] == cache[k]
    ensures r.outcome.TypeError? <==> prop.Inherited?
    ensures r.outcome.TypeError? <==> r.cache[key].CachedInherited?
  {
    match prop
    case Own(ph) => Lookup(Found(ph), cache[key := CachedPhones(ph)])
    case Inherited => Lookup(TypeError, cache[key := CachedInherited])
    case Undefined =>
      var ph := Heuristic.Heuristic(key);
      Lookup(Found(ph), cache[key := CachedPhones(ph)])
  }

  /** The lookup as written throws exactly when the key is cached as the
      inherited value, or is not cached and names an inherited property. */
  lemma AsWrittenThrows(cache: map<string, CacheEntry>, w: string)
    ensures var key := CleanWord(w);
            WordToPhonesAsWritten(cache, w).outcome.TypeError? <==>
              key != [] && (if key in cache then cache[key].CachedInherited? else ArpaProperty(key).Inherited?)
  {
  }

  /** Once a lookup has thrown, the inherited value stays cached, so every
      later lookup of a word with the same cleaning throws as well. */
  lemma ThrowPersists(cache: map<string, CacheEntry>, w: string, later: string)
    requires WordToPhonesAsWritten(cache, w).outcome.TypeError?
    requires CleanWord(later) == CleanWord(w)
    ensures WordToPhonesAsWritten(WordToPhonesAsWritten(cache, w).cache, later).outcome.TypeError?
  {
    var key := CleanWord(w);
    var next := WordToPhonesAsWritten(cache, w).cache;
    AsWrittenThrows(cache, w);
    assert key in next && next[key] == CachedInherited;
    AsWrittenThrows(next, later);
  }

  /** On a fresh analyzer, "Constructor" throws, and so does every later
      lookup of "constructor". */
  lemma ConstructorPoisonsCache(later: string)
    requires CleanWord(later) == "constructor"
    ensures WordToPhonesAsWritten(map[], "Constructor").outcome == TypeError
    ensures WordToPhonesAsWritten(WordToPhonesAsWritten(map[], "Constructor").cache, later).outcome == TypeError
  {
    ConstructorCleans();
    ConstructorInherited();
    ThrowPersists(map[], "Constructor", later);
  }

  /** A cache as written that holds only resolved phones. */
  predicate CacheResolved(cache: map<string, CacheEntry>) {
    forall k :: k in cache ==> k != [] && cache[k] == CachedPhones(Resolve(k))
  }

  /** Wherever the cleaned word is not an inherited name, the lookup as
      written gives the corrected phones `PhonesOf(w)` and keeps its cache
      resolved, as the corrected class method does. */
  lemma WordToPhonesAgrees(cache: map<string, CacheEntry>, w: string)
    requires CacheResolved(cache)
    requires !ArpaProperty(CleanWord(w)).Inherited?
    ensures WordToPhonesAsWritten(cache, w).outcome == Found(PhonesOf(w))
    ensures CacheResolved(WordToPhonesAsWritten(cache, w).cache)
  {
    var key := CleanWord(w);
    if key != [] && key !in cache {
      MissResolved(cache, key);
    }
  }

  /** A miss on a name that is not inherited caches and returns its resolved phones. */
  lemma MissResolved(cache: map<string, CacheEntry>, key: string)
    requires CacheResolved(cache) && key != [] && key !in cache
    requires !ArpaProperty(key).Inherited?
    ensures Miss(cache, key, ArpaProperty(key)) == Lookup(Found(Resolve(key)), cache[key := CachedPhones(Resolve(key))])
    ensures CacheResolved(cache[key := CachedPhones(Resolve(key))])
  {
    MissFound(cache, key, ArpaProperty(key));
    StoreResolved(cache, key, Resolve(key));
  }

  lemma MissFound(cache: map<string, CacheEntry>, key: string, prop: Property)
    requires key !in cache && prop == ArpaProperty(key) && !prop.Inherited?
    ensures Miss(cache, key, prop) == Lookup(Found(Resolve(key)), cache[key := CachedPhones(Resolve(key))])
  {
    if prop.Own? {
      assert key in CustomArpa();
    }
  }

  lemma StoreResolved(cache: map<string, CacheEntry>, key: string, ph: seq<string>)
    requires CacheResolved(cache) && key != [] && ph == Resolve(key)
    ensures CacheResolved(cache[key := CachedPhones(ph)])
  {
  }



  /** What `wordToPhones(w)` returns. */
  function PhonesOf(w: string): seq<string> {
    var key := CleanWord(w);
    if key == [] then [] else Resolve(key)
  }

  /** `wordToPhones` answers `[]` exactly for a word that cleans to "",
      and the resolved phones of its key otherwise. */
  lemma PhonesOfEmpty(w: string)
    ensures PhonesOf(w) == [] <==> CleanWord(w) == []
    ensures CleanWord(w) != [] ==> PhonesOf(w) == Resolve(CleanWord(w))
  {
  }

  // ----- Spans -----

  /** The span pushed for token `i`, its phones looked up by `phones`. */
  function SpanAt(words: seq<Token>, phones: string -> seq<string>, i: nat): (s: Span)
    requires i < |words|
    ensures s.i == i && s.line == words[i].line && s.word == words[i].word
    ensures s.tail == NucleusCodaOf(phones(words[i].word)) && s.bucketKey == BucketKey(s.tail)
    ensures s.isEnd == IsLineEnd(words, i)
  {
    var tail := NucleusCodaOf(phones(words[i].word));
    Span(i, words[i].line, words[i].word, tail, BucketKey(tail), IsLineEnd(words, i))
  }

  /** The words `analyze` skips: the stopwords, when the settings ask for it. */
  function Ignored(settings: Settings): set<string> {
    if settings.ignoreStopwords then StopWords() else {}
  }

  /** A stopword is skipped when the settings ask for it. */
  predicate Skipped(words: seq<Token>, i: nat, stop: set<string>)
    requires i < |words|
  {
    words[i].word in stop
  }

  /** The indices of the tokens `0..n` that are not skipped, in order. */
  function Kept(words: seq<Token>, stop: set<string>, n: nat): (r: seq<nat>)
    requires n <= |words|
    ensures forall k :: 0 <= k < |r| ==> r[k] < n
    decreases n
  {
    if n == 0 then []
    else Kept(words, stop, n - 1) + (if Skipped(words, n - 1, stop) then [] else [n - 1])
  }

  /** The spans of tokens `0..n`: one `SpanAt` per kept token. */
  function SpansOf(words: seq<Token>, phones: string -> seq<string>, stop: set<string>, n: nat): (r: seq<Span>)
    requires n <= |words|
    ensures |r| == |Kept(words, stop, n)|
  {
    var ks := Kept(words, stop, n);
    seq(|ks|, k requires 0 <= k < |ks| => SpanAt(words, phones, ks[k]))
  }

  /** `ks` lists the tokens below `n` that are not skipped: each once, in
      increasing order, and every one of them. */
  predicate KeptBelow(words: seq<Token>, stop: set<string>, n: nat, ks: seq<nat>)
    requires n <= |words|
  {
    && Increasing(ks)
    && (forall k :: 0 <= k < |ks| ==> ks[k] < n && !Skipped(words, ks[k], stop))
    && (forall i :: 0 <= i < n && !Skipped(words, i, stop) ==> i in ks)
  }

  /** Kept indices are exactly the tokens below `n` that are not skipped,
      each once and in increasing order. */
  lemma {:induction false} KeptShape(words: seq<Token>, stop: set<string>, n: nat)
    requires n <= |words|
    ensures KeptBelow(words, stop, n, Kept(words, stop, n))
    decreases n
  {
    if n > 0 {
      KeptShape(words, stop, n - 1);
      var front := Kept(words, stop, n - 1);
      if !Skipped(words, n - 1, stop) {
        assert Kept(words, stop, n) == front + [n - 1];
        KeptAppend(words, stop, n - 1, front);
      } else {
        assert Kept(words, stop, n) == front + [] == front;
        KeptPass(words, stop, n - 1, front);
      }
    }
  }

  /** A token that is not skipped, appended after the kept tokens before it. */
  lemma KeptAppend(words: seq<Token>, stop: set<string>, m: nat, front: seq<nat>)
    requires m < |words| && !Skipped(words, m, stop) && KeptBelow(words, stop, m, front)
    ensures KeptBelow(words, stop, m + 1, front + [m])
  {
    var ks := front + [m];
    forall k | 0 <= k < |ks| ensures ks[k] <= m && !Skipped(words, ks[k], stop) && (k < |front| ==> ks[k] == front[k]) {
    }
  }

  /** A skipped token adds nothing. */
  lemma KeptPass(words: seq<Token>, stop: set<string>, m: nat, front: seq<nat>)
    requires m < |words| && Skipped(words, m, stop) && KeptBelow(words, stop, m, front)
    ensures KeptBelow(words, stop, m + 1, front)
  {
  }

  /** One more token adds its span unless it is skipped. */
  lemma SpansOfStep(words: seq<Token>, phones: string -> seq<string>, stop: set<string>, n: nat)
    requires n < |words|
    ensures SpansOf(words, phones, stop, n + 1)
         == SpansOf(words, phones, stop, n) + (if Skipped(words, n, stop) then [] else [SpanAt(words, phones, n)])
  {
    var front := Kept(words, stop, n);
    var a, b := SpansOf(words, phones, stop, n), SpansOf(words, phones, stop, n + 1);
    if !Skipped(words, n, stop) {
      assert Kept(words, stop, n + 1) == front + [n];
      forall k | 0 <= k < |b| ensures b[k] == (a + [SpanAt(words, phones, n)])[k] {
        if k < |a| {
          assert (front + [n])[k] == front[k];
        }
      }
    } else {
      assert Kept(words, stop, n + 1) == front;
    }
  }

  /** Spans are the tokens not skipped, in token order, each made by `SpanAt`. */
  lemma SpansShape(words: seq<Token>, phones: string -> seq<string>, stop: set<string>)
    ensures var spans := SpansOf(words, phones, stop, |words|);
            && (forall s :: 0 <= s < |spans| ==> spans[s].i < |words| && spans[s] == SpanAt(words, phones, spans[s].i))
            && (forall s :: 0 <= s < |spans| ==> !Skipped(words, spans[s].i, stop))
            && (forall s, t :: 0 <= s < t < |spans| ==> spans[s].i < spans[t].i)
            && (forall i :: 0 <= i < |words| && !Skipped(words, i, stop) ==>
                  exists s :: 0 <= s < |spans| && spans[s].i == i)
  {
    var spans := SpansOf(words, phones, stop, |words|);
    SpansKept(words, phones, stop, spans);
    SpansComplete(words, phones, stop, spans);
  }

  /** Each span is the `SpanAt` of a kept token, and the tokens increase. */
  lemma SpansKept(words: seq<Token>, phones: string -> seq<string>, stop: set<string>, spans: seq<Span>)
    requires spans == SpansOf(words, phones, stop, |words|)
    ensures forall s :: 0 <= s < |spans| ==>
              spans[s].i < |words| && spans[s] == SpanAt(words, phones, spans[s].i) && !Skipped(words, spans[s].i, stop)
    ensures forall s, t :: 0 <= s < t < |spans| ==> spans[s].i < spans[t].i
  {
    var ks := Kept(words, stop, |words|);
    KeptShape(words, stop, |words|);
    assert forall s :: 0 <= s < |spans| ==> spans[s] == SpanAt(words, phones, ks[s]);
  }

  /** Every token that is not skipped has a span. */
  lemma SpansComplete(words: seq<Token>, phones: string -> seq<string>, stop: set<string>, spans: seq<Span>)
    requires spans == SpansOf(words, phones, stop, |words|)
    ensures forall i :: 0 <= i < |words| && !Skipped(words, i, stop) ==>
              exists s :: 0 <= s < |spans| && spans[s].i == i
  {
    var ks := Kept(words, stop, |words|);
    KeptShape(words, stop, |words|);
    forall i | 0 <= i < |words| && !Skipped(words, i, stop)
      ensures exists s :: 0 <= s < |spans| && spans[s].i == i
    {
      var s :| 0 <= s < |ks| && ks[s] == i;
      assert spans[s] == SpanAt(words, phones, ks[s]);
    }
  }

  /** On the tokens of a text, no two spans end the same line. */
  lemma SpansOneEndPerLine(words: seq<Token>, phones: string -> seq<string>, stop: set<string>)
    requires Ordered(words)
    ensures OneEndPerLine(SpansOf(words, phones, stop, |words|))
  {
    var spans := SpansOf(words, phones, stop, |words|);
    SpansKept(words, phones, stop, spans);
    forall s, t | 0 <= s < t < |spans| && spans[s].isEnd && spans[t].isEnd
      ensures spans[s].line != spans[t].line
    {
      LineEndIsLastOfLine(words, spans[s].i);
    }
  }

  // ----- The result -----

  datatype Analysis = Analysis(
    words: seq<Token>,
    spans: seq<Span>,
    groups: seq<seq<nat>>,
    assonance: seq<seq<nat>>,
    scheme: seq<CodeUnit>)

  /** The rhyme groups of `spans`. */
  function RhymeGroups(spans: seq<Span>, settings: Settings): seq<seq<nat>> {
    AllGroups(RhymeJoin(spans, settings.perfectThreshold, settings.slantThreshold), BucketLists(RhymeKeys(spans)))
  }

  /** The assonance clusters of `spans`. */
  function Assonance(spans: seq<Span>, settings: Settings): seq<seq<nat>> {
    if settings.assonanceEnabled
    then AllGroups(VowelJoin(spans, settings.assonanceThreshold), BucketLists(VowelKeys(spans)))
    else []
  }

  /** `analyze(text)`. */
  function AnalysisOf(text: string, settings: Settings): Analysis {
    var words := Tokens(text);
    var spans := SpansOf(words, PhonesOf, Ignored(settings), |words|);
    var groups := RhymeGroups(spans, settings);
    Analysis(words, spans, groups, Assonance(spans, settings),
             Letter(LineFinal(spans, groups), LineCount(spans)).scheme)
  }

  /** The cache keys that looking up the tokens `0..n` stores: the non-empty
      cleaning of every token that is not skipped. */
  function StoredKeys(words: seq<Token>, stop: set<string>, n: nat): set<string>
    requires n <= |words|
  {
    if n == 0 then {}
    else StoredKeys(words, stop, n - 1) + (if Skipped(words, n - 1, stop) then {} else CacheKey(words[n - 1].word))
  }

  /** The key that looking up `w` stores, if any. */
  function CacheKey(w: string): set<string> {
    var key := CleanWord(w);
    if key == [] then {} else {key}
  }

  /** A lookup adds its cleaned word, when not empty, to the cache keys. */
  lemma CacheKeyStored(cache0: map<string, seq<string>>, cache: map<string, seq<string>>, w: string)
    requires var key := CleanWord(w);
             cache == if key == [] then cache0 else cache0[key := Resolve(key)]
    ensures cache.Keys == cache0.Keys + CacheKey(w)
  {
  }

  /** The cache keys after token `i` follow from those before it. */
  lemma StoredKeysStep(keys0: set<string>, before: set<string>, after: set<string>,
                       words: seq<Token>, stop: set<string>, i: nat)
    requires i < |words| && before == keys0 + StoredKeys(words, stop, i)
    requires after == before + (if Skipped(words, i, stop) then {} else CacheKey(words[i].word))
    ensures after == keys0 + StoredKeys(words, stop, i + 1)
  {
  }

  /** Every cached entry is the resolved phones of its key. */
  predicate CacheAgrees(cache: map<string, seq<string>>) {
    forall k :: k in cache ==> k != [] && cache[k] == Resolve(k)
  }

  /** A cached entry is the resolved phones of its key, so the cache is
      unchanged by storing it again. */
  lemma CacheHit(cache: map<string, seq<string>>, key: string)
    requires CacheAgrees(cache) && key in cache
    ensures cache[key] == Resolve(key) && cache[key := Resolve(key)] == cache
  {
  }

  /** Storing the resolved phones of a non-empty key keeps the cache sound. */
  lemma CacheStore(cache: map<string, seq<string>>, key: string)
    requires CacheAgrees(cache) && key != []
    ensures CacheAgrees(cache[key := Resolve(key)])
  {
  }

  /** The lookup on a cache miss: the override table, else the heuristic. */
  method ResolvePhones(key: string) returns (ph: seq<string>)
    ensures ph == Resolve(key)
  {
    if key in CustomArpa() {
      ph := CustomArpa()[key];
    } else {
      ph := HeuristicPhones(key);
    }
  }

  // ----- The analyzer object -----

  class RhymeAnalyzer {
    const settings: Settings
    var phoneCache: map<string, seq<string>>

    predicate Valid()
      reads this
    {
      CacheAgrees(phoneCache)
    }

    constructor(settings: Settings)
      ensures this.settings == settings && phoneCache == map[] && Valid()
    {
      this.settings := settings;
      phoneCache := map[];
    }

    /** `wordToPhones(w)`: the cache answers when it holds the key; otherwise
        the phones are resolved and cached. */
    method WordToPhones(w: string) returns (ph: seq<string>)
      requires Valid()
      modifies this`phoneCache
      ensures Valid()
      ensures ph == PhonesOf(w)
      ensures var key := CleanWord(w);
              phoneCache == if key == [] then old(phoneCache) else old(phoneCache)[key := Resolve(key)]
    {
      var key := CleanWord(w);
      if key == [] {
        return [];
      }
      if key in phoneCache {
        ph := phoneCache[key];
        CacheHit(phoneCache, key);
        return;
      }
      ph := ResolvePhones(key);
      CacheStore(phoneCache, key);
      phoneCache := phoneCache[key := ph];
    }

    /** `tokenize(text)`. */
    method Tokenize(text: string) returns (words: seq<Token>)
      ensures words == Tokens(text)
    {
      var lines := Lines(text);
      words := [];
      for li := 0 to |lines|
        invariant words + LineTokens(lines, li) == Tokens(text)
      {
        ghost var head := PartTokens(Parts(lines[li]), li, 0);
        ghost var rest := LineTokens(lines, li + 1);
        assert LineTokens(lines, li) == head + rest;
        assert words + (head + rest) == (words + head) + rest;
        words := PushWords(words, Parts(lines[li]), li);
      }
    }

    /** The inner loop of `tokenize` over the parts of line `li`. */
    method PushWords(words0: seq<Token>, parts: seq<string>, li: nat) returns (words: seq<Token>)
      ensures words == words0 + PartTokens(parts, li, 0)
    {
      words := words0;
      for idx := 0 to |parts|
        invariant words + PartTokens(parts, li, idx) == words0 + PartTokens(parts, li, 0)
      {
        var after := PushPart(words, parts, li, idx);
        PartTokensPush(words0 + PartTokens(parts, li, 0), words, after, parts, li, idx);
        words := after;
      }
    }

    /** One part: pushed, cleaned, when it is a word whose cleaning is not empty. */
    method PushPart(words0: seq<Token>, parts: seq<string>, li: nat, idx: nat) returns (words: seq<Token>)
      requires idx < |parts|
      ensures words == words0 + PartToken(parts, li, idx)
    {
      words := words0;
      var t := parts[idx];
      if IsWordToken(t) {
        var cleaned := CleanWord(t);
        if cleaned != [] {
          words := words + [Token(cleaned, li, idx)];
        }
      }
    }

    /** The loop that builds the spans. */
    method Spans(words: seq<Token>) returns (spans: seq<Span>)
      requires Valid()
      modifies this`phoneCache
      ensures Valid()
      ensures spans == SpansOf(words, PhonesOf, Ignored(settings), |words|)
      ensures phoneCache.Keys == old(phoneCache).Keys + StoredKeys(words, Ignored(settings), |words|)
    {
      spans := [];
      ghost var keys0 := phoneCache.Keys;
      for i := 0 to |words|
        invariant Valid()
        invariant spans == SpansOf(words, PhonesOf, Ignored(settings), i)
        invariant phoneCache.Keys == keys0 + StoredKeys(words, Ignored(settings), i)
      {
        ghost var before := phoneCache.Keys;
        spans := Visit(words, i, spans);
        StoredKeysStep(keys0, before, phoneCache.Keys, words, Ignored(settings), i);
      }
    }

    /** One round of the span loop: a skipped stopword adds nothing, any
        other token adds its span. */
    method Visit(words: seq<Token>, i: nat, spans0: seq<Span>) returns (spans: seq<Span>)
      requires Valid() && i < |words|
      requires spans0 == SpansOf(words, PhonesOf, Ignored(settings), i)
      modifies this`phoneCache
      ensures Valid()
      ensures spans == SpansOf(words, PhonesOf, Ignored(settings), i + 1)
      ensures phoneCache.Keys
           == old(phoneCache).Keys + (if Skipped(words, i, Ignored(settings)) then {} else CacheKey(words[i].word))
    {
      SpansOfStep(words, PhonesOf, Ignored(settings), i);
      if settings.ignoreStopwords && words[i].word in StopWords() {
        assert Skipped(words, i, Ignored(settings));
        return spans0;
      }
      assert !Skipped(words, i, Ignored(settings));
      var span := LookUpSpan(words, i);
      spans := spans0 + [span];
    }

    /** One round of the span loop for a token that is not skipped: its
        phones are looked up, which may store its cleaning in the cache. */
    method LookUpSpan(words: seq<Token>, i: nat) returns (span: Span)
      requires Valid() && i < |words|
      modifies this`phoneCache
      ensures Valid()
      ensures span == SpanAt(words, PhonesOf, i)
      ensures phoneCache.Keys == old(phoneCache).Keys + CacheKey(words[i].word)
    {
      var w := words[i];
      ghost var cache0 := phoneCache;
      var ph := WordToPhones(w.word);
      CacheKeyStored(cache0, phoneCache, w.word);
      var tail := PhonesToNucleusCoda(ph);
      var bucketKey := FirstOr(tail.nucleus) + "|" + LastOr(tail.coda);
      span := Span(i, w.line, w.word, tail, bucketKey, IsLineEnd(words, i));
    }

    /** `analyze(text)`. */
    method Analyze(text: string) returns (r: Analysis)
      requires Valid()
      modifies this`phoneCache
      ensures Valid()
      ensures r == AnalysisOf(text, settings)
      ensures old(phoneCache).Keys <= phoneCache.Keys
      ensures phoneCache.Keys == old(phoneCache).Keys + StoredKeys(Tokens(text), Ignored(settings), |Tokens(text)|)
    {
      var words := Tokenize(text);
      var spans := Spans(words);
      var groups := RhymePass(spans, settings);
      var assonance := AssonancePass(spans, settings);
      var scheme := SchemePass(spans, groups, settings);
      r := Analysis(words, spans, groups, assonance, scheme);
    }
  }

  /** The rhyme pass of `analyze`. */
  method RhymePass(spans: seq<Span>, settings: Settings) returns (groups: seq<seq<nat>>)
    ensures groups == RhymeGroups(spans, settings)
  {
    groups := GroupAll(RhymeJoin(spans, settings.perfectThreshold, settings.slantThreshold),
                       RhymeKeys(spans), false);
  }

  /** The assonance pass of `analyze`, run only when enabled. */
  method AssonancePass(spans: seq<Span>, settings: Settings) returns (clusters: seq<seq<nat>>)
    ensures clusters == Assonance(spans, settings)
  {
    clusters := [];
    if settings.assonanceEnabled {
      clusters := GroupAll(VowelJoin(spans, settings.assonanceThreshold), VowelKeys(spans), true);
    }
  }

  /** The scheme of `analyze`: the line-final groups, then the letters. */
  method SchemePass(spans: seq<Span>, groups: seq<seq<nat>>, settings: Settings) returns (scheme: seq<CodeUnit>)
    requires groups == RhymeGroups(spans, settings)
    ensures scheme == Letter(LineFinal(spans, groups), LineCount(spans)).scheme
  {
    GroupIndices(spans, settings);
    var lfg := LineFinalGroups(spans, groups);
    scheme := SchemeOf(lfg, LineCount(spans));
  }

  // ----- What `analyze` promises -----

  /** Rhyme groups are pairwise disjoint; each holds at least two span
      indices in increasing order, all with the bucket key of its first
      span, and every later member is within the threshold of the first:
      the perfect one when both end their lines, the slant one otherwise. */
  lemma RhymeGroupsShape(spans: seq<Span>, settings: Settings)
    ensures var gs := RhymeGroups(spans, settings);
            && Disjoint(gs)
            && (forall p :: 0 <= p < |gs| ==> |gs[p]| >= 2 && Increasing(gs[p]))
            && (forall p, e :: 0 <= p < |gs| && e in gs[p] ==>
                  e < |spans| && gs[p][0] < |spans| && spans[e].bucketKey == spans[gs[p][0]].bucketKey)
            && (forall p :: 0 <= p < |gs| ==> NearAnchor(spans, settings, gs[p]))
  {
    var join := RhymeJoin(spans, settings.perfectThreshold, settings.slantThreshold);
    var keys := RhymeKeys(spans);
    var gs := AllGroups(join, BucketLists(keys));
    GroupsShape(join, keys);
    RhymeKeyed(spans, gs, KeyOrder(keys));
    RhymeJoined(spans, settings, gs);
  }

  /** Every rhyme group member has the bucket key of the group's first span. */
  lemma RhymeKeyed(spans: seq<Span>, gs: seq<seq<nat>>, ks: seq<string>)
    requires Keyed(gs, RhymeKeys(spans), ks)
    ensures forall p, e :: 0 <= p < |gs| && e in gs[p] ==>
              e < |spans| && gs[p][0] < |spans| && spans[e].bucketKey == spans[gs[p][0]].bucketKey
  {
    var keys := RhymeKeys(spans);
    forall p, e | 0 <= p < |gs| && e in gs[p]
      ensures e < |spans| && gs[p][0] < |spans| && spans[e].bucketKey == spans[gs[p][0]].bucketKey
    {
      assert keys[e] == keys[gs[p][0]];
    }
  }

  /** Every later member of `g` is within the rhyme threshold of the
      first: the perfect one when both spans end their lines, the slant one
      otherwise. */
  predicate NearAnchor(spans: seq<Span>, settings: Settings, g: seq<nat>) {
    && g != [] && g[0] < |spans|
    && forall k :: 1 <= k < |g| ==>
         g[k] < |spans| &&
         RhymeDist(spans[g[0]].tail, spans[g[k]].tail)
           <= (if spans[g[0]].isEnd && spans[g[k]].isEnd then settings.perfectThreshold else settings.slantThreshold)
  }

  /** Every rhyme group is near its anchor. */
  lemma RhymeJoined(spans: seq<Span>, settings: Settings, gs: seq<seq<nat>>)
    requires AllWellFormed(RhymeJoin(spans, settings.perfectThreshold, settings.slantThreshold), gs)
    ensures forall p :: 0 <= p < |gs| ==> NearAnchor(spans, settings, gs[p])
  {
    forall p | 0 <= p < |gs| ensures NearAnchor(spans, settings, gs[p]) {
      GroupJoined(spans, settings, gs[p]);
    }
  }

  lemma GroupJoined(spans: seq<Span>, settings: Settings, g: seq<nat>)
    requires WellFormedGroup(RhymeJoin(spans, settings.perfectThreshold, settings.slantThreshold), g)
    ensures NearAnchor(spans, settings, g)
  {
    var join := RhymeJoin(spans, settings.perfectThreshold, settings.slantThreshold);
    assert join(g[0], g[1]);
    forall k | 1 <= k < |g|
      ensures g[k] < |spans| &&
              RhymeDist(spans[g[0]].tail, spans[g[k]].tail)
                <= (if spans[g[0]].isEnd && spans[g[k]].isEnd then settings.perfectThreshold else settings.slantThreshold)
    {
      assert join(g[0], g[k]);
    }
  }

  /** Every group member is a span index. */
  lemma GroupIndices(spans: seq<Span>, settings: Settings)
    ensures var gs := RhymeGroups(spans, settings);
            forall p, k :: 0 <= p < |gs| && 0 <= k < |gs[p]| ==> gs[p][k] < |spans|
  {
    RhymeGroupsShape(spans, settings);
    var gs := RhymeGroups(spans, settings);
    forall p, k | 0 <= p < |gs| && 0 <= k < |gs[p]| ensures gs[p][k] < |spans| {
      assert gs[p][k] in gs[p];
    }
  }

  /** What the assonance pass promises of its clusters `cs`: pairwise
      disjoint, each of at least two span indices in increasing order, all
      with the nucleus of the first span, each later one within `th`. */
  predicate ClustersHold(spans: seq<Span>, cs: seq<seq<nat>>, th: real) {
    && Disjoint(cs)
    && (forall p :: 0 <= p < |cs| ==> |cs[p]| >= 2 && Increasing(cs[p]))
    && (forall p, e :: 0 <= p < |cs| && e in cs[p] ==>
          e < |spans| && cs[p][0] < |spans| && NucleusKey(spans[e].tail) == NucleusKey(spans[cs[p][0]].tail))
    && (forall p :: 0 <= p < |cs| ==> NearFirst(spans, cs[p], th))
  }

  /** Every later member of `g` is within `th` of the first in nucleus distance. */
  predicate NearFirst(spans: seq<Span>, g: seq<nat>, th: real) {
    && g != [] && g[0] < |spans|
    && forall k :: 1 <= k < |g| ==>
         g[k] < |spans| && NucleusDist(spans[g[0]].tail.nucleus, spans[g[k]].tail.nucleus) <= th
  }

  /** Assonance clusters: none when disabled, and `ClustersHold` always. */
  lemma AssonanceShape(spans: seq<Span>, settings: Settings)
    ensures !settings.assonanceEnabled ==> Assonance(spans, settings) == []
    ensures ClustersHold(spans, Assonance(spans, settings), settings.assonanceThreshold)
  {
    if settings.assonanceEnabled {
      ClustersShape(spans, settings.assonanceThreshold);
    }
  }

  /** The clusters of the assonance pass with threshold `th`. */
  lemma ClustersShape(spans: seq<Span>, th: real)
    ensures ClustersHold(spans, AllGroups(VowelJoin(spans, th), BucketLists(VowelKeys(spans))), th)
  {
    var join := VowelJoin(spans, th);
    var keys := VowelKeys(spans);
    var cs := AllGroups(join, BucketLists(keys));
    GroupsShape(join, keys);
    ClustersKeyed(spans, cs, KeyOrder(keys));
    ClustersJoined(spans, th, cs);
  }

  /** Every cluster member has the nucleus of the cluster's first span. */
  lemma ClustersKeyed(spans: seq<Span>, cs: seq<seq<nat>>, ks: seq<string>)
    requires Keyed(cs, VowelKeys(spans), ks)
    ensures forall p, e :: 0 <= p < |cs| && e in cs[p] ==>
              e < |spans| && cs[p][0] < |spans| && NucleusKey(spans[e].tail) == NucleusKey(spans[cs[p][0]].tail)
  {
    var keys := VowelKeys(spans);
    forall p, e | 0 <= p < |cs| && e in cs[p]
      ensures e < |spans| && cs[p][0] < |spans| && NucleusKey(spans[e].tail) == NucleusKey(spans[cs[p][0]].tail)
    {
      assert keys[e] == keys[cs[p][0]];
    }
  }

  /** Every later cluster member is within `th` of the first. */
  lemma ClustersJoined(spans: seq<Span>, th: real, cs: seq<seq<nat>>)
    requires AllWellFormed(VowelJoin(spans, th), cs)
    ensures forall p :: 0 <= p < |cs| ==> NearFirst(spans, cs[p], th)
  {
    forall p | 0 <= p < |cs| ensures NearFirst(spans, cs[p], th) {
      ClusterJoined(spans, th, cs[p]);
    }
  }

  lemma ClusterJoined(spans: seq<Span>, th: real, g: seq<nat>)
    requires WellFormedGroup(VowelJoin(spans, th), g)
    ensures NearFirst(spans, g, th)
  {
    var join := VowelJoin(spans, th);
    assert join(g[0], g[1]);
    forall k | 1 <= k < |g|
      ensures g[k] < |spans| && NucleusDist(spans[g[0]].tail.nucleus, spans[g[k]].tail.nucleus) <= th
    {
      assert join(g[0], g[k]);
    }
  }

  /** Inside an assonance bucket the nucleus distance is 0: the bucket key
      tells proper nuclei apart. */
  lemma SameNucleusKey(t: NucleusCoda, u: NucleusCoda)
    requires ProperNucleus(t) && ProperNucleus(u) && NucleusKey(t) == NucleusKey(u)
    ensures NucleusDist(t.nucleus, u.nucleus) == 0.0
  {
    if t.nucleus != [] && u.nucleus != [] {
      assert t.nucleus[0] == u.nucleus[0];
    }
  }

  /** With a threshold of at least 0 every anchor takes its whole bucket,
      so the clusters are exactly the nucleus buckets of two or more spans. */
  lemma AssonanceWholeBuckets(spans: seq<Span>, settings: Settings)
    requires forall s :: 0 <= s < |spans| ==> ProperNucleus(spans[s].tail)
    requires settings.assonanceEnabled && settings.assonanceThreshold >= 0.0
    ensures Assonance(spans, settings) == Populous(BucketLists(VowelKeys(spans)))
  {
    var keys := VowelKeys(spans);
    var join := VowelJoin(spans, settings.assonanceThreshold);
    var bs := BucketLists(keys);
    BucketsPartition(keys);
    forall m, k | 0 <= m < |bs| && 1 <= k < |bs[m]| ensures join(bs[m][0], bs[m][k]) {
      var a := bs[m][0];
      var b := bs[m][k];
      assert a in bs[m] && b in bs[m];
      SameNucleusKey(spans[a].tail, spans[b].tail);
    }
    AllGroupsAllJoin(join, bs);
  }

  /** With a negative threshold nothing joins, so there are no clusters. */
  lemma AssonanceNegative(spans: seq<Span>, settings: Settings)
    requires settings.assonanceThreshold < 0.0
    ensures Assonance(spans, settings) == []
  {
    if settings.assonanceEnabled {
      AllGroupsNoJoin(VowelJoin(spans, settings.assonanceThreshold), BucketLists(VowelKeys(spans)));
    }
  }

  /** The spans of a text carry proper nuclei. */
  lemma SpansProper(words: seq<Token>, phones: string -> seq<string>, stop: set<string>)
    ensures var spans := SpansOf(words, phones, stop, |words|);
            forall s :: 0 <= s < |spans| ==> ProperNucleus(spans[s].tail)
  {
    var spans := SpansOf(words, phones, stop, |words|);
    forall s | 0 <= s < |spans| ensures ProperNucleus(spans[s].tail) {
      var i := Kept(words, stop, |words|)[s];
      assert spans[s] == SpanAt(words, phones, i);
    }
  }

  /** On a text, with a threshold of at least 0, the assonance clusters are
      the nucleus buckets of two or more spans. */
  lemma AnalysisAssonance(text: string, settings: Settings)
    requires settings.assonanceEnabled && settings.assonanceThreshold >= 0.0
    ensures var a := AnalysisOf(text, settings);
            a.assonance == Populous(BucketLists(VowelKeys(a.spans)))
  {
    var words := Tokens(text);
    SpansProper(words, PhonesOf, Ignored(settings));
    AssonanceWholeBuckets(SpansOf(words, PhonesOf, Ignored(settings), |words|), settings);
  }

  /** The scheme of a text: one entry per line up to the last line holding
      a span; an entry is '-' exactly when no span ending that line is in a
      group; two lettered lines share a letter exactly when their line-final
      spans are in the same group. */
  lemma AnalysisScheme(text: string, settings: Settings)
    ensures var a := AnalysisOf(text, settings);
            SchemeMarks(a.spans, a.groups, a.scheme)
  {
    var a := AnalysisOf(text, settings);
    AnalysisFacts(text, settings);
    SchemeShape(a.spans, a.groups, a.scheme);
  }

  /** What the scheme lemmas need of an analysis. */
  lemma AnalysisFacts(text: string, settings: Settings)
    ensures var a := AnalysisOf(text, settings);
            && Disjoint(a.groups) && OneEndPerLine(a.spans)
            && a.scheme == Letter(LineFinal(a.spans, a.groups), LineCount(a.spans)).scheme
  {
    var words := Tokens(text);
    TokensShape(text);
    SpansOneEndPerLine(words, PhonesOf, Ignored(settings));
    RhymeGroupsShape(SpansOf(words, PhonesOf, Ignored(settings), |words|), settings);
  }
}
