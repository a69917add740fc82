# Rhyme engine of the Rhyme Analyzer plugin, in Dafny

This project models the engine of the Rhyme Analyzer plugin
(`rhyme-analyzer/main.js`, the `RhymeAnalyzer` class and the helpers it uses)
and the command-only variant `RhymeAnalyzerSimple.scheme`
(`rhyme-analyzer/main-simple.js`). It then proves what the engine promises.

The engine turns a block of text into an analysis:

- **Words.** `tokenize` splits the text into lines and each line into the
  parts `[A-Za-z']+` and `[^A-Za-z'\s]+`. It keeps each word part whose
  `cleanWord` is not empty, with its line and part index.
- **Phones.** `wordToPhones` looks a cleaned word up in a cache. On a miss it
  uses the `CUSTOM_ARPA` table, and otherwise `heuristicPhones`, a rough
  spelling-to-ARPAbet conversion.
- **Tails.** `phonesToNucleusCoda` cuts the phones into a nucleus (the last
  vowel phone, stress stripped) and a coda (the phones after it).
- **Spans.** Every word that is not a stopword becomes a span. A span carries
  its tail, a bucket key and whether it ends its line.
- **Rhyme groups.** Spans are bucketed by key, and each bucket is grouped
  greedily. The first free span anchors a group of every later free span
  within `rhymeDistance` of it: the perfect threshold applies when both spans
  end their lines, the slant threshold otherwise.
- **Assonance clusters.** The same greedy pass runs over buckets keyed by the
  nucleus, with the nucleus distance.
- **Scheme.** Each line gets the letter of the group that its line-final span
  belongs to, or `-`. Letters are handed out from `A` in order of first
  appearance.

The simple variant gives every non-blank line a letter. Its key is the vowel
class (`classOf`) and the last two tail characters (`cod`) of the line's last
word.

## Modules

- `Text` (`text.dfy`): the JavaScript primitives the engine relies on.
  - the regular-expression classes `\s` and `\w`
  - ASCII `toLowerCase`
  - `split(/\n/)` and `trim`
  - `replace(/\s+/g, '')`
  - `String.fromCharCode` with its 16-bit truncation
- `Phones` (`phones.dfy`): `stripStress`, `isVowelPhone`, and
  `phonesToNucleusCoda` as a specification function and as the backward loop.
- `Distance` (`distance.dfy`): `vowelClass`, `vowelFamily`,
  `nucleusDistance`, `codaDistance` (a function and the loop) and
  `rhymeDistance`.
- `Heuristic` (`heuristic.dfy`): `heuristicPhones`.
  - Each global `replace` is a left-to-right scanner function, paired with a
    loop method.
  - The method pushes into one phone list, as the source does.
- `Tokenizer` (`tokenizer.dfy`): `cleanWord`, the part regex, the token
  order and `isLineEnd`.
- `Grouping` (`grouping.dfy`): the bucket `Map` with its insertion order, and
  the greedy grouping as the function `Greedy`.
  - `GreedyBucket` and `Collect` are the loops with their flag array.
  - `GroupAll` runs a whole pass.
- `Scheme` (`scheme.dfy`): `lineFinalGroup`, `lineCount` and the letter loop.
- `Analyzer` (`analyzer.dfy`): the settings and tables, and the class
  `RhymeAnalyzer`.
  - The class holds the `phoneCache` field and the methods `WordToPhones`,
    `Tokenize` and `Analyze`.
  - `WordToPhonesAsWritten` is `wordToPhones` as written, on values, with
    its cache.
  - `AnalysisOf` is the specification of `analyze`, and the `Analysis*`
    lemmas state what it promises.
- `Simple` (`simple.dfy`): `RhymeAnalyzerSimple.scheme`, with `classOf`,
  `cod` and the labelling loop.

### Where the code does not do what a reader might expect

- **Scheme length.** A reader might expect the scheme to hold one entry per
  line of the input. The code writes entries only up to the last line that
  holds a span (`main.js` line 197), and the model follows the code. A text
  whose last lines hold no span gets a shorter scheme.
- **Monotone slant threshold.** A reader might expect that raising
  `slantThreshold` never removes a span from a group. The greedy grouping
  (`main.js` lines 143-160) does not behave that way:
  `Grouping.SlantThresholdNotMonotone` shows one bucket of three spans where
  0.12 groups the second and third span, while 0.18 groups the first and
  second and leaves the third alone.

## Model

| member | source | states |
|---|---|---|
| Text.Lower | rhyme-analyzer/main.js:94 | lower-casing keeps the length, maps each upper-case ASCII letter to its lower-case letter, keeps every other character, and leaves no upper-case letter |
| Text.Lines | rhyme-analyzer/main.js:110 | `split(/\n/)` yields at least one piece and no piece holds a line feed |
| Text.JoinLines | rhyme-analyzer/main.js:110 | joining the pieces with line feeds gives back the text: splitting loses nothing |
| Text.LinesJoin | rhyme-analyzer/main.js:110 | splitting the join of line-feed-free pieces gives back those pieces |
| Text.Trim | rhyme-analyzer/main-simple.js:15 | `trim` gives "" exactly for a blank line; otherwise the result neither starts nor ends with white space |
| Text.RemoveSpaces | rhyme-analyzer/main.js:85 | removing white space leaves no white-space character and never lengthens the string |
| Text.RemoveSpacesAppend | rhyme-analyzer/main.js:85 | removing white space distributes over concatenation |
| Phones.StripStress | rhyme-analyzer/main.js:36 | the result is the phone less one last character, removed exactly when that character is a stress digit 0–2 |
| Phones.VowelPhoneOfStripped | rhyme-analyzer/main.js:37 | stripping the stress first never changes whether a phone is a vowel phone |
| Phones.LastVowel | rhyme-analyzer/main.js:41 | the index found is a vowel phone with no vowel phone after it, or -1 |
| Phones.NucleusCodaOf | rhyme-analyzer/main.js:39-46 | the nucleus is empty exactly when no phone is a vowel; otherwise it is the last vowel phone stress-stripped and the coda is the stripped phones after it; without a vowel the coda is the last two phones stripped; the coda holds no vowel phone |
| Phones.PhonesToNucleusCoda | rhyme-analyzer/main.js:39-46 | the backward search loop returns the nucleus and coda that `NucleusCodaOf` specifies |
| Distance.NucleusDist | rhyme-analyzer/main.js:56-61 | the distance is 0, 0.25 or 1: 0 exactly for the same vowel class, 0.25 exactly for different classes of one family |
| Distance.NucleusDistSymmetric | rhyme-analyzer/main.js:56-61 | the nucleus distance does not depend on the order of its arguments |
| Distance.Eq | rhyme-analyzer/main.js:63 | the equivalence table maps a phone to "" exactly when the phone is "" |
| Distance.CodaDistance | rhyme-analyzer/main.js:62-73 | the loop over the last three positions returns the share of mismatches among compared positions, or 0.6 |
| Distance.CodaDistSymmetric | rhyme-analyzer/main.js:62-73 | the coda distance does not depend on the order of its arguments |
| Distance.CodaDistRange | rhyme-analyzer/main.js:62-73 | every coda distance is the neutral 0.6 or lies between 0 and 1 |
| Distance.CodaDistExact | rhyme-analyzer/main.js:62-73 | for phones that are not "", the distance is 0.6 exactly when both codas are empty, and otherwise the mismatches over the last min(3, longer length) positions divided by that number |
| Distance.CodaDistSelf | rhyme-analyzer/main.js:62-73 | a coda is 0 away from itself unless none of its last three positions holds a phone, and then it is 0.6 away; with non-empty phones that happens exactly for the empty coda |
| Distance.NoSelfComparison | rhyme-analyzer/main.js:66-71 | comparing a coda with itself counts no position exactly when every position looked at is "" or past the start |
| Distance.RhymeDistance | rhyme-analyzer/main.js:74 | the method computes 0.7 times the nucleus distance plus 0.3 times the coda distance |
| Distance.RhymeDistRange | rhyme-analyzer/main.js:74 | every rhyme distance lies between 0 and 1 |
| Distance.RhymeDistSymmetric | rhyme-analyzer/main.js:74 | the rhyme distance does not depend on the order of its arguments |
| Distance.RhymeDistSelf | rhyme-analyzer/main.js:74 | for every tail, its distance to itself is 0.18 when none of the last three coda positions holds a phone and 0 otherwise, and with non-empty phones it is 0.18 exactly when the coda is empty |
| Heuristic.DigraphPass | rhyme-analyzer/main.js:82 | every phone pushed is the pass's phone, and each match turns two letters into one space |
| Heuristic.VowelPass | rhyme-analyzer/main.js:83 | the pass keeps the length, leaves no vowel letter, and pushes only vowel phones |
| Heuristic.FinalYPass | rhyme-analyzer/main.js:84 | the pass keeps the length and pushes only `IY1` |
| Heuristic.ConsonantPhones | rhyme-analyzer/main.js:85-88 | the consonant loop pushes only phones of the consonant table |
| Heuristic.DigraphPasses | rhyme-analyzer/main.js:81-82 | the digraph passes push only vowel phones |
| Heuristic.VowelStages | rhyme-analyzer/main.js:81-84 | all vowel passes together push only vowel phones |
| Heuristic.Heuristic | rhyme-analyzer/main.js:89 | the heuristic never returns an empty phone list |
| Heuristic.VowelPhoneSetShape | rhyme-analyzer/main.js:81-83 | every phone the vowel passes push is a well-formed vowel phone |
| Heuristic.ConsonantPhoneSetShape | rhyme-analyzer/main.js:86 | every phone of the consonant table is well formed, carries no stress and is not a vowel phone |
| Heuristic.NeutralShape | rhyme-analyzer/main.js:89 | the fallback `AH0` is a vowel phone whose stripped form is `AH` |
| Heuristic.HeuristicShape | rhyme-analyzer/main.js:77-90 | the result is the vowel phones followed by the consonant phones, or `AH0` when both are empty; the first are vowel phones, the second stress-free non-vowels |
| Heuristic.HeuristicTail | rhyme-analyzer/main.js:77-90 | for a heuristic word the nucleus is the last vowel phone pushed and the coda is every consonant phone; without vowel phones the coda is the last two consonants; a word with no phones rhymes as `AH` |
| Heuristic.ReplaceDigraphs | rhyme-analyzer/main.js:82 | the replace loop yields the text and the pushed phones of `DigraphPass` |
| Heuristic.ReplaceVowels | rhyme-analyzer/main.js:83 | the replace loop yields the text and the pushed phones of `VowelPass` |
| Heuristic.ReplaceFinalY | rhyme-analyzer/main.js:84 | the replace loop yields the text and the pushed phones of `FinalYPass` |
| Heuristic.ApplyDigraphs | rhyme-analyzer/main.js:81-82 | the loop over the digraph table yields `DigraphPasses` over all seven entries |
| Heuristic.PushConsonants | rhyme-analyzer/main.js:85-88 | the character loop appends exactly `ConsonantPhones` of the remaining letters |
| Heuristic.HeuristicPhones | rhyme-analyzer/main.js:77-90 | `heuristicPhones` returns `Heuristic(word)` |
| Tokenizer.RunLength | rhyme-analyzer/main.js:112 | a greedy `+` takes the longest prefix of one run kind: every character up to it is of the kind and the next one is not |
| Tokenizer.Parts | rhyme-analyzer/main.js:112 | every part is non-empty and all of one run kind |
| Tokenizer.PartsCover | rhyme-analyzer/main.js:112 | the parts, concatenated, are the line without its white space |
| Tokenizer.KeepChars | rhyme-analyzer/main.js:94 | only letters, apostrophes and hyphens survive, every kept character of the input appears in the result and every character of the result comes from the input, and no upper-case letter appears that was not there |
| Tokenizer.KeepCharsAppend | rhyme-analyzer/main.js:94 | the character filter distributes over concatenation, so the result is the kept characters in their original order |
| Tokenizer.WordPartClean | rhyme-analyzer/main.js:94 | a `[A-Za-z']+` part cleans to lower-case letters and apostrophes only, with no hyphen |
| Tokenizer.DropLeadingApostrophes | rhyme-analyzer/main.js:94 | the result is a suffix; what was cut is apostrophes, and the result does not start with one |
| Tokenizer.DropTrailingApostrophes | rhyme-analyzer/main.js:94 | the result is a prefix; what was cut is apostrophes, and the result does not end with one |
| Tokenizer.CleanWord | rhyme-analyzer/main.js:94 | a cleaned word holds only lower-case letters, apostrophes and hyphens, and has no apostrophe at either end |
| Tokenizer.CleanOfClean | rhyme-analyzer/main.js:94 | a clean word is its own cleaning |
| Tokenizer.CleanWordIdempotent | rhyme-analyzer/main.js:94 | cleaning twice is cleaning once, so a cached key cleans to itself |
| Tokenizer.CleanWordOfLetters | rhyme-analyzer/main.js:94 | a word of letters cleans to its lower-case form |
| Tokenizer.TokensShape | rhyme-analyzer/main.js:109-122 | tokens come by line and then by part; each one is a word part of its line whose cleaning is non-empty, and its word is clean and holds only lower-case letters and apostrophes |
| Tokenizer.TokensOfWord | rhyme-analyzer/main.js:109-122 | a text that is one word part yields exactly one token, on line 0 at part 0, unless it cleans to "" |
| Tokenizer.LineEndIsLastOfLine | rhyme-analyzer/main.js:101-108 | on ordered tokens, the next-token test holds exactly when no later token is on the same line |
| Grouping.KeyOrder | rhyme-analyzer/main.js:135-139 | the bucket map iterates over each key that occurs, once each |
| Grouping.IndicesOf | rhyme-analyzer/main.js:135-139 | a bucket holds exactly the span positions with its key, ascending |
| Grouping.BucketLists | rhyme-analyzer/main.js:150 | the buckets come in the map's key order, each holding the positions of its key |
| Grouping.BucketsPartition | rhyme-analyzer/main.js:135-139 | no bucket is empty and no position lies in two buckets |
| Grouping.Buckets | rhyme-analyzer/main.js:135-139 | the loop fills a map whose keys are the keys in order of first appearance and whose bucket for each key is its ascending positions |
| Grouping.SplitMembers | rhyme-analyzer/main.js:154-157 | the members an anchor takes are exactly those that join it, the members it leaves are exactly those that do not, and both keep ascending order |
| Grouping.GreedyShape | rhyme-analyzer/main.js:150-161 | every group of a bucket has at least two members, ascending, each joining the anchor; groups are drawn from the bucket and share no member |
| Grouping.GroupsShape | rhyme-analyzer/main.js:150-161 | over all buckets, groups are well formed, all members of a group share the anchor's key, and no position is in two groups |
| Grouping.GreedyAllJoin | rhyme-analyzer/main.js:150-161 | when the anchor joins every other member, the bucket becomes one group, kept only with a second member |
| Grouping.GreedyNoJoin | rhyme-analyzer/main.js:150-161 | when nothing joins, a bucket yields no group |
| Grouping.AllGroupsAllJoin | rhyme-analyzer/main.js:150-161 | when each anchor joins its whole bucket, the groups are exactly the buckets with two or more members |
| Grouping.AllGroupsNoJoin | rhyme-analyzer/main.js:150-161 | when nothing joins, a pass yields no group |
| Grouping.TryJoin | rhyme-analyzer/main.js:143-149 | `tryJoin` holds exactly when the rhyme distance is within the perfect threshold for two line ends, and within the slant threshold otherwise |
| Grouping.RhymeJoinSymmetric | rhyme-analyzer/main.js:143-149 | whether two spans join does not depend on which of them is the anchor |
| Grouping.Collect | rhyme-analyzer/main.js:154-157 | the inner loop collects the anchor and every later unflagged member that joins it, flags exactly those, and leaves earlier flags alone |
| Grouping.GreedyBucket | rhyme-analyzer/main.js:151-160 | the anchor loop over one bucket, with either flag policy, yields the groups of `Greedy` |
| Grouping.GroupAll | rhyme-analyzer/main.js:135-161 | a whole pass yields the greedy groups of every bucket, bucket after bucket in key order |
| Grouping.RhymeKeys | rhyme-analyzer/main.js:137 | the rhyme keys are the spans' bucket keys, in span order |
| Grouping.VowelKeys | rhyme-analyzer/main.js:168 | the assonance keys are the spans' nuclei (or `_`), in span order |
| Grouping.SlantThresholdNotMonotone | rhyme-analyzer/main.js:143-160 | with one bucket of three spans, slant 0.12 groups spans 1 and 2, and slant 0.18 groups spans 0 and 1 instead |
| Scheme.MarkGroupShape | rhyme-analyzer/main.js:192-195 | visiting a group sets each line that a member ends to that group and leaves other lines as they were |
| Scheme.LineFinalShape | rhyme-analyzer/main.js:191-196 | for disjoint groups and one end per line, a line has an entry exactly when a group member ends it, and the entry is that member's group |
| Scheme.LineFinalGroups | rhyme-analyzer/main.js:189-196 | the nested loop builds the map `LineFinal` specifies |
| Scheme.LineCount | rhyme-analyzer/main.js:197 | the line count is 0 for no spans and otherwise one more than the largest span line |
| Scheme.LetterKeys | rhyme-analyzer/main.js:199-206 | the groups lettered after n lines are those seen on them, and the next code has advanced once per group |
| Scheme.LetterCodes | rhyme-analyzer/main.js:203 | codes handed out are distinct and run from `A` up to the next code |
| Scheme.LetterGrows | rhyme-analyzer/main.js:199-206 | later lines only append entries and add letters; earlier entries and letters stay |
| Scheme.LetterOfLine | rhyme-analyzer/main.js:200-204 | a line without a final group gets `-`; otherwise it gets its group's letter, and a group first met there gets the next code |
| Scheme.SeenBound | rhyme-analyzer/main.js:199-206 | at most one new group is met per line |
| Scheme.SchemeLetters | rhyme-analyzer/main.js:199-206 | up to 65471 lines, an entry is `-` exactly when the line has no final group, and two lettered lines share a letter exactly when they share the group |
| Scheme.SchemeFirstAppearance | rhyme-analyzer/main.js:203 | the line where a group first appears gets the code after those of the groups seen before it |
| Scheme.SchemeDash | rhyme-analyzer/main.js:188-206 | a line's entry is `-` exactly when no group member ends it |
| Scheme.SchemeSameGroup | rhyme-analyzer/main.js:188-206 | two lines ended by group members share a letter exactly when the members share a group |
| Scheme.SchemeShape | rhyme-analyzer/main.js:188-206 | the scheme has one entry per line up to the last span line, with the dash and shared-letter properties above |
| Scheme.SchemeOf | rhyme-analyzer/main.js:198-206 | the letter loop writes the scheme `Letter` specifies |
| Analyzer.ArpaProperty | rhyme-analyzer/main.js:98 | reading the table gives an own value exactly for its keys, and an inherited value exactly for other names `Object.prototype` provides |
| Analyzer.LookupAsWritten | rhyme-analyzer/main.js:98-99 | the lookup as written throws exactly for an inherited property name |
| Analyzer.ConstructorThrows | rhyme-analyzer/main.js:98-99 | the text "Constructor" yields the token "constructor", and the lookup as written throws on it |
| Analyzer.Resolve | rhyme-analyzer/main.js:98 | the corrected lookup always yields a non-empty phone list |
| Analyzer.ResolveAgrees | rhyme-analyzer/main.js:98 | wherever the lookup as written answers, the corrected lookup gives the same phones |
| Analyzer.WordToPhonesAsWritten | rhyme-analyzer/main.js:95-100 | `wordToPhones` as written keeps every cached entry, adds the cleaned word as a key when it is not empty and nothing else, and leaves the cache alone for a word that cleans to "" |
| Analyzer.Hit | rhyme-analyzer/main.js:97 | a cache hit as written throws exactly when the entry is the cached inherited value |
| Analyzer.Miss | rhyme-analyzer/main.js:98-99 | a cache miss as written stores the key, keeps every other entry, and throws exactly when the table value is inherited, which is then what the cache holds for the key |
| Analyzer.AsWrittenThrows | rhyme-analyzer/main.js:95-100 | the lookup as written throws exactly for a non-empty key that is cached as the inherited value, or is not cached and names an inherited property |
| Analyzer.ThrowPersists | rhyme-analyzer/main.js:97-99 | after a lookup as written has thrown, every later lookup of a word with the same cleaning throws as well |
| Analyzer.ConstructorPoisonsCache | rhyme-analyzer/main.js:95-100 | on a fresh analyzer, looking up "Constructor" as written throws, and so does every later lookup of a word that cleans to "constructor" |
| Analyzer.WordToPhonesAgrees | rhyme-analyzer/main.js:95-100 | from a cache that holds only resolved phones, the lookup as written of any word whose cleaning is not an inherited name gives the corrected phones `PhonesOf(w)` and keeps the cache resolved |
| Analyzer.PhonesOfEmpty | rhyme-analyzer/main.js:95-100 | `wordToPhones` gives `[]` exactly for a word that cleans to "", and otherwise the resolved phones of its key |
| Analyzer.SpanAt | rhyme-analyzer/main.js:127-132 | a span carries its token's index, line and word, the tail of the word's phones, the key of that tail, and the next-token line-end test |
| Analyzer.Kept | rhyme-analyzer/main.js:126-128 | the kept token indices lie below the number of tokens looked at |
| Analyzer.KeptShape | rhyme-analyzer/main.js:126-128 | kept indices ascend, are never stopwords under the settings, and include every token that is not a stopword |
| Analyzer.SpansOf | rhyme-analyzer/main.js:126-133 | there is one span per kept token |
| Analyzer.SpansShape | rhyme-analyzer/main.js:126-133 | spans follow token order, each is `SpanAt` of a token that is not skipped, and every token that is not skipped has a span |
| Analyzer.SpansOneEndPerLine | rhyme-analyzer/main.js:101-108 | on the tokens of a text, no two spans end the same line |
| Analyzer.CacheHit | rhyme-analyzer/main.js:97 | a cached entry is the resolved phones of its key |
| Analyzer.CacheStore | rhyme-analyzer/main.js:99 | storing resolved phones under a non-empty key keeps every cache entry correct |
| Analyzer.ResolvePhones | rhyme-analyzer/main.js:98 | on a cache miss the lookup yields the corrected `Resolve` phones |
| Analyzer.RhymeAnalyzer.constructor | rhyme-analyzer/main.js:93 | a new analyzer holds its settings and an empty cache |
| Analyzer.RhymeAnalyzer.WordToPhones | rhyme-analyzer/main.js:95-100 | returns the phones of the cleaned word and leaves the cache correct, with the key's resolved phones added when the key is not empty |
| Analyzer.RhymeAnalyzer.Tokenize | rhyme-analyzer/main.js:109-122 | the line loop yields the tokens `Tokens` specifies |
| Analyzer.RhymeAnalyzer.PushWords | rhyme-analyzer/main.js:113-119 | the part loop appends the tokens of one line |
| Analyzer.RhymeAnalyzer.PushPart | rhyme-analyzer/main.js:114-118 | one part is appended, cleaned, exactly when it is a word part whose cleaning is non-empty |
| Analyzer.RhymeAnalyzer.Spans | rhyme-analyzer/main.js:124-133 | the span loop yields `SpansOf` the tokens, keeps the cache correct, and its new keys are the old keys plus the non-empty cleaning of every token that is not skipped |
| Analyzer.RhymeAnalyzer.Visit | rhyme-analyzer/main.js:126-132 | one round of the span loop extends the spans of the tokens before it to `SpansOf` one more token, and adds to the cache keys only the non-empty cleaning of a token that is not skipped |
| Analyzer.RhymeAnalyzer.LookUpSpan | rhyme-analyzer/main.js:128-132 | the span built for a token that is not skipped is `SpanAt` that token, and the cache gains at most the token's non-empty cleaning as a key |
| Analyzer.RhymeAnalyzer.Analyze | rhyme-analyzer/main.js:123-209 | `analyze` returns `AnalysisOf` its text under the analyzer's settings, keeps the cache correct, never drops a cache key, and adds exactly the non-empty cleanings of the tokens that are not skipped |
| Analyzer.RhymePass | rhyme-analyzer/main.js:141-161 | the rhyme pass yields the greedy groups of the rhyme buckets |
| Analyzer.AssonancePass | rhyme-analyzer/main.js:163-186 | the assonance pass yields the greedy clusters of the nucleus buckets when enabled, and none otherwise |
| Analyzer.SchemePass | rhyme-analyzer/main.js:188-206 | the scheme step writes the letters of the line-final groups up to the line count |
| Analyzer.RhymeGroupsShape | rhyme-analyzer/main.js:141-161 | rhyme groups are disjoint; each has at least two ascending members sharing the first member's bucket key, each within the perfect threshold of it for two line ends and within the slant threshold otherwise |
| Analyzer.GroupIndices | rhyme-analyzer/main.js:141-161 | every group member is a span index |
| Analyzer.AssonanceShape | rhyme-analyzer/main.js:163-186 | there are no clusters when assonance is off; clusters are disjoint, at least two ascending members share the first one's nucleus, and each is within the threshold of it |
| Analyzer.ClustersShape | rhyme-analyzer/main.js:172-185 | the clusters of a pass with threshold `th` have the shape above |
| Analyzer.SameNucleusKey | rhyme-analyzer/main.js:180 | inside an assonance bucket the nucleus distance is 0 |
| Analyzer.AssonanceWholeBuckets | rhyme-analyzer/main.js:163-186 | with a threshold of at least 0, the clusters are exactly the nucleus buckets of two or more spans |
| Analyzer.AssonanceNegative | rhyme-analyzer/main.js:163-186 | with a negative threshold there are no clusters |
| Analyzer.SpansProper | rhyme-analyzer/main.js:130 | every span's nucleus is empty or one phone of at least two characters |
| Analyzer.AnalysisAssonance | rhyme-analyzer/main.js:123-186 | on any text with a threshold of at least 0, the assonance clusters are the nucleus buckets with two or more spans |
| Analyzer.AnalysisFacts | rhyme-analyzer/main.js:123-206 | on any text the rhyme groups are disjoint, no two spans end one line, and the scheme is the letter loop over the line-final groups |
| Analyzer.AnalysisScheme | rhyme-analyzer/main.js:188-206 | on any text the scheme has one entry per line up to the last span line; an entry is `-` exactly when no grouped span ends the line; two lines share a letter exactly when their line-final spans share a group |
| Simple.TrimmedLines | rhyme-analyzer/main-simple.js:15 | the trimmed, filtered lines are never empty and never outnumber the lines |
| Simple.BlankFree | rhyme-analyzer/main-simple.js:15 | the kept line indices are exactly those of the lines that are not blank |
| Simple.TrimmedLinesCount | rhyme-analyzer/main-simple.js:15 | there is one trimmed line per line that is not blank |
| Simple.TrailingRun | rhyme-analyzer/main-simple.js:16 | the run is the longest suffix of `[A-Za-z']` characters |
| Simple.LastRunEnd | rhyme-analyzer/main-simple.js:16 | the position found ends a `[A-Za-z']` character, and no such character follows it |
| Simple.LastMatchShape | rhyme-analyzer/main-simple.js:16 | the last match is a maximal run of `[A-Za-z']` with none after it, and is "" exactly when the line has no such character |
| Simple.EndWordChars | rhyme-analyzer/main-simple.js:16 | an end word holds only `[a-z']` |
| Simple.EndWords | rhyme-analyzer/main-simple.js:16 | there is one end word per trimmed line |
| Simple.UnitStartsVowel | rhyme-analyzer/main-simple.js:18 | an alternative of the `classOf` pattern starts at a position exactly when a vowel letter is there |
| Simple.DigraphClass | rhyme-analyzer/main-simple.js:21 | the digraph table has an entry exactly for the two-letter alternatives of the pattern |
| Simple.LetterClass | rhyme-analyzer/main-simple.js:22 | the letter table has an entry exactly for the letters `[aeiouy]` |
| Simple.LastVowelLetter | rhyme-analyzer/main-simple.js:18 | the index found is a vowel letter with none after it, or -1 |
| Simple.NoUnitAfterLast | rhyme-analyzer/main-simple.js:18 | the lookahead holds after the last vowel letter and fails at or before it |
| Simple.UnitFromSkips | rhyme-analyzer/main-simple.js:18 | the leftmost match is the one at the start of the last vowel unit |
| Simple.UnitAtStart | rhyme-analyzer/main-simple.js:18 | the matched unit is the digraph ending at the last vowel letter, else `ow`, else that letter alone |
| Simple.NoUnitAnywhere | rhyme-analyzer/main-simple.js:18-19 | a word without vowel letters has no match |
| Simple.ClassOfLastVowel | rhyme-analyzer/main-simple.js:17-23 | `classOf` is `_` without a vowel letter; otherwise it is the digraph class of the letter before the last vowel letter and that letter, else `OW` for an `o` before `w`, else the letter's class |
| Simple.LastChars | rhyme-analyzer/main-simple.js:26 | `slice(-k)` gives the last k characters, or all of a shorter string |
| Simple.CodStart | rhyme-analyzer/main-simple.js:25 | the backtracking search returns no position after where it started |
| Simple.CodStartSpec | rhyme-analyzer/main-simple.js:25 | the search finds the last vowel letter followed only by `[a-z']`, or none |
| Simple.CodShape | rhyme-analyzer/main-simple.js:24-27 | `cod` has at most two characters, each from `[a-z']` and none a vowel letter |
| Simple.CodOfLastVowel | rhyme-analyzer/main-simple.js:24-27 | on an end word, `cod` is the last two characters after the last vowel letter, and "" without one |
| Simple.KeysOf | rhyme-analyzer/main-simple.js:32 | there is one key per end word: its class and its `cod` |
| Simple.KeyOfValid | rhyme-analyzer/main-simple.js:24-27 | every key has a tail of at most two `[a-z']` characters |
| Simple.KeyCodeRoundTrip | rhyme-analyzer/main-simple.js:32 | numbering the keys loses nothing: a valid key is recovered from its number |
| Simple.KeyCount | rhyme-analyzer/main-simple.js:37 | there are at most 8624 distinct keys |
| Simple.Order | rhyme-analyzer/main-simple.js:28-38 | the keys in order of first appearance are distinct and are exactly the keys that occur |
| Simple.IndexOf | rhyme-analyzer/main-simple.js:37 | the position found holds the key, and no earlier one does |
| Simple.Labels | rhyme-analyzer/main-simple.js:28-39 | there is one letter per line: the letter of its key |
| Simple.OrderPrefix | rhyme-analyzer/main-simple.js:29-38 | the key order of the first lines is a prefix of the whole key order |
| Simple.FirstAppearance | rhyme-analyzer/main-simple.js:37 | a line whose key is new gets the letter after all letters handed out before it |
| Simple.LabelRange | rhyme-analyzer/main-simple.js:37 | letters never wrap: each is `A` plus its key's rank, below `A` plus 8624 |
| Simple.SameLabelIffSameKey | rhyme-analyzer/main-simple.js:31-34 | two lines get the same letter exactly when their keys agree |
| Simple.SameLetterIffSameClassAndCod | rhyme-analyzer/main-simple.js:32-34 | two lines get the same letter exactly when their end words agree in `classOf` and in `cod` |
| Simple.LetterlessLinesShare | rhyme-analyzer/main-simple.js:16 | non-blank lines without letters or apostrophes all get one letter |
| Simple.LabelNotDash | rhyme-analyzer/main-simple.js:30-37 | no line is left with `-`: every letter lies between `A` and `A` plus 8623 |
| Simple.LettersInOrder | rhyme-analyzer/main-simple.js:28-37 | the first line gets `A`, and a line with a new key gets the next unused letter |
| Simple.OrderCount | rhyme-analyzer/main-simple.js:37 | the number of keys seen grows by one exactly at a first appearance |
| Simple.EarlierLetter | rhyme-analyzer/main-simple.js:30-36 | the inner loop returns `-` exactly when no earlier line has the same key, and otherwise the letter of the line's key |
| Simple.LabelledNew | rhyme-analyzer/main-simple.js:37-38 | a line whose key has not appeared before gets the letter at `nxt`, which is the letter `LabelOf` gives it, and one round of the loop keeps the letters, the recorded letters and `nxt` (now one higher) in step |
| Simple.LabelledSeen | rhyme-analyzer/main-simple.js:31-38 | a line whose key appeared before gets that key's letter, and one round of the loop keeps the letters, the recorded letters and `nxt` unchanged in step |
| Simple.Label | rhyme-analyzer/main-simple.js:28-39 | the labelling loop returns the letters `Labels` specifies |
| Simple.Scheme | rhyme-analyzer/main-simple.js:14-41 | `scheme` returns `SchemeOf` its text, with one letter per line that is not blank |

## Left out

- The plugin around the engine is not part of this model: the results view,
  the settings tab, commands, the ribbon icon, JSON export, debounced
  analysis while typing, and `run`/`onload` of the simple variant. That code
  is I/O and presentation.
- `Settings.autoAnalyzeOnType`: carried in the settings but not used, because
  only the host plugin reads it.
- `Analyzer.RhymeAnalyzer.WordToPhones`: follows the corrected table lookup
  `Resolve`, not the lookup as written. For a word that cleans to
  "constructor" the source throws a TypeError and caches the inherited value,
  and the method returns heuristic phones instead. The lookup as written is
  modelled on values by `Analyzer.WordToPhonesAsWritten`, and
  `Analyzer.WordToPhonesAgrees` shows the two agree on every other word.
- `Analyzer.RhymeAnalyzer.Analyze`: follows the corrected lookup through
  `WordToPhones`, so on a text holding "Constructor" it returns an analysis
  where the source throws, and it does not carry the poisoned cache into
  later calls (`Analyzer.ConstructorPoisonsCache` states that behaviour).
- `lineText`: not modelled. `analyze` fills this map (`main.js` lines 189
  and 194) but never returns or reads it.
- Floating point: distances are exact reals, and the source computes them in
  double precision. Where a sum lands exactly on a threshold, rounding could
  decide a comparison differently from the model. The blank-coda self
  distance is not such a case: `0.7*0 + 0.3*0.6` rounds to the same double
  as the literal 0.18, so it meets the default perfect threshold in both.
- `Text.Lower`: lowers ASCII letters only, unlike JavaScript's full Unicode
  `toLowerCase`. Every string it is applied to in the engine is ASCII by the
  time it matters, because the word regexes admit only `[A-Za-z']`.
- `Text.IsSpace`: covers the characters of JavaScript's `\s` as listed in
  ECMAScript's WhiteSpace and LineTerminator productions. It uses a fixed
  list, not the Unicode Space_Separator category.
- `Grouping.GreedyBucket`: the rhyme pass's span-wide `groupOf` array and the
  assonance pass's `used` array are modelled as one flag per bucket position.
  Only the flags of the bucket being processed are ever read. The group index
  that `groupOf` stores is not modelled: the property "`groupOf[s] == g`
  exactly when `s` is in group `g`" is not stated. Disjointness of the groups
  is proved instead (`Grouping.GroupsShape`).
- `Grouping.TryJoin`: proved equal to the join predicate `RhymeJoin`. The
  passes are given `RhymeJoin` as a function value, so the loop does not call
  the method itself.
- `Scheme.SchemeLetters`: stated only up to 65471 lines, and the same
  restriction applies to `Scheme.SchemeFirstAppearance`, `Scheme.SchemeDash`,
  `Scheme.SchemeSameGroup` and the letter clauses of `SchemeMarks`. Beyond
  that count `String.fromCharCode` wraps around 16 bits and two groups can
  share a letter. The wrap-around itself is modelled (`Text.FromCharCode`).
- `Simple.CodOfLastVowel`: stated only for words of `[a-z']`, which is every
  end word (`Simple.EndWordChars`). `Simple.CodShape` holds for all words.
- The regex `.` in the `classOf` lookahead (`Simple.NoUnitFrom`) and in the
  `cod` pattern (`Simple.CodStart`) is read as "any character". This is
  exact for end words, which contain no line terminators.
- `Distance.CodaDistExact`: stated for phones that are not "". Every phone
  the tables and the heuristic produce is non-empty.
- `Analyzer.AssonanceWholeBuckets`: stated for spans with proper nuclei,
  which every span of a text has (`Analyzer.SpansProper`).
- The `CUSTOM_ARPA`, `STOPWORDS` and classification tables are modelled as
  constant maps, sets and functions. The other object-literal lookups are
  keyed by a single character (`main.js` lines 86-87, `'` included), a phone
  (`FAM` at line 51, the `eq` table at line 63), `''` (the `eq` table past
  the start of a coda, line 68), a vowel unit (`main-simple.js` lines 21-22)
  or a line index (`labels`, `main-simple.js` lines 33-37). None of these is
  a name inherited from `Object.prototype`, so those lookups are modelled as
  plain maps.

## Findings

| source | as written | input that shows it | evidently intended | confidence | as-written member | corrected member |
|---|---|---|---|---|---|---|
| rhyme-analyzer/main.js:98 | `CUSTOM_ARPA[key]` reads a plain object literal, so a cleaned word that names an `Object.prototype` property gets the inherited value. For "constructor" that value is a function: it is truthy, so the heuristic is skipped, and `ph.slice()` throws a TypeError. The function is cached first, so every later lookup of the word throws at `c.slice()` (line 97) as well. | a line containing the word "Constructor" | only the table's own keys override the heuristic, so "constructor" gets heuristic phones | not executed | Analyzer.ConstructorPoisonsCache | Analyzer.WordToPhonesAgrees |
