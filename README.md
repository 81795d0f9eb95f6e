# DreamSense dream interpreter — a Dafny model of its symbol retrieval

DreamSense interprets dreams. The user types a dream. The backend looks up
the symbols the dream mentions in a dream dictionary and hands them to a
language model as context. It then cleans up what the model wrote, and
returns the interpretation together with the symbols it used. When the
backend cannot be reached, the web client falls back to a small built-in
dictionary and writes a reply of its own.

This project models that logic and proves what it promises. It has four
modules:

- `Strings` (`strings.dfy`): the text primitives the code relies on.
  - ASCII case folding, substring search, and the first-occurrence search
    that `split` performs.
  - Python's `str.strip()` and `str.split(sep)[1]`.
  - The `\b\w+\b` word tokenizer.
- `RagUtils` (`rag_utils.dfy`): the retrieval class `DreamDictionaryRAG`
  from `backend/rag_utils.py`.
  - Direct term lookup.
  - Keyword extraction, with its direct-match branch and its n-gram fallback.
  - The top-k/threshold selection of vector retrieval.
  - `generate_context`: source choice, deduplication by term, stable sort by
    score, the cap of five and the rendered context block.
  - The class keeps its dictionary and its fitted vector index as constant
    fields. Each loop is a method proved equal to a specification function,
    and the methods that compose those loops are proved equal to the
    composition of their functions. Lemmas state the properties of those
    functions.
- `DreamSense` (`dream_sense.dfy`): the client fallback in
  `frontend/src/DreamSense.tsx`.
  - `findRelevantSymbols` matches by crude stemming.
  - `generateDreamInterpretation` assembles the reply.
  - The built-in `dreamDictionary` constant.
- `Interpret` (`interpret.dfy`): the response shaping inside `interpret_dream`
  in `backend/main.py`.
  - The context lookup, and its no-dictionary variant.
  - Cutting the interpretation out of the generated text.
  - Prepending the symbol list when the text mentions none of the top symbols.
  - Truncating each symbol's meaning to 100 characters plus "...".

The vector index (TF-IDF with cosine similarity) is a parameter of the class.
It is a function from a query to a `Similarity`: one score per dictionary row,
plus the ascending argsort of those scores as numpy would produce it. The
language model's output is likewise a parameter of `Interpret.InterpretDream`.

Some behaviour of the code worth stating on its own:

- The context keeps at most 5 entries.
- Each block is labelled `Symbol: {term}`.
- The direct lookup keeps only whole-term substring matches, all scored 1.0.
- Keyword extraction returns dictionary `Term`s, never raw words of the
  text. With a direct match, it is the original `Term` for each occurring
  row. Otherwise it is, for each word, bigram or trigram of the text that is
  not skipped, the `Term` of the first row whose lowercase term contains it
  or is contained in it.
- `max_keywords` defaults to 10 and the text and keyword queries use `top_k`
  3 and 1.
- When any term occurs in the dream, those direct matches are the whole
  result and vector retrieval is skipped.
- An empty dream over a dictionary without empty terms produces the bare
  header `Dream Dictionary References:\n\n` and no entries. The message
  "No relevant dream symbols found." appears only when an exception is
  raised (`RagUtils.EmptyDreamRendersHeaderOnly`).

## Model

| member | source | states |
|---|---|---|
| Strings.Lower | dream-interpreter/backend/rag_utils.py:68 | case folding keeps the length, leaves no upper-case letter, and agrees with the input at every position up to case |
| Strings.LowerIdempotent | dream-interpreter/backend/rag_utils.py:68 | lowering twice is lowering once |
| Strings.LowerAppend | dream-interpreter/backend/rag_utils.py:68 | lowering a concatenation lowers each part |
| Strings.IndexOf | dream-interpreter/backend/main.py:114-115 | -1 exactly when the pattern does not occur, otherwise the position of its first occurrence |
| Strings.SecondPiece | dream-interpreter/backend/main.py:115 | the piece `split(sep)[1]` returns contains no occurrence of the separator |
| Strings.SecondPieceBounds | dream-interpreter/backend/main.py:115 | that piece starts right after the first separator and ends at the first occurrence at or after its start, or at the end of the text when there is none |
| Strings.Strip | dream-interpreter/backend/main.py:115 | `strip()` returns a contiguous piece of the text, removes only whitespace, and leaves no whitespace at either end |
| Strings.WordsAreRuns | dream-interpreter/backend/rag_utils.py:71 | every word found is a non-empty run of word characters that occurs in the text |
| Strings.WordsRun | dream-interpreter/backend/rag_utils.py:71 | a maximal run of word characters at the front is the first word found, and the search continues after it |
| Strings.WordsNone | dream-interpreter/backend/rag_utils.py:71 | a text without word characters has no words |
| Strings.WordsAppend | dream-interpreter/backend/rag_utils.py:71 | when the first part does not end inside a word, the words of a concatenation are the words of each part in order |
| RagUtils.DreamDictionaryRAG.constructor | dream-interpreter/backend/rag_utils.py:15-22 | one entry per row, in row order, whose lowercase term is the case-folded term |
| RagUtils.DreamDictionaryRAG.DirectTermLookup | dream-interpreter/backend/rag_utils.py:111-126 | the loop returns exactly the direct matches of the lowercased text |
| RagUtils.DirectMatchesExactly | dream-interpreter/backend/rag_utils.py:116-126 | a row is returned iff its lowercase term occurs in the lowercased text; every hit is such a row scored 1.0; the result is empty iff no term occurs; there are no more hits than rows |
| RagUtils.DirectMatchesAppend | dream-interpreter/backend/rag_utils.py:116-124 | matches follow corpus order: the matches of a concatenation are the concatenated matches |
| RagUtils.FirstIndexWithLower | dream-interpreter/backend/rag_utils.py:82 | the row found is the first carrying the given lowercase term |
| RagUtils.MatchedTermsAreFirstRows | dream-interpreter/backend/rag_utils.py:78-83 | one matched term per occurring row, each the original `Term` of the first row with that lowercase form |
| RagUtils.MatchedTermsGrow | dream-interpreter/backend/rag_utils.py:78-83 | scanning further rows only appends matched terms |
| RagUtils.MatchedTermsInOrder | dream-interpreter/backend/rag_utils.py:78-83 | every occurring row contributes its first row's `Term`, at its own place in row order, so no occurring row is missed |
| RagUtils.DreamDictionaryRAG.MatchTerms | dream-interpreter/backend/rag_utils.py:78-83 | the loop over `Term_lower` collects exactly the specified matched terms |
| RagUtils.NoMatchedTerms | dream-interpreter/backend/rag_utils.py:78-86 | when no lowercase term occurs in the text, nothing is matched and the fallback runs |
| RagUtils.Bigrams | dream-interpreter/backend/rag_utils.py:72 | one bigram per adjacent pair of words: the i-th is word i, a space and word i+1 |
| RagUtils.PairTokens | dream-interpreter/backend/rag_utils.py:71-72 | two runs joined by a space split back into those two words |
| RagUtils.BigramsTokenize | dream-interpreter/backend/rag_utils.py:71-72 | each bigram of the words found splits back into its two adjacent words |
| RagUtils.Trigrams | dream-interpreter/backend/rag_utils.py:73 | one trigram per adjacent triple of words: the i-th is words i, i+1 and i+2 joined by spaces |
| RagUtils.TripleTokens | dream-interpreter/backend/rag_utils.py:71-73 | three runs joined by spaces split back into those three words |
| RagUtils.TrigramsTokenize | dream-interpreter/backend/rag_utils.py:71-73 | each trigram of the words found splits back into its three adjacent words |
| RagUtils.FirstRelatedIsFirst | dream-interpreter/backend/rag_utils.py:96-101 | no term is found iff no row relates to the candidate in either direction; otherwise the term is that of the first related row |
| RagUtils.DreamDictionaryRAG.FindRelated | dream-interpreter/backend/rag_utils.py:97-101 | the inner loop, with its `break`, yields the term of the first related row, or none |
| RagUtils.ScanBounded | dream-interpreter/backend/rag_utils.py:103-104 | the scan stops as soon as `max_keywords` keywords are collected |
| RagUtils.ScanOrigins | dream-interpreter/backend/rag_utils.py:91-101 | every collected keyword is the first related row's term for a candidate that is not skipped |
| RagUtils.RelatedTermsOrigins | dream-interpreter/backend/rag_utils.py:91-101 | every related term of the candidates is the first related row's term for some candidate that is not skipped |
| RagUtils.ScanTakesRelatedTerms | dream-interpreter/backend/rag_utils.py:90-104 | the scan collects the related terms in candidate order and stops at exactly `max_keywords`, missing none before that |
| RagUtils.DreamDictionaryRAG.ScanCandidates | dream-interpreter/backend/rag_utils.py:90-104 | the candidate loop, with `continue` for skipped candidates and `break` at `max_keywords`, collects exactly the specified keywords |
| RagUtils.DistinctIsSet | dream-interpreter/backend/rag_utils.py:106 | `list(set(...))` has no duplicates and the same members, and is no longer |
| RagUtils.KeywordsDirectBranch | dream-interpreter/backend/rag_utils.py:78-87 | when some term occurs in the text, the result is the first `max_keywords` matched terms and the fallback does not run |
| RagUtils.ScanZeroStopsEarly | dream-interpreter/backend/rag_utils.py:90-104 | with `max_keywords` 0 the length test ends the scan at the first candidate that is not skipped, so at most that candidate's related term is collected |
| RagUtils.ScanKeywordsComplete | dream-interpreter/backend/rag_utils.py:90-104 | with `max_keywords` at least 1 the scan collects exactly the first `max_keywords` related terms, in candidate order |
| RagUtils.ScanKeywords | dream-interpreter/backend/rag_utils.py:89-106 | for any candidate list, the deduplicated scan is duplicate-free, bounded by `max_keywords`, made of first related terms of unskipped candidates, and has the members of the first `max_keywords` related terms (at most one keyword when `max_keywords` is 0) |
| RagUtils.KeywordsFallback | dream-interpreter/backend/rag_utils.py:89-106 | without a direct match the keywords are distinct, at most `max_keywords` when that is at least 1, each comes from a candidate that is not skipped, and (for `max_keywords` at least 1) they are exactly the members of the first `max_keywords` related terms of the candidates; with `max_keywords` 0 there is at most one |
| RagUtils.DreamDictionaryRAG.ExtractKeywords | dream-interpreter/backend/rag_utils.py:64-109 | the loops with `continue` and `break` compute exactly the specified keywords |
| RagUtils.ReverseKeepsMembers | dream-interpreter/backend/rag_utils.py:46 | `[::-1]` keeps exactly the members of the argsort |
| RagUtils.CollectHitsFailureSticks | dream-interpreter/backend/rag_utils.py:50-62 | an index error part way through the loop makes the whole call fail, so it returns [] |
| RagUtils.CollectHitsSpec | dream-interpreter/backend/rag_utils.py:49-57 | kept hits are rows at the given indices scored above 0.01, no more than the indices; in index order they are non-increasing when the scores are |
| RagUtils.CollectHitsSources | dream-interpreter/backend/rag_utils.py:49-57 | each kept hit is the row at one of the indices, with that index's score, which is above 0.01 |
| RagUtils.CollectHitsOrdered | dream-interpreter/backend/rag_utils.py:49-57 | indices in non-increasing score order give hits in non-increasing score order |
| RagUtils.TopIndicesAreBest | dream-interpreter/backend/rag_utils.py:46 | for an argsort, the selected indices are `min(top_k, n)` in number (all n when `top_k` is 0), in non-increasing score order, and score at least as high as every index left out |
| RagUtils.RelevantEntriesSpec | dream-interpreter/backend/rag_utils.py:36-62 | at most `top_k` hits (for `top_k >= 1`), each a dictionary row with its own score above 0.01, in non-increasing score order |
| RagUtils.TopKZeroKeepsAll | dream-interpreter/backend/rag_utils.py:46 | with `top_k` 0 the slice `[-0:]` keeps every row, so every row scored above 0.01 is returned |
| RagUtils.CollectAllInRange | dream-interpreter/backend/rag_utils.py:49-57 | with valid indices no error arises and every selected row scored above 0.01 is returned |
| RagUtils.NoHitsBelowThreshold | dream-interpreter/backend/rag_utils.py:51 | when nothing scores above 0.01 no entry is returned |
| RagUtils.DreamDictionaryRAG.RetrieveRelevantEntries | dream-interpreter/backend/rag_utils.py:36-62 | the selection loop, with its early return on an index error, returns exactly the specified hits |
| RagUtils.DedupKeepsFirst | dream-interpreter/backend/rag_utils.py:154-161 | deduplication leaves pairwise distinct terms, the same set of terms, and for each term its first hit |
| RagUtils.DedupSameTerms | dream-interpreter/backend/rag_utils.py:154-161 | deduplication drops no term |
| RagUtils.DedupInOrder | dream-interpreter/backend/rag_utils.py:154-161 | each kept hit is the hit at the first position of its term, and those positions strictly increase along the result, so the kept hits stay in input order |
| RagUtils.Deduplicate | dream-interpreter/backend/rag_utils.py:155-161 | the loop with its `seen_terms` set computes that deduplication |
| RagUtils.InsertByScoreElements | dream-interpreter/backend/rag_utils.py:164 | one insertion step of the sort loses and adds nothing |
| RagUtils.InsertByScoreOrdered | dream-interpreter/backend/rag_utils.py:164 | one insertion step keeps the list in non-increasing score order |
| RagUtils.InsertByScoreDistinct | dream-interpreter/backend/rag_utils.py:164 | one insertion step keeps terms distinct |
| RagUtils.InsertByScoreStable | dream-interpreter/backend/rag_utils.py:164 | one insertion step keeps the relative order of hits with equal score |
| RagUtils.SortByScorePermutes | dream-interpreter/backend/rag_utils.py:164 | the sort is a permutation of its input |
| RagUtils.SortByScoreOrdered | dream-interpreter/backend/rag_utils.py:164 | the sort leaves scores in non-increasing order |
| RagUtils.SortByScoreStable | dream-interpreter/backend/rag_utils.py:164 | for every score, the hits with that score keep their input order |
| RagUtils.SortByScoreDistinct | dream-interpreter/backend/rag_utils.py:164 | distinct terms stay distinct |
| RagUtils.SortByScoreSpec | dream-interpreter/backend/rag_utils.py:164 | the descending sort is a permutation, ordered by non-increasing score, stable for equal scores, and keeps terms distinct |
| RagUtils.RankEntriesOrdered | dream-interpreter/backend/rag_utils.py:155-167 | the kept entries number exactly the smaller of five and the number of distinct terms, have distinct terms and non-increasing scores |
| RagUtils.RankEntriesBest | dream-interpreter/backend/rag_utils.py:164-167 | that many entries are kept, and every deduplicated hit left out scores no higher than any kept entry |
| RagUtils.RankEntriesFirst | dream-interpreter/backend/rag_utils.py:155-167 | each kept entry is the first hit among the sources with its term |
| RagUtils.RankEntriesStable | dream-interpreter/backend/rag_utils.py:155-167 | entries of equal score keep their deduplication order |
| RagUtils.RankEntriesSpec | dream-interpreter/backend/rag_utils.py:155-167 | the kept entries satisfy all the properties above together: their number, distinct terms, non-increasing scores, first hit per term, stability, and no left-out hit scoring higher |
| RagUtils.BlocksLayout | dream-interpreter/backend/rag_utils.py:171-173 | each entry's `Symbol:`/`Meaning:` block sits right after the blocks of the entries before it |
| RagUtils.BlocksTile | dream-interpreter/backend/rag_utils.py:171-173 | each block ends where the next begins, and the last block ends the text |
| RagUtils.RenderLayout | dream-interpreter/backend/rag_utils.py:170-173 | the context starts with the fixed header, followed by one block per entry in order |
| RagUtils.RenderEnds | dream-interpreter/backend/rag_utils.py:170-173 | nothing follows the last entry's block; with no entries the context is the bare header |
| RagUtils.RenderContext | dream-interpreter/backend/rag_utils.py:170-173 | the `context +=` loop computes that rendering |
| RagUtils.DirectMatchesShortCircuit | dream-interpreter/backend/rag_utils.py:132-136 | when a term occurs in the text, the result does not depend on the vector index and every entry is a direct match scored 1.0 |
| RagUtils.SortByScoreAllEqual | dream-interpreter/backend/rag_utils.py:164 | the stable sort leaves hits of equal score in place |
| RagUtils.DirectContextInCorpusOrder | dream-interpreter/backend/rag_utils.py:128-167 | when a term occurs in the dream, the context entries are the first five deduplicated direct matches in corpus order |
| RagUtils.DreamDictionaryRAG.RetrieveForKeywords | dream-interpreter/backend/rag_utils.py:146-149 | the per-keyword loop concatenates each keyword's top-1 hits in keyword order |
| RagUtils.WaterAndSnakeScenario | dream-interpreter/backend/rag_utils.py:128-167 | with the Water and Snake rows and the dream "I saw a snake near water", the result is Water then Snake, both scored 1.0, whatever the index says |
| RagUtils.ScenarioDirectMatches | dream-interpreter/backend/rag_utils.py:116-124 | with the Water and Snake rows, the lowered dream "I saw a snake near water" matches Water then Snake, both scored 1.0 |
| RagUtils.ScenarioRanking | dream-interpreter/backend/rag_utils.py:155-167 | two hits with different terms and equal scores keep their order through deduplication, the stable sort and the cap |
| RagUtils.EmptyTextNoMatches | dream-interpreter/backend/rag_utils.py:78-106 | without empty terms, the empty text has no direct match and no keyword |
| RagUtils.EmptyDreamRendersHeaderOnly | dream-interpreter/backend/rag_utils.py:128-176 | an empty dream whose query scores nothing above 0.01 yields no entries and the bare header |
| RagUtils.DreamDictionaryRAG.GenerateContext | dream-interpreter/backend/rag_utils.py:128-176 | the method computes exactly the ranked entries of its sources, and the context is their rendering |
| DreamSense.Stem | dream-interpreter/frontend/src/DreamSense.tsx:42-43 | the stem is the lowercase term without a final "ing" (three characters shorter), and the term itself otherwise |
| DreamSense.MatchIffStemOccurs | dream-interpreter/frontend/src/DreamSense.tsx:44-54 | a term matches iff some variant occurs, which holds exactly when its stem occurs |
| DreamSense.FlyingFoundByStem | dream-interpreter/frontend/src/DreamSense.tsx:43-54 | "flying" is found in "we fly", through its stem "fly" |
| DreamSense.FlewMissed | dream-interpreter/frontend/src/DreamSense.tsx:43-54 | "flying" is not found in "we flew": no variant of the term occurs there |
| DreamSense.RelevantSymbolsExactly | dream-interpreter/frontend/src/DreamSense.tsx:40-59 | an entry is reported iff its stem occurs in the text, paired with its own meaning |
| DreamSense.RelevantSymbolsAppend | dream-interpreter/frontend/src/DreamSense.tsx:40-59 | symbols follow dictionary order |
| DreamSense.RelevantSymbolsDistinct | dream-interpreter/frontend/src/DreamSense.tsx:40-59 | with distinct keys no term is reported twice |
| DreamSense.BuiltInKeysDistinct | dream-interpreter/frontend/src/DreamSense.tsx:313-320 | the six built-in keys are distinct |
| DreamSense.BuiltInSymbolsDistinct | dream-interpreter/frontend/src/DreamSense.tsx:313-320 | the fallback never reports a built-in symbol twice |
| DreamSense.FindRelevantSymbols | dream-interpreter/frontend/src/DreamSense.tsx:35-62 | the `forEach`/`push` loop computes exactly the relevant symbols of the lowercased text |
| DreamSense.ReplyShape | dream-interpreter/frontend/src/DreamSense.tsx:68-79 | the reply is the fixed "no specific symbols" message iff no symbol was found; otherwise it opens with the fixed introduction and ends with the fixed closing |
| DreamSense.ParagraphsLayout | dream-interpreter/frontend/src/DreamSense.tsx:75-77 | each symbol's paragraph follows those of the symbols before it |
| DreamSense.ParagraphsTile | dream-interpreter/frontend/src/DreamSense.tsx:75-77 | each paragraph ends where the next begins, and the last paragraph ends the paragraph text |
| DreamSense.ComposeParagraphs | dream-interpreter/frontend/src/DreamSense.tsx:75-77 | the `+=` loop writes those paragraphs |
| DreamSense.GenerateDreamInterpretation | dream-interpreter/frontend/src/DreamSense.tsx:65-82 | the reply for the symbols found, and the no-symbols message exactly when none is found |
| Interpret.TruncateDetails | dream-interpreter/backend/main.py:147 | at most 103 characters; unchanged when at most 100; otherwise the first 100 characters followed by "..." |
| Interpret.TruncateDetailsIdempotent | dream-interpreter/backend/main.py:147 | truncating twice is truncating once |
| Interpret.ToSymbols | dream-interpreter/backend/main.py:143-149 | one symbol per entry, in order, with term and score copied and the meaning truncated |
| Interpret.PromptEnd | dream-interpreter/backend/main.py:113 | the closing marker starts with "Dream: " and the rest of it is exactly the dream text |
| Interpret.SecondPieceCut | dream-interpreter/backend/main.py:115 | the stripped piece lies between the first marker and the first occurrence after it (or the end when there is none), and contains no marker |
| Interpret.ExtractInterpretationSpec | dream-interpreter/backend/main.py:113-122 | the cut after "Dream: {text}" when it occurs; else the cut after the system marker when that occurs; else the whole text; each cut ends at the first later marker or the end |
| Interpret.ExtractGenerated | dream-interpreter/backend/main.py:113-122 | the branches on the prompt end and the system marker compute exactly that extraction |
| Interpret.ComposeBullets | dream-interpreter/backend/main.py:136-137 | the loop writes one bullet per entry |
| Interpret.BulletsLayout | dream-interpreter/backend/main.py:136-137 | each entry's bullet sits right after the bullets of the entries before it |
| Interpret.BulletsTile | dream-interpreter/backend/main.py:136-137 | each bullet ends where the next begins, and the last bullet ends the text |
| Interpret.EnhanceInterpretation | dream-interpreter/backend/main.py:128-140 | the text changes iff there are entries and none of the first three terms occurs in it; then it is the header, a bullet for each of the first five, the bridge and the original; the original always ends the result |
| Interpret.EnhancedMentionsSymbols | dream-interpreter/backend/main.py:130-139 | an enhanced text mentions the top term, so it needs no further enhancement |
| Interpret.BulletNamesTerm | dream-interpreter/backend/main.py:136-137 | the first bullet shows the first entry's term right after the bullet sign |
| Interpret.EnhancementIdempotent | dream-interpreter/backend/main.py:128-140 | after one enhancement no second one applies |
| Interpret.LookupContext | dream-interpreter/backend/main.py:77-84 | the dictionary's ranked entries and their rendering; without a dictionary, "No dream dictionary available." and no entries |
| Interpret.InterpretDream | dream-interpreter/backend/main.py:66-157 | without a model, the fixed failure reply with an error; when generation raises, the apology and no symbols; otherwise the extracted and possibly enhanced text, with one truncated symbol per ranked entry |

## Left out

- TF-IDF fitting and cosine similarity (`rag_utils.py` lines 25-29 and 39-43) rely on scikit-learn and floating point. They are a parameter of the class: one score per row and their ascending argsort.
- The tie order of numpy's `argsort` is not specified, so the model asserts none. Order results rely only on the argsort being ordered by score.
- Reading the CSV with pandas, and the error raised when that fails (`rag_utils.py` lines 17-34). The constructor takes the rows as a sequence.
- Logging everywhere.
- The FastAPI app, CORS, the request and response classes as HTTP payloads, and the `{"data": ...}` wrapper (`main.py` lines 15-64). These are transport.
- The `transformers` pipeline call and the prompt template (`main.py` lines 35-47 and 86-110). The generated text is a parameter.
- Exceptions other than an index error during selection. Inside `retrieve_relevant_entries` the index oracle is total, so `except` returns [] only for index errors. `extract_keywords` and `generate_context` have no reachable `except` branch in the model.
- Interpret.InterpretDream: the error field holds the exception's detail, "Model not initialized". The exact text `str(e)` yields for an `HTTPException` depends on the web framework's version and is not modelled.
- React state, `fetch`, timers, scrolling and JSX in `DreamSense.tsx`, together with `App.tsx` and `main.tsx`. These are UI and asynchronous I/O.
- Case folding covers ASCII letters only. Python's `str.lower` and JavaScript's `toLowerCase` also fold other scripts.
- The regular-expression class `\w` is modelled as ASCII letters, digits and `_`. Python's `re` also accepts other Unicode letters and digits.
- RagUtils.Distinct: `list(set(keywords))` returns the keywords in an order that depends on string hashing. The model fixes first-occurrence order. The proved properties hold for any order: the keywords are distinct, they are the same set, and there are at most `max_keywords` of them (at most one when `max_keywords` is 0). The order in which keyword hits are merged before deduplication rests on this choice.
- `max_keywords` and `top_k` are natural numbers. Negative values, which Python slicing would accept, are not modelled.
- Scores are real numbers; NaN and float rounding are not modelled.
- RagUtils.RelevantEntriesSpec: the bound of `top_k` entries is stated for `top_k >= 1` only. With `top_k` 0 the code's slice `[-0:]` keeps every row (`RagUtils.TopKZeroKeepsAll`).
