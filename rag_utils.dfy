/**
  The retrieval pipeline of the dream-dictionary backend (`DreamDictionaryRAG`):
  direct substring lookup, keyword extraction, top-k selection over the
  similarity scores of a fitted vector index, and the context builder that
  merges, deduplicates, ranks, caps and renders what was found.
 */
module RagUtils {
  import opened Strings

  datatype Option<T> = None | Some(value: T)

  /** One dictionary row: `Term`, `Term_lower`, `Details`, `Summary` */
  datatype Entry = Entry(term: string, termLower: string, details: string, summary: string)

  /** A retrieved row with its relevance score (one of the dictionaries `retrieve_relevant_entries` returns) */
  datatype Hit = Hit(term: string, details: string, summary: string, score: real)

  /**
    What the fitted TF-IDF index answers for one query: the cosine similarity
    of the query with every row, and `argsort` of those scores (ascending).
    The index itself is not modelled; it is a parameter of the class.
   */
  datatype Similarity = Similarity(scores: seq<real>, ascending: seq<nat>)

  const RelevanceThreshold: real := 0.01
  const DirectScore: real := 1.0
  const DefaultMaxKeywords: nat := 10
  const TextTopK: nat := 3
  const KeywordTopK: nat := 1
  const ContextCap: nat := 5
  const ContextHeader: string := "Dream Dictionary References:\n\n"
  const StopWords: seq<string> := ["the", "and", "was", "were", "that", "this", "with", "for", "about"]

  function Min(a: nat, b: nat): nat { if a <= b then a else b }

  function HitOf(e: Entry, score: real): Hit {
    Hit(e.term, e.details, e.summary, score)
  }

  /** A row as loaded: `Term_lower` is the case-folded `Term` */
  function LoadEntry(term: string, details: string, summary: string): Entry {
    Entry(term, Lower(term), details, summary)
  }

  // ---------------------------------------------------------------------------
  // direct_term_lookup

  predicate TermOccurs(e: Entry, textLower: string) {
    Contains(textLower, e.termLower)
  }

  /** The rows whose lowercase term occurs in `textLower`, in row order, each scored 1.0 */
  function DirectMatches(rows: seq<Entry>, textLower: string): seq<Hit> {
    if rows == [] then []
    else
      var prev := DirectMatches(rows[..|rows| - 1], textLower);
      var e := rows[|rows| - 1];
      if TermOccurs(e, textLower) then prev + [HitOf(e, DirectScore)] else prev
  }

  /**
    A hit is a direct match exactly when its row's lowercase term occurs in
    the text; every direct match is scored 1.0; there are none exactly when no
    row's term occurs.
   */
  lemma {:induction false} DirectMatchesExactly(rows: seq<Entry>, textLower: string)
    ensures forall h :: h in DirectMatches(rows, textLower) ==>
              h.score == DirectScore &&
              exists k :: 0 <= k < |rows| && TermOccurs(rows[k], textLower) && h == HitOf(rows[k], DirectScore)
    ensures forall k :: 0 <= k < |rows| && TermOccurs(rows[k], textLower) ==>
              HitOf(rows[k], DirectScore) in DirectMatches(rows, textLower)
    ensures DirectMatches(rows, textLower) == [] <==>
              forall k :: 0 <= k < |rows| ==> !TermOccurs(rows[k], textLower)
    ensures |DirectMatches(rows, textLower)| <= |rows|
  {
    if rows != [] {
      var init := rows[..|rows| - 1];
      DirectMatchesExactly(init, textLower);
      assert forall k :: 0 <= k < |init| ==> init[k] == rows[k];
    }
  }

  /** Direct matches follow row order: the matches of a concatenation are the concatenated matches. */
  lemma {:induction false} DirectMatchesAppend(a: seq<Entry>, b: seq<Entry>, textLower: string)
    ensures DirectMatches(a + b, textLower) == DirectMatches(a, textLower) + DirectMatches(b, textLower)
  {
    if b != [] {
      var b' := b[..|b| - 1];
      assert (a + b)[..|a + b| - 1] == a + b';
      DirectMatchesAppend(a, b', textLower);
    } else {
      assert a + b == a;
    }
  }

  // ---------------------------------------------------------------------------
  // extract_keywords: the direct-match branch

  /** Index of the first row at or after `from` whose lowercase term is `tl` */
  function FirstIndexWithLower(rows: seq<Entry>, tl: string, from: nat): (k: nat)
    requires exists k :: from <= k < |rows| && rows[k].termLower == tl
    decreases |rows| - from
    ensures from <= k < |rows| && rows[k].termLower == tl
    ensures forall j :: from <= j < k ==> rows[j].termLower != tl
  {
    if rows[from].termLower == tl then from else FirstIndexWithLower(rows, tl, from + 1)
  }

  /**
    For each of the first `n` rows whose lowercase term occurs in the text,
    the original `Term` of the first row carrying that lowercase form.
   */
  function MatchedTerms(rows: seq<Entry>, textLower: string, n: nat): seq<string>
    requires n <= |rows|
  {
    if n == 0 then []
    else
      var prev := MatchedTerms(rows, textLower, n - 1);
      var tl := rows[n - 1].termLower;
      if Contains(textLower, tl) then prev + [OriginalTerm(rows, n - 1)] else prev
  }

  /**
    Each matched term is the `Term` of the first row carrying the lowercase
    form of a row whose term occurs in the text; there is one per occurring
    row, so the list is empty exactly when no direct match exists.
   */
  lemma {:induction false} MatchedTermsAreFirstRows(rows: seq<Entry>, textLower: string, n: nat)
    requires n <= |rows|
    ensures |MatchedTerms(rows, textLower, n)| == |DirectMatches(rows[..n], textLower)|
    ensures forall t :: t in MatchedTerms(rows, textLower, n) ==>
              exists k, f :: 0 <= k < n && TermOccurs(rows[k], textLower) &&
                0 <= f <= k && rows[f].termLower == rows[k].termLower && t == rows[f].term &&
                forall j :: 0 <= j < f ==> rows[j].termLower != rows[k].termLower
  {
    if n > 0 {
      MatchedTermsAreFirstRows(rows, textLower, n - 1);
      assert rows[..n][..n - 1] == rows[..n - 1];
      var tl := rows[n - 1].termLower;
      if Contains(textLower, tl) {
        var f := FirstIndexWithLower(rows, tl, 0);
        assert f <= n - 1;
      }
    }
  }

  /** The original `Term` `.loc[...].iloc[0]` finds for row `k`: that of the first row with the same lowercase term */
  function OriginalTerm(rows: seq<Entry>, k: nat): string
    requires k < |rows|
  {
    rows[FirstIndexWithLower(rows, rows[k].termLower, 0)].term
  }

  /** Matching more rows only appends: the matches of the first `k` rows start the matches of the first `n`. */
  lemma {:induction false} MatchedTermsGrow(rows: seq<Entry>, textLower: string, k: nat, n: nat)
    requires k <= n <= |rows|
    ensures |MatchedTerms(rows, textLower, k)| <= |MatchedTerms(rows, textLower, n)|
    ensures MatchedTerms(rows, textLower, n)[..|MatchedTerms(rows, textLower, k)|] == MatchedTerms(rows, textLower, k)
  {
    if k < n {
      MatchedTermsGrow(rows, textLower, k, n - 1);
      var m := MatchedTerms(rows, textLower, n - 1);
      var mk := MatchedTerms(rows, textLower, k);
      assert MatchedTerms(rows, textLower, n)[..|m|] == m;
      assert m[..|mk|] == mk;
    }
  }

  /**
    Each occurring row contributes its original term right after the terms
    of the occurring rows before it: the matched terms are complete and in
    row order.
   */
  lemma MatchedTermsInOrder(rows: seq<Entry>, textLower: string, n: nat)
    requires n <= |rows|
    ensures forall k :: 0 <= k < n && TermOccurs(rows[k], textLower) ==>
              |MatchedTerms(rows, textLower, k)| < |MatchedTerms(rows, textLower, n)| &&
              MatchedTerms(rows, textLower, n)[|MatchedTerms(rows, textLower, k)|] == OriginalTerm(rows, k)
  {
    forall k | 0 <= k < n && TermOccurs(rows[k], textLower)
      ensures |MatchedTerms(rows, textLower, k)| < |MatchedTerms(rows, textLower, n)| &&
              MatchedTerms(rows, textLower, n)[|MatchedTerms(rows, textLower, k)|] == OriginalTerm(rows, k)
    {
      var mk := MatchedTerms(rows, textLower, k);
      assert MatchedTerms(rows, textLower, k + 1) == mk + [OriginalTerm(rows, k)];
      MatchedTermsGrow(rows, textLower, k + 1, n);
      assert MatchedTerms(rows, textLower, n)[..|mk| + 1][|mk|] == OriginalTerm(rows, k);
    }
  }

  // ---------------------------------------------------------------------------
  // extract_keywords: the n-gram fallback

  /** Adjacent word pairs joined by one space */
  function Bigrams(words: seq<string>): (bs: seq<string>)
    ensures |bs| == if |words| < 2 then 0 else |words| - 1
    ensures forall i :: 0 <= i < |bs| ==> bs[i] == words[i] + " " + words[i + 1]
  {
    if |words| < 2 then []
    else seq(|words| - 1, i requires 0 <= i < |words| - 1 => words[i] + " " + words[i + 1])
  }

  /** Adjacent word triples joined by single spaces */
  function Trigrams(words: seq<string>): (ts: seq<string>)
    ensures |ts| == if |words| < 3 then 0 else |words| - 2
    ensures forall i :: 0 <= i < |ts| ==> ts[i] == words[i] + " " + words[i + 1] + " " + words[i + 2]
  {
    if |words| < 3 then []
    else seq(|words| - 2, i requires 0 <= i < |words| - 2 => words[i] + " " + words[i + 1] + " " + words[i + 2])
  }

  /** A leading space is not part of any word. */
  lemma WordsAfterSpace(x: string)
    ensures Words(" " + x) == Words(x)
  {
    assert (" " + x)[1..] == x;
  }

  /** Two words joined by a space tokenize back into the two words. */
  lemma PairTokens(a: string, b: string)
    requires IsRun(a) && IsRun(b)
    ensures Words(a + " " + b) == [a, b]
  {
    assert a + " " + b == a + (" " + b);
    WordsRun(a, " " + b);
    WordsAfterSpace(b);
    assert b + [] == b;
    WordsRun(b, []);
  }

  /** Three words joined by spaces tokenize back into the three words. */
  lemma TripleTokens(a: string, b: string, c: string)
    requires IsRun(a) && IsRun(b) && IsRun(c)
    ensures Words(a + " " + b + " " + c) == [a, b, c]
  {
    var bc := b + " " + c;
    var tail := " " + bc;
    var wb := Words(bc);
    var wt := Words(tail);
    PairTokens(b, c);
    WordsAfterSpace(bc);
    assert wt == [b, c];
    WordsRun(a, tail);
    JoinRegroups(a, b, c);
    assert [a] + wt == [a, b, c];
  }

  lemma JoinRegroups(a: string, b: string, c: string)
    ensures a + " " + b + " " + c == a + (" " + (b + " " + c))
  {
  }

  /** Every bigram of the text's words tokenizes back into its pair of adjacent words. */
  lemma BigramsTokenize(words: seq<string>)
    requires forall w :: w in words ==> IsRun(w)
    ensures forall i :: 0 <= i < |Bigrams(words)| ==> Words(Bigrams(words)[i]) == [words[i], words[i + 1]]
  {
    forall i | 0 <= i < |Bigrams(words)| ensures Words(Bigrams(words)[i]) == [words[i], words[i + 1]] {
      PairTokens(words[i], words[i + 1]);
    }
  }

  /** Every trigram of the text's words tokenizes back into its triple of adjacent words. */
  lemma TrigramsTokenize(words: seq<string>)
    requires forall w :: w in words ==> IsRun(w)
    ensures forall i :: 0 <= i < |Trigrams(words)| ==>
              Words(Trigrams(words)[i]) == [words[i], words[i + 1], words[i + 2]]
  {
    forall i | 0 <= i < |Trigrams(words)|
      ensures Words(Trigrams(words)[i]) == [words[i], words[i + 1], words[i + 2]]
    {
      TripleTokens(words[i], words[i + 1], words[i + 2]);
    }
  }

  /** `all_potential_terms`: words, then bigrams, then trigrams */
  function PotentialTerms(words: seq<string>): seq<string> {
    words + Bigrams(words) + Trigrams(words)
  }

  /** Candidates the fallback ignores: three characters or fewer, or a stop word */
  predicate Skipped(candidate: string) {
    |candidate| <= 3 || candidate in StopWords
  }

  /** A candidate relates to a row when either contains the other */
  predicate Related(e: Entry, candidate: string) {
    Contains(e.termLower, candidate) || Contains(candidate, e.termLower)
  }

  /** The `Term` of the first row related to `candidate`, if any */
  function FirstRelated(rows: seq<Entry>, candidate: string): Option<string> {
    if rows == [] then None
    else if Related(rows[0], candidate) then Some(rows[0].term)
    else FirstRelated(rows[1..], candidate)
  }

  lemma {:induction false} FirstRelatedIsFirst(rows: seq<Entry>, candidate: string)
    ensures FirstRelated(rows, candidate).None? <==> forall k :: 0 <= k < |rows| ==> !Related(rows[k], candidate)
    ensures FirstRelated(rows, candidate).Some? ==>
              exists k :: 0 <= k < |rows| && Related(rows[k], candidate) &&
                FirstRelated(rows, candidate).value == rows[k].term &&
                forall j :: 0 <= j < k ==> !Related(rows[j], candidate)
  {
    if rows != [] && !Related(rows[0], candidate) {
      FirstRelatedIsFirst(rows[1..], candidate);
      if FirstRelated(rows, candidate).Some? {
        var k :| 0 <= k < |rows[1..]| && Related(rows[1..][k], candidate) &&
                 FirstRelated(rows[1..], candidate).value == rows[1..][k].term &&
                 forall j :: 0 <= j < k ==> !Related(rows[1..][j], candidate);
        assert Related(rows[k + 1], candidate);
      }
    }
  }

  /**
    The fallback scan from the state where `acc` keywords are collected:
    every candidate that is not skipped contributes the term of its first
    related row, if any, and the scan stops once `maxKeywords` are collected.
   */
  function Scan(rows: seq<Entry>, candidates: seq<string>, maxKeywords: nat, acc: seq<string>): seq<string>
    decreases |candidates|
  {
    if candidates == [] then acc
    else if Skipped(candidates[0]) then Scan(rows, candidates[1..], maxKeywords, acc)
    else
      var acc' := match FirstRelated(rows, candidates[0])
        case Some(t) => acc + [t]
        case None => acc;
      if |acc'| >= maxKeywords then acc' else Scan(rows, candidates[1..], maxKeywords, acc')
  }

  /**
    With `max_keywords` 0 the length test passes after the first candidate
    that is not skipped, so at most that candidate's related term is kept.
   */
  lemma {:induction false} ScanZeroStopsEarly(rows: seq<Entry>, candidates: seq<string>)
    ensures |Scan(rows, candidates, 0, [])| <= 1
    ensures forall t :: t in Scan(rows, candidates, 0, []) ==>
              exists k :: 0 <= k < |candidates| && FirstRelated(rows, candidates[k]) == Some(t) &&
                !Skipped(candidates[k]) && forall j :: 0 <= j < k ==> Skipped(candidates[j])
    decreases |candidates|
  {
    if candidates != [] && Skipped(candidates[0]) {
      var rest := candidates[1..];
      ScanZeroStopsEarly(rows, rest);
      forall t | t in Scan(rows, candidates, 0, [])
        ensures exists k :: 0 <= k < |candidates| && FirstRelated(rows, candidates[k]) == Some(t) &&
                  !Skipped(candidates[k]) && forall j :: 0 <= j < k ==> Skipped(candidates[j])
      {
        var k :| 0 <= k < |rest| && FirstRelated(rows, rest[k]) == Some(t) &&
                 !Skipped(rest[k]) && forall j :: 0 <= j < k ==> Skipped(rest[j]);
        assert forall j :: 0 <= j < k + 1 ==> Skipped(candidates[j]) by {
          forall j | 0 <= j < k + 1 ensures Skipped(candidates[j]) {
            if j > 0 { assert candidates[j] == rest[j - 1]; }
          }
        }
        assert candidates[k + 1] == rest[k];
      }
    } else if candidates != [] {
      forall t | t in Scan(rows, candidates, 0, [])
        ensures exists k :: 0 <= k < |candidates| && FirstRelated(rows, candidates[k]) == Some(t) &&
                  !Skipped(candidates[k]) && forall j :: 0 <= j < k ==> Skipped(candidates[j])
      {
        assert FirstRelated(rows, candidates[0]) == Some(t);
      }
    }
  }

  /** Once fewer than `maxKeywords` are collected, the scan never collects more than `maxKeywords`. */
  lemma {:induction false} ScanBounded(rows: seq<Entry>, candidates: seq<string>, maxKeywords: nat, acc: seq<string>)
    requires |acc| < maxKeywords
    ensures |Scan(rows, candidates, maxKeywords, acc)| <= maxKeywords
    decreases |candidates|
  {
    if candidates != [] {
      if Skipped(candidates[0]) {
        ScanBounded(rows, candidates[1..], maxKeywords, acc);
      } else {
        var acc' := match FirstRelated(rows, candidates[0])
          case Some(t) => acc + [t]
          case None => acc;
        if |acc'| < maxKeywords {
          ScanBounded(rows, candidates[1..], maxKeywords, acc');
        }
      }
    }
  }

  /** Every keyword the scan adds is the first related row's term for some candidate that is not skipped. */
  lemma {:induction false} ScanOrigins(rows: seq<Entry>, candidates: seq<string>, maxKeywords: nat, acc: seq<string>)
    ensures forall t :: t in Scan(rows, candidates, maxKeywords, acc) ==>
              t in acc || exists c :: c in candidates && !Skipped(c) && FirstRelated(rows, c) == Some(t)
    decreases |candidates|
  {
    if candidates != [] {
      var c0 := candidates[0];
      if Skipped(c0) {
        ScanOrigins(rows, candidates[1..], maxKeywords, acc);
      } else {
        var acc' := match FirstRelated(rows, c0)
          case Some(t) => acc + [t]
          case None => acc;
        ScanOrigins(rows, candidates[1..], maxKeywords, acc');
      }
    }
  }

  /**
    The term each candidate contributes when nothing stops the scan: for
    every candidate that is not skipped and relates to some row, the first
    related row's term, in candidate order.
   */
  function RelatedTerms(rows: seq<Entry>, candidates: seq<string>): seq<string> {
    if candidates == [] then []
    else
      var c := candidates[0];
      (if !Skipped(c) && FirstRelated(rows, c).Some? then [FirstRelated(rows, c).value] else []) +
      RelatedTerms(rows, candidates[1..])
  }

  /**
    From fewer than `maxKeywords` collected, the scan appends the related
    terms in candidate order and stops exactly when `maxKeywords` are
    collected: it keeps the first `maxKeywords` of them, or all of them.
   */
  lemma {:induction false} ScanTakesRelatedTerms(rows: seq<Entry>, candidates: seq<string>, maxKeywords: nat, acc: seq<string>)
    requires |acc| < maxKeywords
    ensures Scan(rows, candidates, maxKeywords, acc) ==
              (acc + RelatedTerms(rows, candidates))[..Min(maxKeywords, |acc| + |RelatedTerms(rows, candidates)|)]
    decreases |candidates|
  {
    var rt := RelatedTerms(rows, candidates);
    if candidates == [] {
      assert acc + rt == acc;
    } else {
      var c := candidates[0];
      var rest := RelatedTerms(rows, candidates[1..]);
      if Skipped(c) || FirstRelated(rows, c).None? {
        assert rt == rest;
        ScanTakesRelatedTerms(rows, candidates[1..], maxKeywords, acc);
      } else {
        var t := FirstRelated(rows, c).value;
        assert rt == [t] + rest;
        assert acc + rt == (acc + [t]) + rest;
        if |acc| + 1 >= maxKeywords {
          assert (acc + rt)[..|acc| + 1] == acc + [t];
        } else {
          ScanTakesRelatedTerms(rows, candidates[1..], maxKeywords, acc + [t]);
        }
      }
    }
  }

  /** Every related term comes from a candidate that is not skipped. */
  lemma {:induction false} RelatedTermsOrigins(rows: seq<Entry>, candidates: seq<string>)
    ensures forall t :: t in RelatedTerms(rows, candidates) ==>
              exists c :: c in candidates && !Skipped(c) && FirstRelated(rows, c) == Some(t)
  {
    if candidates != [] {
      RelatedTermsOrigins(rows, candidates[1..]);
      forall t | t in RelatedTerms(rows, candidates)
        ensures exists c :: c in candidates && !Skipped(c) && FirstRelated(rows, c) == Some(t)
      {
        if t !in RelatedTerms(rows, candidates[1..]) {
          assert candidates[0] in candidates;
        } else {
          var c :| c in candidates[1..] && !Skipped(c) && FirstRelated(rows, c) == Some(t);
          assert c in candidates;
        }
      }
    }
  }

  /** `list(set(s))`: the distinct elements of `s`, kept here in first-occurrence order */
  function Distinct<T(==)>(s: seq<T>): seq<T> {
    if s == [] then []
    else
      var d := Distinct(s[..|s| - 1]);
      if s[|s| - 1] in d then d else d + [s[|s| - 1]]
  }

  lemma {:induction false} DistinctIsSet<T>(s: seq<T>)
    ensures forall i, j :: 0 <= i < j < |Distinct(s)| ==> Distinct(s)[i] != Distinct(s)[j]
    ensures forall x :: x in Distinct(s) <==> x in s
    ensures |Distinct(s)| <= |s|
  {
    if s != [] {
      var init := s[..|s| - 1];
      DistinctIsSet(init);
      assert s == init + [s[|s| - 1]];
    }
  }

  /**
    `extract_keywords`: when some row's lowercase term occurs in the text,
    the first `maxKeywords` matched terms; otherwise the distinct keywords of
    the n-gram scan.
   */
  function KeywordsOf(rows: seq<Entry>, text: string, maxKeywords: nat): seq<string> {
    var textLower := Lower(text);
    var matched := MatchedTerms(rows, textLower, |rows|);
    if matched != [] then matched[..Min(maxKeywords, |matched|)]
    else Distinct(Scan(rows, PotentialTerms(Words(textLower)), maxKeywords, []))
  }

  /**
    The direct branch is taken exactly when some row's term occurs in the
    lowercased text; it yields the first `maxKeywords` matched terms.
   */
  lemma KeywordsDirectBranch(rows: seq<Entry>, text: string, maxKeywords: nat)
    requires exists k :: 0 <= k < |rows| && TermOccurs(rows[k], Lower(text))
    ensures var matched := MatchedTerms(rows, Lower(text), |rows|);
            matched != [] && KeywordsOf(rows, text, maxKeywords) == matched[..Min(maxKeywords, |matched|)]
  {
    MatchedTermsAreFirstRows(rows, Lower(text), |rows|);
    assert rows[..|rows|] == rows;
    DirectMatchesExactly(rows, Lower(text));
  }

  /** Without an occurring term there is nothing to match. */
  lemma {:induction false} NoMatchedTerms(rows: seq<Entry>, textLower: string, n: nat)
    requires n <= |rows|
    requires forall k :: 0 <= k < |rows| ==> !TermOccurs(rows[k], textLower)
    ensures MatchedTerms(rows, textLower, n) == []
  {
    if n > 0 {
      NoMatchedTerms(rows, textLower, n - 1);
      assert !TermOccurs(rows[n - 1], textLower);
    }
  }

  /**
    Without a direct match the keywords are pairwise distinct, each is the
    term of the first row related to some candidate that is not skipped, and
    for `maxKeywords >= 1` there are at most `maxKeywords` of them.
   */
  lemma KeywordsFallback(rows: seq<Entry>, text: string, maxKeywords: nat)
    requires forall k :: 0 <= k < |rows| ==> !TermOccurs(rows[k], Lower(text))
    ensures var kws := KeywordsOf(rows, text, maxKeywords);
            (forall i, j :: 0 <= i < j < |kws| ==> kws[i] != kws[j]) &&
            (maxKeywords >= 1 ==> |kws| <= maxKeywords) &&
            forall t :: t in kws ==>
              exists c :: c in PotentialTerms(Words(Lower(text))) && !Skipped(c) && FirstRelated(rows, c) == Some(t)
    ensures maxKeywords >= 1 ==>
              var related := RelatedTerms(rows, PotentialTerms(Words(Lower(text))));
              forall t :: t in KeywordsOf(rows, text, maxKeywords) <==> t in related[..Min(maxKeywords, |related|)]
    ensures maxKeywords == 0 ==> |KeywordsOf(rows, text, maxKeywords)| <= 1
  {
    var candidates := PotentialTerms(Words(Lower(text)));
    NoMatchedTerms(rows, Lower(text), |rows|);
    assert KeywordsOf(rows, text, maxKeywords) == Distinct(Scan(rows, candidates, maxKeywords, []));
    ScanKeywords(rows, candidates, maxKeywords);
  }

  /** The distinct keywords of a scan from nothing, for any candidate list. */
  lemma ScanKeywords(rows: seq<Entry>, candidates: seq<string>, maxKeywords: nat)
    ensures var kws := Distinct(Scan(rows, candidates, maxKeywords, []));
            (forall i, j :: 0 <= i < j < |kws| ==> kws[i] != kws[j]) &&
            (maxKeywords >= 1 ==> |kws| <= maxKeywords) &&
            forall t :: t in kws ==>
              exists c :: c in candidates && !Skipped(c) && FirstRelated(rows, c) == Some(t)
    ensures maxKeywords >= 1 ==>
              var related := RelatedTerms(rows, candidates);
              forall t :: t in Distinct(Scan(rows, candidates, maxKeywords, [])) <==> t in related[..Min(maxKeywords, |related|)]
    ensures maxKeywords == 0 ==> |Distinct(Scan(rows, candidates, maxKeywords, []))| <= 1
  {
    var collected := Scan(rows, candidates, maxKeywords, []);
    DistinctIsSet(collected);
    ScanOrigins(rows, candidates, maxKeywords, []);
    if maxKeywords >= 1 {
      ScanBounded(rows, candidates, maxKeywords, []);
      ScanKeywordsComplete(rows, candidates, maxKeywords);
    } else {
      ScanZeroStopsEarly(rows, candidates);
    }
  }

  /** With a positive limit the scan's members are those of the first `maxKeywords` related terms. */
  lemma ScanKeywordsComplete(rows: seq<Entry>, candidates: seq<string>, maxKeywords: nat)
    requires maxKeywords >= 1
    ensures var related := RelatedTerms(rows, candidates);
            Scan(rows, candidates, maxKeywords, []) == related[..Min(maxKeywords, |related|)]
  {
    ScanTakesRelatedTerms(rows, candidates, maxKeywords, []);
    assert [] + RelatedTerms(rows, candidates) == RelatedTerms(rows, candidates);
  }



  // ---------------------------------------------------------------------------
  // retrieve_relevant_entries: selection over the similarity scores

  function Reverse<T>(s: seq<T>): (r: seq<T>)
    ensures |r| == |s|
  {
    seq(|s|, i requires 0 <= i < |s| => s[|s| - 1 - i])
  }

  /** A reversal has the same elements. */
  lemma ReverseKeepsMembers<T>(s: seq<T>)
    ensures forall x :: x in Reverse(s) <==> x in s
  {
    var r := Reverse(s);
    forall x | x in s ensures x in r {
      var i :| 0 <= i < |s| && s[i] == x;
      assert r[|s| - 1 - i] == x;
    }
  }

  /** Python `ascending[-topK:][::-1]`; note that `[-0:]` is the whole list */
  function TopIndices(ascending: seq<nat>, topK: nat): seq<nat> {
    if topK == 0 then Reverse(ascending)
    else Reverse(ascending[|ascending| - Min(topK, |ascending|)..])
  }

  /**
    The selection loop over `indices`: rows scored above the threshold are
    kept in order; `None` stands for the IndexError an index outside the
    scores or the rows raises.
   */
  function CollectHits(rows: seq<Entry>, scores: seq<real>, indices: seq<nat>): Option<seq<Hit>> {
    if indices == [] then Some([])
    else
      match CollectHits(rows, scores, indices[..|indices| - 1])
      case None => None
      case Some(prev) =>
        var idx := indices[|indices| - 1];
        if idx >= |scores| then None
        else if scores[idx] > RelevanceThreshold then
          if idx >= |rows| then None else Some(prev + [HitOf(rows[idx], scores[idx])])
        else Some(prev)
  }

  /** `retrieve_relevant_entries`: the selected hits, or nothing when the selection raised */
  function RelevantEntries(rows: seq<Entry>, sim: Similarity, topK: nat): seq<Hit> {
    match CollectHits(rows, sim.scores, TopIndices(sim.ascending, topK))
    case Some(hits) => hits
    case None => []
  }

  /** A failure on a prefix of the indices is a failure of the whole loop. */
  lemma {:induction false} CollectHitsFailureSticks(rows: seq<Entry>, scores: seq<real>, indices: seq<nat>, n: nat)
    requires n <= |indices| && CollectHits(rows, scores, indices[..n]) == None
    ensures CollectHits(rows, scores, indices) == None
    decreases |indices| - n
  {
    if n < |indices| {
      assert indices[..n + 1][..n] == indices[..n];
      CollectHitsFailureSticks(rows, scores, indices, n + 1);
    } else {
      assert indices[..n] == indices;
    }
  }

  predicate NonIncreasing(hits: seq<Hit>) {
    forall i, j :: 0 <= i < j < |hits| ==> hits[i].score >= hits[j].score
  }

  /**
    The hits collected are at most one per index, each is a row scored above
    the threshold with its own score, and they keep the order of the indices:
    non-increasing indices by score give non-increasing hits.
   */
  lemma CollectHitsSpec(rows: seq<Entry>, scores: seq<real>, indices: seq<nat>)
    ensures CollectHits(rows, scores, indices).Some? ==>
              var hits := CollectHits(rows, scores, indices).value;
              |hits| <= |indices| && FromIndices(rows, scores, indices, hits) &&
              (ScoresDescend(scores, indices) ==> NonIncreasing(hits))
  {
    CollectHitsSources(rows, scores, indices);
    if ScoresDescend(scores, indices) {
      CollectHitsOrdered(rows, scores, indices);
    }
  }

  /** The indices visit scores in non-increasing order (indices past the scores aside). */
  predicate ScoresDescend(scores: seq<real>, indices: seq<nat>) {
    forall p, q :: 0 <= p < q < |indices| && indices[p] < |scores| && indices[q] < |scores| ==>
      scores[indices[p]] >= scores[indices[q]]
  }

  /** Each hit is the row at one of the indices, with that index's score above the threshold. */
  predicate FromIndices(rows: seq<Entry>, scores: seq<real>, indices: seq<nat>, hits: seq<Hit>) {
    forall i :: 0 <= i < |hits| ==>
      exists p :: 0 <= p < |indices| && indices[p] < |rows| && indices[p] < |scores| &&
        scores[indices[p]] > RelevanceThreshold &&
        hits[i] == HitOf(rows[indices[p]], scores[indices[p]])
  }

  /** Every collected hit comes from an index whose score clears the threshold. */
  lemma {:induction false} CollectHitsSources(rows: seq<Entry>, scores: seq<real>, indices: seq<nat>)
    ensures CollectHits(rows, scores, indices).Some? ==>
              var hits := CollectHits(rows, scores, indices).value;
              |hits| <= |indices| && FromIndices(rows, scores, indices, hits)
  {
    if indices != [] {
      var init := indices[..|indices| - 1];
      CollectHitsSources(rows, scores, init);
      if CollectHits(rows, scores, indices).Some? {
        var prev := CollectHits(rows, scores, init).value;
        var hits := CollectHits(rows, scores, indices).value;
        forall i | 0 <= i < |hits|
          ensures exists p :: 0 <= p < |indices| && indices[p] < |rows| && indices[p] < |scores| &&
                   scores[indices[p]] > RelevanceThreshold &&
                   hits[i] == HitOf(rows[indices[p]], scores[indices[p]])
        {
          if i < |prev| {
            var p :| 0 <= p < |init| && init[p] < |rows| && init[p] < |scores| &&
                     scores[init[p]] > RelevanceThreshold && prev[i] == HitOf(rows[init[p]], scores[init[p]]);
            assert indices[p] == init[p];
          } else {
            var p := |indices| - 1;
            assert indices[p] < |rows| && indices[p] < |scores| && scores[indices[p]] > RelevanceThreshold;
            assert hits[i] == HitOf(rows[indices[p]], scores[indices[p]]);
          }
        }
      }
    }
  }

  /** Indices in non-increasing score order give hits in non-increasing score order. */
  lemma {:induction false} CollectHitsOrdered(rows: seq<Entry>, scores: seq<real>, indices: seq<nat>)
    requires ScoresDescend(scores, indices)
    ensures CollectHits(rows, scores, indices).Some? ==> NonIncreasing(CollectHits(rows, scores, indices).value)
  {
    if indices != [] {
      var init := indices[..|indices| - 1];
      var last := indices[|indices| - 1];
      assert forall p :: 0 <= p < |init| ==> init[p] == indices[p];
      CollectHitsOrdered(rows, scores, init);
      CollectHitsSources(rows, scores, init);
      if CollectHits(rows, scores, indices).Some? {
        var prev := CollectHits(rows, scores, init).value;
        var hits := CollectHits(rows, scores, indices).value;
        forall i, j | 0 <= i < j < |hits| ensures hits[i].score >= hits[j].score {
          if j >= |prev| {
            var p :| 0 <= p < |init| && init[p] < |rows| && init[p] < |scores| &&
                     scores[init[p]] > RelevanceThreshold && prev[i] == HitOf(rows[init[p]], scores[init[p]]);
            assert indices[p] == init[p];
            assert hits[j] == HitOf(rows[last], scores[last]);
          }
        }
      }
    }
  }

  /** `ascending` is a genuine `argsort` of `scores` over `n` rows. */
  predicate IsArgsort(sim: Similarity, n: nat) {
    |sim.scores| == n && |sim.ascending| == n &&
    (forall p :: 0 <= p < n ==> sim.ascending[p] < n) &&
    (forall j :: 0 <= j < n ==> j in sim.ascending) &&
    (forall p, q :: 0 <= p < q < n ==> sim.scores[sim.ascending[p]] <= sim.scores[sim.ascending[q]])
  }

  /**
    Over a genuine argsort, the top indices are the `topK` best (all rows when
    `topK` is 0, as Python's `[-0:]` slice is the whole list), best first, and
    no row left out scores above a row kept.
   */
  lemma TopIndicesAreBest(sim: Similarity, n: nat, topK: nat)
    requires IsArgsort(sim, n)
    ensures var top := TopIndices(sim.ascending, topK);
            |top| == (if topK == 0 then n else Min(topK, n)) &&
            (forall p, q :: 0 <= p < q < |top| ==> sim.scores[top[p]] >= sim.scores[top[q]]) &&
            (forall j, p :: 0 <= j < n && j !in top && 0 <= p < |top| ==> sim.scores[j] <= sim.scores[top[p]])
  {
    var asc := sim.ascending;
    var top := TopIndices(asc, topK);
    var start := if topK == 0 then 0 else n - Min(topK, n);
    assert forall p :: 0 <= p < |top| ==> top[p] == asc[n - 1 - p];
    forall q | start <= q < n ensures asc[q] in top {
      assert top[n - 1 - q] == asc[q];
    }
    forall j, p | 0 <= j < n && j !in top && 0 <= p < |top| ensures sim.scores[j] <= sim.scores[top[p]] {
      assert j in asc;
      var r :| 0 <= r < n && asc[r] == j;
      assert r < start;
      assert top[p] == asc[n - 1 - p];
      assert r < n - 1 - p;
    }
  }

  /**
    `retrieve_relevant_entries` returns at most `topK` hits for `topK >= 1`,
    each a row of the dictionary scored above 0.01 with its own score; over a
    genuine argsort they come best first.
   */
  lemma RelevantEntriesSpec(rows: seq<Entry>, sim: Similarity, topK: nat)
    ensures var hits := RelevantEntries(rows, sim, topK);
            (topK >= 1 ==> |hits| <= topK) &&
            (forall h :: h in hits ==>
               (h.score > RelevanceThreshold &&
                exists k :: 0 <= k < |rows| && k < |sim.scores| && h == HitOf(rows[k], sim.scores[k]))) &&
            (IsArgsort(sim, |rows|) ==> NonIncreasing(hits))
  {
    var top := TopIndices(sim.ascending, topK);
    CollectHitsSpec(rows, sim.scores, top);
    if IsArgsort(sim, |rows|) {
      TopIndicesAreBest(sim, |rows|, topK);
    }
  }

  /** With `topK == 0` every row scored above the threshold is returned (the `[-0:]` slice). */
  lemma {:induction false} TopKZeroKeepsAll(rows: seq<Entry>, sim: Similarity)
    requires IsArgsort(sim, |rows|)
    ensures forall k :: 0 <= k < |rows| && sim.scores[k] > RelevanceThreshold ==>
              HitOf(rows[k], sim.scores[k]) in RelevantEntries(rows, sim, 0)
  {
    var top := TopIndices(sim.ascending, 0);
    assert forall p :: 0 <= p < |top| ==> top[p] == sim.ascending[|rows| - 1 - p];
    CollectAllInRange(rows, sim.scores, top);
    forall k | 0 <= k < |rows| && sim.scores[k] > RelevanceThreshold
      ensures HitOf(rows[k], sim.scores[k]) in RelevantEntries(rows, sim, 0)
    {
      assert k in sim.ascending;
      var r :| 0 <= r < |rows| && sim.ascending[r] == k;
      assert top[|rows| - 1 - r] == k;
    }
  }

  lemma {:induction false} CollectAllInRange(rows: seq<Entry>, scores: seq<real>, indices: seq<nat>)
    requires |scores| == |rows|
    requires forall p :: 0 <= p < |indices| ==> indices[p] < |rows|
    ensures CollectHits(rows, scores, indices).Some?
    ensures forall p :: 0 <= p < |indices| && scores[indices[p]] > RelevanceThreshold ==>
              HitOf(rows[indices[p]], scores[indices[p]]) in CollectHits(rows, scores, indices).value
  {
    if indices != [] {
      var init := indices[..|indices| - 1];
      CollectAllInRange(rows, scores, init);
      assert forall p :: 0 <= p < |init| ==> indices[p] == init[p];
    }
  }

  // ---------------------------------------------------------------------------
  // generate_context: dedup, stable sort, cap, render

  function Terms(hits: seq<Hit>): set<string> {
    set h | h in hits :: h.term
  }

  /** First occurrence of each term wins. */
  function DedupByTerm(hits: seq<Hit>): seq<Hit> {
    if hits == [] then []
    else
      var d := DedupByTerm(hits[..|hits| - 1]);
      var e := hits[|hits| - 1];
      if e.term in Terms(d) then d else d + [e]
  }

  predicate DistinctTerms(hits: seq<Hit>) {
    forall i, j :: 0 <= i < j < |hits| ==> hits[i].term != hits[j].term
  }

  /** `h` is at some position of `hits` and no earlier hit carries its term */
  predicate FirstWithTerm(hits: seq<Hit>, h: Hit) {
    exists k :: 0 <= k < |hits| && hits[k] == h && forall j :: 0 <= j < k ==> hits[j].term != h.term
  }

  lemma FirstWithTermExtends(a: seq<Hit>, e: Hit, h: Hit)
    requires FirstWithTerm(a, h)
    ensures FirstWithTerm(a + [e], h)
  {
    var k :| 0 <= k < |a| && a[k] == h && forall j :: 0 <= j < k ==> a[j].term != h.term;
    assert (a + [e])[k] == h;
    assert forall j :: 0 <= j < k ==> (a + [e])[j] == a[j];
  }

  lemma TermsSnoc(a: seq<Hit>, e: Hit)
    ensures Terms(a + [e]) == Terms(a) + {e.term}
  {
    assert forall h :: h in a + [e] <==> h in a || h == e;
  }

  /** Position of the first hit carrying `t`, or `|hits|` when none does */
  function FirstPos(hits: seq<Hit>, t: string): (p: nat)
    ensures p <= |hits|
    ensures p < |hits| ==> hits[p].term == t
    ensures forall j :: 0 <= j < p ==> hits[j].term != t
  {
    if hits == [] then 0
    else
      var p := FirstPos(hits[..|hits| - 1], t);
      if p < |hits| - 1 then p
      else if hits[|hits| - 1].term == t then |hits| - 1
      else |hits|
  }

  lemma FirstPosSnoc(init: seq<Hit>, e: Hit, t: string)
    ensures FirstPos(init + [e], t) ==
              if FirstPos(init, t) < |init| then FirstPos(init, t)
              else if e.term == t then |init| else |init| + 1
  {
    assert (init + [e])[..|init|] == init;
  }

  lemma FirstPosAbsent(hits: seq<Hit>, t: string)
    requires t !in Terms(hits)
    ensures FirstPos(hits, t) == |hits|
  {
  }

  /** Deduplication drops no term. */
  lemma {:induction false} DedupSameTerms(hits: seq<Hit>)
    ensures Terms(DedupByTerm(hits)) == Terms(hits)
  {
    if hits != [] {
      var init := hits[..|hits| - 1];
      var e := hits[|hits| - 1];
      DedupSameTerms(init);
      assert hits == init + [e];
      TermsSnoc(init, e);
      TermsSnoc(DedupByTerm(init), e);
    }
  }

  /**
    Deduplication keeps the hits in input order: each kept hit sits at the
    first position of its term, and those positions increase along the
    result.
   */
  lemma {:induction false} DedupInOrder(hits: seq<Hit>)
    ensures var d := DedupByTerm(hits);
            (forall i :: 0 <= i < |d| ==> FirstPos(hits, d[i].term) < |hits| && hits[FirstPos(hits, d[i].term)] == d[i]) &&
            (forall i, j :: 0 <= i < j < |d| ==> FirstPos(hits, d[i].term) < FirstPos(hits, d[j].term))
  {
    if hits != [] {
      var init := hits[..|hits| - 1];
      var e := hits[|hits| - 1];
      DedupInOrder(init);
      DedupSameTerms(init);
      var d := DedupByTerm(init);
      assert hits == init + [e];
      if e.term in Terms(d) {
        DedupInOrderSkip(init, e, d);
      } else {
        DedupInOrderKeep(init, e, d);
      }
    }
  }

  /** `d` is `hits` taken at the first position of each of its terms, in increasing position */
  predicate InFirstPosOrder(hits: seq<Hit>, d: seq<Hit>) {
    (forall i :: 0 <= i < |d| ==> FirstPos(hits, d[i].term) < |hits| && hits[FirstPos(hits, d[i].term)] == d[i]) &&
    (forall i, j :: 0 <= i < j < |d| ==> FirstPos(hits, d[i].term) < FirstPos(hits, d[j].term))
  }

  /** Appending a hit moves no first position that already lies inside `init`. */
  lemma FirstPosKept(init: seq<Hit>, e: Hit, d: seq<Hit>)
    requires forall i :: 0 <= i < |d| ==> FirstPos(init, d[i].term) < |init|
    ensures forall i :: 0 <= i < |d| ==> FirstPos(init + [e], d[i].term) == FirstPos(init, d[i].term)
  {
    forall i | 0 <= i < |d| ensures FirstPos(init + [e], d[i].term) == FirstPos(init, d[i].term) {
      FirstPosSnoc(init, e, d[i].term);
    }
  }

  /** One step of `DedupInOrder` when the appended hit's term was already kept. */
  lemma DedupInOrderSkip(init: seq<Hit>, e: Hit, d: seq<Hit>)
    requires InFirstPosOrder(init, d)
    ensures InFirstPosOrder(init + [e], d)
  {
    FirstPosKept(init, e, d);
    assert forall j :: 0 <= j < |init| ==> (init + [e])[j] == init[j];
  }

  /** One step of `DedupInOrder` when the appended hit brings a new term. */
  lemma DedupInOrderKeep(init: seq<Hit>, e: Hit, d: seq<Hit>)
    requires InFirstPosOrder(init, d) && e.term !in Terms(init)
    ensures InFirstPosOrder(init + [e], d + [e])
  {
    var hits, d' := init + [e], d + [e];
    FirstPosKept(init, e, d);
    FirstPosAbsent(init, e.term);
    FirstPosSnoc(init, e, e.term);
    assert forall j :: 0 <= j < |init| ==> hits[j] == init[j];
    assert forall i :: 0 <= i < |d| ==> d'[i] == d[i];
    assert d'[|d|] == e && FirstPos(hits, e.term) == |init| && hits[|init|] == e;
  }



  /**
    Deduplication keeps exactly one hit per term, namely the first hit
    carrying that term (`DedupInOrder` adds that they stay in input order).
   */
  lemma {:induction false} DedupKeepsFirst(hits: seq<Hit>)
    ensures var d := DedupByTerm(hits);
            DistinctTerms(d) && Terms(d) == Terms(hits) && |d| <= |hits| &&
            (forall i :: 0 <= i < |d| ==> FirstWithTerm(hits, d[i]))
  {
    DedupSameTerms(hits);
    if hits != [] {
      var init := hits[..|hits| - 1];
      var e := hits[|hits| - 1];
      DedupKeepsFirst(init);
      DedupSameTerms(init);
      assert hits == init + [e];
      DedupKeepsFirstStep(init, e, DedupByTerm(init));
    }
  }

  /** Distinct terms, no longer than `hits`, and each hit the first of its term in `hits` */
  predicate KeepsFirst(hits: seq<Hit>, d: seq<Hit>) {
    DistinctTerms(d) && |d| <= |hits| && forall i :: 0 <= i < |d| ==> FirstWithTerm(hits, d[i])
  }

  /** One step of `DedupKeepsFirst`: appending a hit keeps the property. */
  lemma DedupKeepsFirstStep(init: seq<Hit>, e: Hit, d: seq<Hit>)
    requires KeepsFirst(init, d) && Terms(d) == Terms(init)
    ensures KeepsFirst(init + [e], if e.term in Terms(d) then d else d + [e])
  {
    var hits := init + [e];
    forall i | 0 <= i < |d| ensures FirstWithTerm(hits, d[i]) {
      FirstWithTermExtends(init, e, d[i]);
    }
    if e.term !in Terms(d) {
      var d' := d + [e];
      forall i, j | 0 <= i < j < |d'| ensures d'[i].term != d'[j].term {
        if j == |d| {
          assert d[i] in d;
        }
      }
      forall j | 0 <= j < |init| ensures hits[j].term != e.term {
        assert init[j] in init;
      }
      assert hits[|hits| - 1] == e;
      assert FirstWithTerm(hits, e);
    }
  }


  /** Place `h` before the first hit that scores no higher (so after every hit that scores higher). */
  function InsertByScore(h: Hit, sorted: seq<Hit>): seq<Hit> {
    if sorted == [] || h.score >= sorted[0].score then [h] + sorted
    else [sorted[0]] + InsertByScore(h, sorted[1..])
  }

  /** `list.sort(key=score, reverse=True)`: a stable sort by descending score */
  function SortByScore(hits: seq<Hit>): seq<Hit> {
    if hits == [] then [] else InsertByScore(hits[0], SortByScore(hits[1..]))
  }

  /** The hits with score exactly `v`, in order */
  function WithScore(hits: seq<Hit>, v: real): seq<Hit> {
    if hits == [] then []
    else (if hits[0].score == v then [hits[0]] else []) + WithScore(hits[1..], v)
  }

  lemma {:induction false} WithScoreAppend(a: seq<Hit>, b: seq<Hit>, v: real)
    ensures WithScore(a + b, v) == WithScore(a, v) + WithScore(b, v)
  {
    if a != [] {
      assert (a + b)[1..] == a[1..] + b;
      WithScoreAppend(a[1..], b, v);
    } else {
      assert a + b == b;
    }
  }

  lemma WithScoreSingle(h: Hit, v: real)
    ensures WithScore([h], v) == if h.score == v then [h] else []
  {
    assert [h][1..] == [];
  }

  lemma {:induction false} InsertByScoreElements(h: Hit, sorted: seq<Hit>)
    ensures multiset(InsertByScore(h, sorted)) == multiset([h] + sorted)
    ensures forall x :: x in InsertByScore(h, sorted) <==> x == h || x in sorted
  {
    if sorted != [] && h.score < sorted[0].score {
      InsertByScoreElements(h, sorted[1..]);
      assert sorted == [sorted[0]] + sorted[1..];
    }
  }

  lemma {:induction false} InsertByScoreOrdered(h: Hit, sorted: seq<Hit>)
    requires NonIncreasing(sorted)
    ensures NonIncreasing(InsertByScore(h, sorted))
  {
    if sorted != [] && h.score < sorted[0].score {
      var rest := sorted[1..];
      InsertByScoreOrdered(h, rest);
      var ins := InsertByScore(h, rest);
      assert ins[0] == h || ins[0] == sorted[1];
      var r := [sorted[0]] + ins;
      forall i, j | 0 <= i < j < |r| ensures r[i].score >= r[j].score {
        assert r[j] == ins[j - 1];
        if i == 0 {
          assert ins[0].score >= ins[j - 1].score;
        } else {
          assert r[i] == ins[i - 1];
        }
      }
    }
  }

  lemma ConsDistinct(h: Hit, s: seq<Hit>, t: seq<Hit>)
    requires DistinctTerms([h] + t) && DistinctTerms(s) && multiset(s) == multiset(t)
    ensures DistinctTerms([h] + s)
  {
    var r := [h] + s;
    forall i, j | 0 <= i < j < |r| ensures r[i].term != r[j].term {
      assert r[j] == s[j - 1];
      if i == 0 {
        assert s[j - 1] in multiset(t);
        var q :| 0 <= q < |t| && t[q] == s[j - 1];
        assert ([h] + t)[q + 1] == t[q];
        assert ([h] + t)[0] == h == r[0];
        assert ([h] + t)[0].term != ([h] + t)[q + 1].term;
      } else {
        assert r[i] == s[i - 1];
      }
    }
  }

  lemma {:induction false} InsertByScoreDistinct(h: Hit, sorted: seq<Hit>)
    requires DistinctTerms([h] + sorted)
    ensures DistinctTerms(InsertByScore(h, sorted))
  {
    if sorted != [] && h.score < sorted[0].score {
      var s0 := sorted[0];
      var rest := sorted[1..];
      var hs := [h] + sorted;
      assert DistinctTerms([h] + rest) by {
        forall i, j | 0 <= i < j < |[h] + rest| ensures ([h] + rest)[i].term != ([h] + rest)[j].term {
          assert ([h] + rest)[j] == hs[j + 1];
          if i > 0 {
            assert ([h] + rest)[i] == hs[i + 1];
          } else {
            assert ([h] + rest)[i] == hs[0];
          }
        }
      }
      InsertByScoreDistinct(h, rest);
      InsertByScoreElements(h, rest);
      var ins := InsertByScore(h, rest);
      var r := [s0] + ins;
      forall i, j | 0 <= i < j < |r| ensures r[i].term != r[j].term {
        assert r[j] == ins[j - 1];
        if i == 0 {
          assert ins[j - 1] in ins;
          assert hs[1] == s0;
          if ins[j - 1] == h {
            assert hs[0] == h;
          } else {
            var q :| 0 <= q < |rest| && rest[q] == ins[j - 1];
            assert hs[q + 2] == rest[q];
          }
        } else {
          assert r[i] == ins[i - 1];
        }
      }
    }
  }

  /** Two hits of different scores cannot both have score `v`, so one of their filters is empty. */
  lemma UnequalScoresFilter(a: Hit, b: Hit, v: real)
    requires a.score != b.score
    ensures WithScore([a], v) == [] || WithScore([b], v) == []
  {
    WithScoreSingle(a, v);
    WithScoreSingle(b, v);
  }

  /** Prepending two pieces one of which is empty does not depend on their order. */
  lemma SwapEmpty<T>(x: seq<T>, y: seq<T>, tail: seq<T>)
    requires x == [] || y == []
    ensures x + (y + tail) == y + (x + tail)
  {
    if x == [] {
      assert x + (y + tail) == y + tail;
    } else {
      assert y + (x + tail) == x + tail;
    }
  }

  lemma {:induction false} InsertByScoreStable(h: Hit, sorted: seq<Hit>, v: real)
    ensures WithScore(InsertByScore(h, sorted), v) == WithScore([h] + sorted, v)
  {
    if sorted != [] && h.score < sorted[0].score {
      var s0 := sorted[0];
      var rest := sorted[1..];
      InsertByScoreStable(h, rest, v);
      var ins := InsertByScore(h, rest);
      calc {
        WithScore(InsertByScore(h, sorted), v);
        WithScore([s0] + ins, v);
        { WithScoreAppend([s0], ins, v); }
        WithScore([s0], v) + WithScore(ins, v);
        { InsertByScoreStable(h, rest, v); WithScoreAppend([h], rest, v); }
        WithScore([s0], v) + (WithScore([h], v) + WithScore(rest, v));
        { UnequalScoresFilter(s0, h, v); SwapEmpty(WithScore([s0], v), WithScore([h], v), WithScore(rest, v)); }
        WithScore([h], v) + (WithScore([s0], v) + WithScore(rest, v));
        { WithScoreAppend([s0], rest, v); assert [s0] + rest == sorted; }
        WithScore([h], v) + WithScore(sorted, v);
        { WithScoreAppend([h], sorted, v); }
        WithScore([h] + sorted, v);
      }
    }
  }

  /**
    The sort returns a permutation of its input, ordered by non-increasing
    score; hits of equal score keep their input order (stability), and
    distinct terms stay distinct.
   */
  lemma {:induction false} SortByScoreSpec(hits: seq<Hit>)
    ensures multiset(SortByScore(hits)) == multiset(hits)
    ensures NonIncreasing(SortByScore(hits))
    ensures forall v :: WithScore(SortByScore(hits), v) == WithScore(hits, v)
    ensures DistinctTerms(hits) ==> DistinctTerms(SortByScore(hits))
  {
    SortByScorePermutes(hits);
    SortByScoreOrdered(hits);
    forall v ensures WithScore(SortByScore(hits), v) == WithScore(hits, v) {
      SortByScoreStable(hits, v);
    }
    if DistinctTerms(hits) {
      SortByScoreDistinct(hits);
    }
  }

  lemma {:induction false} SortByScorePermutes(hits: seq<Hit>)
    ensures multiset(SortByScore(hits)) == multiset(hits)
  {
    if hits != [] {
      SortByScorePermutes(hits[1..]);
      InsertByScoreElements(hits[0], SortByScore(hits[1..]));
      assert hits == [hits[0]] + hits[1..];
    }
  }

  lemma {:induction false} SortByScoreOrdered(hits: seq<Hit>)
    ensures NonIncreasing(SortByScore(hits))
  {
    if hits != [] {
      SortByScoreOrdered(hits[1..]);
      InsertByScoreOrdered(hits[0], SortByScore(hits[1..]));
    }
  }

  lemma {:induction false} SortByScoreStable(hits: seq<Hit>, v: real)
    ensures WithScore(SortByScore(hits), v) == WithScore(hits, v)
  {
    if hits != [] {
      var h, tail := hits[0], hits[1..];
      var rest := SortByScore(tail);
      SortByScoreStable(tail, v);
      InsertByScoreStable(h, rest, v);
      WithScoreAppend([h], rest, v);
      WithScoreAppend([h], tail, v);
      assert hits == [h] + tail;
    }
  }

  lemma {:induction false} SortByScoreDistinct(hits: seq<Hit>)
    requires DistinctTerms(hits)
    ensures DistinctTerms(SortByScore(hits))
  {
    if hits != [] {
      var h, tail := hits[0], hits[1..];
      var rest := SortByScore(tail);
      assert hits == [h] + tail;
      assert DistinctTerms(tail) by {
        forall i, j | 0 <= i < j < |tail| ensures tail[i].term != tail[j].term {
          assert tail[i] == hits[i + 1] && tail[j] == hits[j + 1];
        }
      }
      SortByScoreDistinct(tail);
      SortByScorePermutes(tail);
      ConsDistinct(h, rest, tail);
      InsertByScoreDistinct(h, rest);
    }
  }

  /** The hits merged from the sources of `generate_context`, before deduplication */
  function KeywordHits(rows: seq<Entry>, similarity: string -> Similarity, keywords: seq<string>): seq<Hit> {
    if keywords == [] then []
    else KeywordHits(rows, similarity, keywords[..|keywords| - 1]) +
         RelevantEntries(rows, similarity(keywords[|keywords| - 1]), KeywordTopK)
  }

  /**
    The candidates of `generate_context`: the direct matches alone when there
    are any; otherwise the hits for the whole text followed by the hits for
    each keyword, in keyword order.
   */
  function ContextSources(rows: seq<Entry>, similarity: string -> Similarity, text: string): seq<Hit> {
    var direct := DirectMatches(rows, Lower(text));
    if direct != [] then direct
    else RelevantEntries(rows, similarity(text), TextTopK) +
         KeywordHits(rows, similarity, KeywordsOf(rows, text, DefaultMaxKeywords))
  }

  /** Deduplicate, sort by descending score, keep the first five */
  function RankEntries(hits: seq<Hit>): seq<Hit> {
    var sorted := SortByScore(DedupByTerm(hits));
    sorted[..Min(ContextCap, |sorted|)]
  }

  function ContextEntries(rows: seq<Entry>, similarity: string -> Similarity, text: string): seq<Hit> {
    RankEntries(ContextSources(rows, similarity, text))
  }

  function Block(h: Hit): string {
    "Symbol: " + h.term + "\n" + "Meaning: " + h.details + "\n\n"
  }

  function Blocks(hits: seq<Hit>): string {
    if hits == [] then "" else Blocks(hits[..|hits| - 1]) + Block(hits[|hits| - 1])
  }

  /** The context block handed to the language model */
  function Render(hits: seq<Hit>): string {
    ContextHeader + Blocks(hits)
  }

  /** Appending one more piece adds exactly its length, and it ends the text. */
  lemma BlocksLength(hits: seq<Hit>)
    requires hits != []
    ensures |Blocks(hits)| == |Blocks(hits[..|hits| - 1])| + |Block(hits[|hits| - 1])|
    ensures IsSuffix(Block(hits[|hits| - 1]), Blocks(hits))
  {
  }

  /**
    Blocks tile the text: the next block starts where the i-th ends, and the
    last block ends the text.
   */
  lemma BlocksTile(hits: seq<Hit>)
    ensures forall i :: 0 <= i < |hits| ==> |Blocks(hits[..i + 1])| == |Blocks(hits[..i])| + |Block(hits[i])|
    ensures hits != [] ==> IsSuffix(Block(hits[|hits| - 1]), Blocks(hits))
  {
    forall i | 0 <= i < |hits| ensures |Blocks(hits[..i + 1])| == |Blocks(hits[..i])| + |Block(hits[i])| {
      var pre := hits[..i + 1];
      assert pre[..|pre| - 1] == hits[..i] && pre[|pre| - 1] == hits[i];
      BlocksLength(pre);
    }
    if hits != [] {
      BlocksLength(hits);
    }
  }

  /** The block of the i-th hit sits right after the blocks of the hits before it. */
  lemma {:induction false} BlocksLayout(hits: seq<Hit>)
    ensures forall i :: 0 <= i < |hits| ==> OccursAt(Blocks(hits), Block(hits[i]), |Blocks(hits[..i])|)
  {
    if hits != [] {
      var init := hits[..|hits| - 1];
      var last := hits[|hits| - 1];
      BlocksLayout(init);
      assert Blocks(hits) == Blocks(init) + Block(last);
      forall i | 0 <= i < |hits| ensures OccursAt(Blocks(hits), Block(hits[i]), |Blocks(hits[..i])|) {
        if i < |init| {
          assert hits[..i] == init[..i];
          assert hits[i] == init[i];
          OccursInLeft(Blocks(init), Block(last), Block(hits[i]), |Blocks(init[..i])|);
        } else {
          assert hits[..i] == init;
          assert OccursAt(Block(last), Block(last), 0);
          OccursInRight(Blocks(init), Block(last), Block(last), 0);
        }
      }
    }
  }

  /**
    The rendered context starts with the fixed header, followed by one
    `Symbol:`/`Meaning:` block per hit, in order.
   */
  lemma RenderLayout(hits: seq<Hit>)
    ensures IsPrefix(ContextHeader, Render(hits))
    ensures forall i :: 0 <= i < |hits| ==>
              OccursAt(Render(hits), Block(hits[i]), |ContextHeader| + |Blocks(hits[..i])|)
  {
    var blocks := Blocks(hits);
    assert Render(hits)[..|ContextHeader|] == ContextHeader;
    BlocksLayout(hits);
    forall i | 0 <= i < |hits|
      ensures OccursAt(Render(hits), Block(hits[i]), |ContextHeader| + |Blocks(hits[..i])|)
    {
      OccursInRight(ContextHeader, blocks, Block(hits[i]), |Blocks(hits[..i])|);
    }
  }

  /** Nothing follows the last block: it ends the context, and no entries leave the bare header. */
  lemma RenderEnds(hits: seq<Hit>)
    ensures hits != [] ==> IsSuffix(Block(hits[|hits| - 1]), Render(hits))
    ensures hits == [] ==> Render(hits) == ContextHeader
  {
    BlocksTile(hits);
  }

  lemma SortedMembers(hits: seq<Hit>)
    ensures forall x :: x in SortByScore(hits) <==> x in hits
  {
    SortByScorePermutes(hits);
    assert forall x :: x in SortByScore(hits) <==> x in multiset(SortByScore(hits));
  }

  /**
    The entries `generate_context` keeps: at most five, with pairwise distinct
    terms, each the first hit among the sources carrying its term, ordered by
    non-increasing score, with hits of equal score in deduplication order.
   */
  lemma RankEntriesSpec(hits: seq<Hit>)
    ensures var top := RankEntries(hits);
            |top| <= ContextCap && DistinctTerms(top) && NonIncreasing(top) &&
            (forall i :: 0 <= i < |top| ==> FirstWithTerm(hits, top[i])) &&
            (forall v :: WithScore(top, v) <= WithScore(DedupByTerm(hits), v))
    ensures |RankEntries(hits)| == Min(ContextCap, |DedupByTerm(hits)|)
    ensures forall h, i :: h in DedupByTerm(hits) && h !in RankEntries(hits) && 0 <= i < |RankEntries(hits)| ==>
              h.score <= RankEntries(hits)[i].score
  {
    RankEntriesBest(hits);
    RankEntriesOrdered(hits);
    RankEntriesFirst(hits);
    RankEntriesStable(hits);
  }

  lemma RankEntriesOrdered(hits: seq<Hit>)
    ensures var top := RankEntries(hits);
            |top| <= ContextCap && DistinctTerms(top) && NonIncreasing(top)
    ensures |RankEntries(hits)| == Min(ContextCap, |DedupByTerm(hits)|)
  {
    var d := DedupByTerm(hits);
    DedupKeepsFirst(hits);
    SortByScoreSpec(d);
    assert |SortByScore(d)| == |multiset(SortByScore(d))| == |d|;
  }

  /**
    The cap keeps the best: as many entries as the cap allows, and every
    deduplicated hit left out scores no higher than any kept one.
   */
  lemma RankEntriesBest(hits: seq<Hit>)
    ensures |RankEntries(hits)| == Min(ContextCap, |DedupByTerm(hits)|)
    ensures forall h, i :: h in DedupByTerm(hits) && h !in RankEntries(hits) && 0 <= i < |RankEntries(hits)| ==>
              h.score <= RankEntries(hits)[i].score
  {
    var d := DedupByTerm(hits);
    var sorted := SortByScore(d);
    var top := RankEntries(hits);
    SortByScorePermutes(d);
    SortByScoreOrdered(d);
    assert |sorted| == |multiset(sorted)| == |d|;
    SortedMembers(d);
    forall h | h in d && h !in top ensures forall i :: 0 <= i < |top| ==> h.score <= top[i].score {
      LeftOutScoresLower(sorted, |top|, h);
    }
  }

  /** In a list sorted by non-increasing score, an element outside a prefix scores no higher than the prefix. */
  lemma LeftOutScoresLower(sorted: seq<Hit>, n: nat, h: Hit)
    requires NonIncreasing(sorted) && n <= |sorted|
    requires h in sorted && h !in sorted[..n]
    ensures forall i :: 0 <= i < n ==> h.score <= sorted[i].score
  {
    var p :| 0 <= p < |sorted| && sorted[p] == h;
    assert p >= n;
  }

  lemma RankEntriesFirst(hits: seq<Hit>)
    ensures var top := RankEntries(hits);
            forall i :: 0 <= i < |top| ==> FirstWithTerm(hits, top[i])
  {
    var d := DedupByTerm(hits);
    var sorted := SortByScore(d);
    var top := sorted[..Min(ContextCap, |sorted|)];
    DedupKeepsFirst(hits);
    SortedMembers(d);
    forall i | 0 <= i < |top| ensures FirstWithTerm(hits, top[i]) {
      assert top[i] == sorted[i];
      assert sorted[i] in sorted;
    }
  }

  lemma RankEntriesStable(hits: seq<Hit>)
    ensures var top := RankEntries(hits);
            forall v :: WithScore(top, v) <= WithScore(DedupByTerm(hits), v)
  {
    var d := DedupByTerm(hits);
    var sorted := SortByScore(d);
    var top := sorted[..Min(ContextCap, |sorted|)];
    forall v ensures WithScore(top, v) <= WithScore(d, v) {
      SortByScoreSpec(d);
      assert sorted == top + sorted[|top|..];
      WithScoreAppend(top, sorted[|top|..], v);
    }
  }


  /**
    Direct matches short-circuit the vector index: when some row's term occurs
    in the text, the result does not depend on the similarity oracle, and every
    returned hit is a direct match scored 1.0.
   */
  lemma DirectMatchesShortCircuit(rows: seq<Entry>, sim1: string -> Similarity, sim2: string -> Similarity, text: string)
    requires exists k :: 0 <= k < |rows| && TermOccurs(rows[k], Lower(text))
    ensures ContextEntries(rows, sim1, text) == ContextEntries(rows, sim2, text)
    ensures forall h :: h in ContextEntries(rows, sim1, text) ==>
              h.score == DirectScore && h in DirectMatches(rows, Lower(text))
  {
    DirectMatchesExactly(rows, Lower(text));
    var direct := DirectMatches(rows, Lower(text));
    RankEntriesSpec(direct);
  }

  /** A sort of hits that all score the same changes nothing (the sort is stable). */
  lemma {:induction false} SortByScoreAllEqual(hits: seq<Hit>, v: real)
    requires forall i :: 0 <= i < |hits| ==> hits[i].score == v
    ensures SortByScore(hits) == hits
  {
    if hits != [] {
      SortByScoreAllEqual(hits[1..], v);
      assert hits == [hits[0]] + hits[1..];
    }
  }

  /** Every deduplicated hit is one of the hits. */
  lemma DedupSubset(hits: seq<Hit>)
    ensures forall h :: h in DedupByTerm(hits) ==> h in hits
  {
    DedupKeepsFirst(hits);
  }

  /**
    When a term occurs in the dream, the context entries are the first five
    deduplicated direct matches in corpus order: all score 1.0, so the stable
    sort leaves them where deduplication put them.
   */
  lemma DirectContextInCorpusOrder(rows: seq<Entry>, similarity: string -> Similarity, text: string)
    requires exists k :: 0 <= k < |rows| && TermOccurs(rows[k], Lower(text))
    ensures var d := DedupByTerm(DirectMatches(rows, Lower(text)));
            ContextEntries(rows, similarity, text) == d[..Min(ContextCap, |d|)]
  {
    var direct := DirectMatches(rows, Lower(text));
    DirectMatchesExactly(rows, Lower(text));
    assert ContextSources(rows, similarity, text) == direct;
    var d := DedupByTerm(direct);
    DedupSubset(direct);
    assert forall i :: 0 <= i < |d| ==> d[i] in direct;
    SortByScoreAllEqual(d, DirectScore);
  }

  /**
    Two rows, both named in the dream: both come back scored 1.0, and the tie
    keeps corpus order, whatever the vector index would say.
   */
  lemma WaterAndSnakeScenario(similarity: string -> Similarity)
    ensures var water := LoadEntry("Water", "Represents emotion", "Emotion");
            var snake := LoadEntry("Snake", "Represents transformation", "Transformation");
            ContextEntries([water, snake], similarity, "I saw a snake near water") ==
              [HitOf(water, DirectScore), HitOf(snake, DirectScore)]
  {
    var water := LoadEntry("Water", "Represents emotion", "Emotion");
    var snake := LoadEntry("Snake", "Represents transformation", "Transformation");
    ScenarioDirectMatches(water, snake);
    ScenarioRanking(HitOf(water, DirectScore), HitOf(snake, DirectScore));
  }

  lemma ScenarioLower()
    ensures Lower("I saw a snake near water") == "i saw a snake near water"
  {
  }

  lemma ScenarioTermsLower()
    ensures Lower("Water") == "water" && Lower("Snake") == "snake"
  {
  }

  lemma ScenarioDirectMatches(water: Entry, snake: Entry)
    requires water == LoadEntry("Water", "Represents emotion", "Emotion")
    requires snake == LoadEntry("Snake", "Represents transformation", "Transformation")
    ensures DirectMatches([water, snake], Lower("I saw a snake near water")) ==
              [HitOf(water, DirectScore), HitOf(snake, DirectScore)]
  {
    ScenarioLower();
    ScenarioTermsLower();
    var textLower := "i saw a snake near water";
    assert water.termLower == "water" && snake.termLower == "snake";
    assert textLower[19..24] == "water" && OccursAt(textLower, "water", 19);
    assert textLower[8..13] == "snake" && OccursAt(textLower, "snake", 8);
    assert TermOccurs(water, textLower) && TermOccurs(snake, textLower);
    assert [water, snake][..1] == [water] && [water][..0] == [];
    assert DirectMatches([water], textLower) == [HitOf(water, DirectScore)];
  }

  /** Two hits of equal score and different terms keep their order. */
  lemma ScenarioRanking(w: Hit, k: Hit)
    requires w.score == k.score && w.term != k.term
    ensures RankEntries([w, k]) == [w, k]
  {
    assert [w, k][..1] == [w];
    assert DedupByTerm([w]) == [w];
    assert DedupByTerm([w, k]) == [w, k];
    assert [w, k][1..] == [k] && [k][1..] == [];
    assert SortByScore([k]) == InsertByScore(k, []) == [k];
    assert SortByScore([w, k]) == InsertByScore(w, [k]) == [w, k];
  }

  /** An index that scores nothing above the threshold yields no hits. */
  lemma NoHitsBelowThreshold(rows: seq<Entry>, sim: Similarity, topK: nat)
    requires forall k :: 0 <= k < |sim.scores| ==> sim.scores[k] <= RelevanceThreshold
    ensures RelevantEntries(rows, sim, topK) == []
  {
    CollectNothingBelow(rows, sim.scores, TopIndices(sim.ascending, topK));
  }

  lemma {:induction false} CollectNothingBelow(rows: seq<Entry>, scores: seq<real>, indices: seq<nat>)
    requires forall k :: 0 <= k < |scores| ==> scores[k] <= RelevanceThreshold
    ensures CollectHits(rows, scores, indices) in {None, Some([])}
  {
    if indices != [] {
      CollectNothingBelow(rows, scores, indices[..|indices| - 1]);
    }
  }

  /** Without empty terms, the empty text has no direct match and no keyword. */
  lemma EmptyTextNoMatches(rows: seq<Entry>)
    requires forall k :: 0 <= k < |rows| ==> rows[k].termLower != ""
    ensures DirectMatches(rows, Lower("")) == []
    ensures KeywordsOf(rows, "", DefaultMaxKeywords) == []
  {
    var empty: string := "";
    assert Lower(empty) == empty;
    forall k | 0 <= k < |rows| ensures !TermOccurs(rows[k], empty) {
      assert forall i :: !OccursAt(empty, rows[k].termLower, i);
    }
    DirectMatchesExactly(rows, empty);
    MatchedTermsAreFirstRows(rows, empty, |rows|);
    assert rows[..|rows|] == rows;
    assert Words(empty) == [];
    assert PotentialTerms([]) == [];
  }

  /**
    An empty dream, over a corpus without empty terms and an index that
    scores nothing above the threshold for it, ranks no entries, and the
    context is the bare header.
   */
  lemma EmptyDreamRendersHeaderOnly(rows: seq<Entry>, similarity: string -> Similarity)
    requires forall k :: 0 <= k < |rows| ==> rows[k].termLower != ""
    requires forall k :: 0 <= k < |similarity("").scores| ==> similarity("").scores[k] <= RelevanceThreshold
    ensures ContextEntries(rows, similarity, "") == []
    ensures Render(ContextEntries(rows, similarity, "")) == ContextHeader
  {
    EmptyTextNoMatches(rows);
    NoHitsBelowThreshold(rows, similarity(""), TextTopK);
    assert ContextSources(rows, similarity, "") == [];
    assert DedupByTerm([]) == [] && SortByScore([]) == [];
  }

  /** The dedup loop of `generate_context`: keep an entry when its term is not yet seen */
  method Deduplicate(allEntries: seq<Hit>) returns (uniqueEntries: seq<Hit>)
    ensures uniqueEntries == DedupByTerm(allEntries)
  {
    uniqueEntries := [];
    var seenTerms: set<string> := {};
    for i := 0 to |allEntries|
      invariant uniqueEntries == DedupByTerm(allEntries[..i])
      invariant seenTerms == Terms(uniqueEntries)
    {
      assert allEntries[..i + 1][..i] == allEntries[..i];
      var entry := allEntries[i];
      if entry.term !in seenTerms {
        TermsSnoc(uniqueEntries, entry);
        uniqueEntries := uniqueEntries + [entry];
        seenTerms := seenTerms + {entry.term};
      }
    }
    assert allEntries[..|allEntries|] == allEntries;
  }

  /** The rendering loop of `generate_context` */
  method RenderContext(topEntries: seq<Hit>) returns (context: string)
    ensures context == Render(topEntries)
  {
    context := ContextHeader;
    for i := 0 to |topEntries|
      invariant context == Render(topEntries[..i])
    {
      assert topEntries[..i + 1][..i] == topEntries[..i];
      context := context + "Symbol: " + topEntries[i].term + "\n";
      context := context + "Meaning: " + topEntries[i].details + "\n\n";
    }
    assert topEntries[..|topEntries|] == topEntries;
  }

  // ---------------------------------------------------------------------------
  // The class

  /**
    `DreamDictionaryRAG`: the loaded dictionary and the fitted vector index.
    Neither changes after construction.
   */
  class DreamDictionaryRAG {
    const corpus: seq<Entry>
    const similarity: string -> Similarity

    constructor (rows: seq<(string, string, string)>, similarity: string -> Similarity)
      ensures |corpus| == |rows|
      ensures forall k :: 0 <= k < |rows| ==> corpus[k] == LoadEntry(rows[k].0, rows[k].1, rows[k].2)
      ensures this.similarity == similarity
    {
      corpus := seq(|rows|, k requires 0 <= k < |rows| => LoadEntry(rows[k].0, rows[k].1, rows[k].2));
      this.similarity := similarity;
    }

    /** Top-`topK` rows by similarity to `query`, each scored above 0.01 */
    method RetrieveRelevantEntries(query: string, topK: nat) returns (entries: seq<Hit>)
      ensures entries == RelevantEntries(corpus, similarity(query), topK)
    {
      var sim := similarity(query);
      var scores := sim.scores;
      var topIndices := TopIndices(sim.ascending, topK);
      entries := [];
      for i := 0 to |topIndices|
        invariant CollectHits(corpus, scores, topIndices[..i]) == Some(entries)
      {
        assert topIndices[..i + 1][..i] == topIndices[..i];
        var idx := topIndices[i];
        if idx >= |scores| {
          CollectHitsFailureSticks(corpus, scores, topIndices, i + 1);
          return [];
        }
        if scores[idx] > RelevanceThreshold {
          if idx >= |corpus| {
            CollectHitsFailureSticks(corpus, scores, topIndices, i + 1);
            return [];
          }
          entries := entries + [HitOf(corpus[idx], scores[idx])];
        }
      }
      assert topIndices[..|topIndices|] == topIndices;
    }

    /** Keywords of `text`: direct term matches first, otherwise the n-gram scan */
    method ExtractKeywords(text: string, maxKeywords: nat) returns (keywords: seq<string>)
      ensures keywords == KeywordsOf(corpus, text, maxKeywords)
    {
      var textLower := Lower(text);
      var words := Words(textLower);
      var potentialTerms := PotentialTerms(words);

      var matched := MatchTerms(textLower);
      if matched != [] {
        return matched[..Min(maxKeywords, |matched|)];
      }

      var collected := ScanCandidates(potentialTerms, maxKeywords);
      keywords := Distinct(collected);
    }

    /** The fallback loop of `extract_keywords`: one related term per kept candidate, stopping once `maxKeywords` are collected */
    method ScanCandidates(potentialTerms: seq<string>, maxKeywords: nat) returns (collected: seq<string>)
      ensures collected == Scan(corpus, potentialTerms, maxKeywords, [])
    {
      collected := [];
      var i := 0;
      while i < |potentialTerms|
        invariant 0 <= i <= |potentialTerms|
        invariant Scan(corpus, potentialTerms, maxKeywords, []) == Scan(corpus, potentialTerms[i..], maxKeywords, collected)
      {
        var candidate := potentialTerms[i];
        assert potentialTerms[i..][1..] == potentialTerms[i + 1..];
        if Skipped(candidate) {
          i := i + 1;
          continue;
        }
        var related := FindRelated(candidate);
        if related.Some? {
          collected := collected + [related.value];
        }
        if |collected| >= maxKeywords {
          break;
        }
        i := i + 1;
      }
    }

    /** The direct-match loop of `extract_keywords`: the original term of each row whose lowercase term occurs */
    method MatchTerms(textLower: string) returns (matched: seq<string>)
      ensures matched == MatchedTerms(corpus, textLower, |corpus|)
    {
      matched := [];
      for i := 0 to |corpus|
        invariant matched == MatchedTerms(corpus, textLower, i)
      {
        var tl := corpus[i].termLower;
        if Contains(textLower, tl) {
          var original := corpus[FirstIndexWithLower(corpus, tl, 0)].term;
          matched := matched + [original];
        }
      }
    }

    /** The inner loop of the fallback: the term of the first row related to `candidate`, stopping there */
    method FindRelated(candidate: string) returns (related: Option<string>)
      ensures related == FirstRelated(corpus, candidate)
    {
      var j := 0;
      while j < |corpus|
        invariant 0 <= j <= |corpus|
        invariant FirstRelated(corpus, candidate) == FirstRelated(corpus[j..], candidate)
      {
        assert corpus[j..][1..] == corpus[j + 1..];
        if Related(corpus[j], candidate) {
          return Some(corpus[j].term);
        }
        j := j + 1;
      }
      return None;
    }

    /** Rows whose lowercase term occurs in the lowercased text, scored 1.0 */
    method DirectTermLookup(text: string) returns (matches: seq<Hit>)
      ensures matches == DirectMatches(corpus, Lower(text))
    {
      matches := [];
      var textLower := Lower(text);
      for i := 0 to |corpus|
        invariant matches == DirectMatches(corpus[..i], textLower)
      {
        assert corpus[..i + 1][..i] == corpus[..i];
        var row := corpus[i];
        if Contains(textLower, row.termLower) {
          matches := matches + [HitOf(row, DirectScore)];
        }
      }
      assert corpus[..|corpus|] == corpus;
    }

    /** The per-keyword loop of `generate_context`: the single best hit of each keyword, in keyword order */
    method RetrieveForKeywords(keywords: seq<string>) returns (keywordEntries: seq<Hit>)
      ensures keywordEntries == KeywordHits(corpus, similarity, keywords)
    {
      keywordEntries := [];
      for i := 0 to |keywords|
        invariant keywordEntries == KeywordHits(corpus, similarity, keywords[..i])
      {
        assert keywords[..i + 1][..i] == keywords[..i];
        var entries := RetrieveRelevantEntries(keywords[i], KeywordTopK);
        keywordEntries := keywordEntries + entries;
      }
      assert keywords[..|keywords|] == keywords;
    }

    /** The context block for the language model and the entries it shows */
    method GenerateContext(dreamText: string) returns (context: string, topEntries: seq<Hit>)
      ensures topEntries == ContextEntries(corpus, similarity, dreamText)
      ensures context == Render(topEntries)
    {
      var directMatches := DirectTermLookup(dreamText);
      var allEntries: seq<Hit>;
      if directMatches != [] {
        allEntries := directMatches;
      } else {
        var keywords := ExtractKeywords(dreamText, DefaultMaxKeywords);
        var textEntries := RetrieveRelevantEntries(dreamText, TextTopK);
        var keywordEntries := RetrieveForKeywords(keywords);
        allEntries := textEntries + keywordEntries;
      }
      assert allEntries == ContextSources(corpus, similarity, dreamText);

      var uniqueEntries := Deduplicate(allEntries);
      uniqueEntries := SortByScore(uniqueEntries);
      topEntries := uniqueEntries[..Min(ContextCap, |uniqueEntries|)];
      context := RenderContext(topEntries);
    }
  }
}
