/**
  The string post-processing of the `/interpret` endpoint: the dictionary
  context it looks up, the interpretation it cuts out of the language
  model's output, the symbol list it prepends when that output mentions none
  of the top symbols, and the truncated symbols it returns.
  The language model itself is a parameter: its output, or `None` when the
  call raised.
 */
module Interpret {
  import opened Strings
  import opened RagUtils

  /** A symbol in the response: term, shortened meaning and score */
  datatype DreamSymbol = DreamSymbol(term: string, details: string, score: real)

  /** The response body: the interpretation, the symbols and an optional error */
  datatype DreamResponse = DreamResponse(interpretation: string, symbols: seq<DreamSymbol>, error: Option<string>)

  const DetailsLimit: nat := 100
  const Ellipsis: string := "..."
  const NoDictionaryContext: string := "No dream dictionary available."
  const SystemMarker: string := "<|system|>"
  const DreamMarker: string := "Dream: "
  /** How many of the top entries the mention test looks at */
  const MentionWindow: nat := 3
  /** How many of the top entries the enhancement lists */
  const BulletWindow: nat := 5
  // The longer texts below are concatenations of short literals: the value
  // is the same string, and short literals keep the proofs about it cheap.
  const EnhancementHeader: string :=
    "Based on your dream, I've identified " +
    "these important symbols:\n\n"
  const EnhancementBridge: string :=
    "Considering these symbols together, " +
    "your dream suggests: "
  const GenerationFailedReply: string :=
    "I apologize, but I'm having trouble " +
    "interpreting your dream right now. " +
    "Please try again in a moment."
  const EndpointFailedReply: string :=
    "I'm having trouble interpreting your " +
    "dream right now. Please try again " +
    "later."
  const ModelNotInitialized: string := "Model not initialized"

  // Details truncation

  /** A meaning longer than 100 characters is cut to its first 100 and marked with "..." */
  function TruncateDetails(details: string): (r: string)
    ensures |r| <= DetailsLimit + |Ellipsis|
    ensures |details| <= DetailsLimit ==> r == details
    ensures |details| > DetailsLimit ==>
              |r| == DetailsLimit + |Ellipsis| && IsPrefix(r[..DetailsLimit], details) && IsSuffix(Ellipsis, r)
  {
    if |details| > DetailsLimit then details[..DetailsLimit] + Ellipsis else details
  }

  /** Truncating a truncated meaning changes nothing. */
  lemma TruncateDetailsIdempotent(details: string)
    ensures TruncateDetails(TruncateDetails(details)) == TruncateDetails(details)
  {
    if |details| > DetailsLimit {
      var r := TruncateDetails(details);
      assert r[..DetailsLimit] == details[..DetailsLimit];
    }
  }

  /** The response symbol made from a ranked entry */
  function SymbolOf(entry: Hit): DreamSymbol {
    DreamSymbol(entry.term, TruncateDetails(entry.details), entry.score)
  }

  /** One symbol per entry, in entry order, with term and score copied and the meaning truncated */
  method ToSymbols(entries: seq<Hit>) returns (symbols: seq<DreamSymbol>)
    ensures |symbols| == |entries|
    ensures forall i :: 0 <= i < |entries| ==>
              symbols[i].term == entries[i].term && symbols[i].score == entries[i].score &&
              symbols[i].details == TruncateDetails(entries[i].details)
  {
    symbols := [];
    for i := 0 to |entries|
      invariant |symbols| == i
      invariant forall k :: 0 <= k < i ==> symbols[k] == SymbolOf(entries[k])
    {
      var details := if |entries[i].details| > DetailsLimit then entries[i].details[..DetailsLimit] + Ellipsis else entries[i].details;
      symbols := symbols + [DreamSymbol(entries[i].term, details, entries[i].score)];
    }
  }

  // Cutting the interpretation out of the generated text

  /** The marker that closes the prompt: the dream as the prompt quotes it */
  function PromptEnd(dreamText: string): (m: string)
    ensures IsPrefix(DreamMarker, m) && m[|DreamMarker|..] == dreamText
  {
    DreamMarker + dreamText
  }

  /**
    The interpretation within the generated text: the stripped piece after
    the prompt's closing marker, else the stripped piece after the system
    marker, else the whole text.
   */
  function ExtractInterpretation(generated: string, dreamText: string): string {
    var promptEnd := PromptEnd(dreamText);
    if Contains(generated, promptEnd) then Strip(SecondPiece(generated, promptEnd))
    else if Contains(generated, SystemMarker) then Strip(SecondPiece(generated, SystemMarker))
    else generated
  }

  /** A piece of a string that does not contain `p` has no stripped part containing `p`. */
  lemma StripKeepsAbsence(s: string, p: string)
    requires !Contains(s, p)
    ensures !Contains(Strip(s), p)
  {
    var r := Strip(s);
    var i :| 0 <= i <= |s| - |r| && OccursAt(s, r, i) && AllSpace(s[..i]) && AllSpace(s[i + |r|..]);
    ContainsAt(s, r, i);
    if Contains(r, p) {
      ContainsTransitive(s, r, p);
    }
  }

  /**
    The interpretation lies between the first occurrence of the marker and
    the next one (or the end of the text), with surrounding whitespace
    removed, and holds no occurrence of the marker.
   */
  predicate CutAfter(generated: string, marker: string, r: string)
    requires |marker| > 0 && Contains(generated, marker)
  {
    var start := IndexOf(generated, marker) + |marker|;
    exists e | start <= e <= |generated| ::
      (e == |generated| || OccursAt(generated, marker, e)) &&
      (forall k :: start <= k < e ==> !OccursAt(generated, marker, k)) &&
      !Contains(generated[start..e], marker) &&
      r == Strip(generated[start..e]) && !Contains(r, marker)
  }

  lemma SecondPieceCut(generated: string, marker: string)
    requires |marker| > 0 && Contains(generated, marker)
    ensures CutAfter(generated, marker, Strip(SecondPiece(generated, marker)))
  {
    var start, e := SecondPieceBounds(generated, marker);
    var piece := SecondPiece(generated, marker);
    StripKeepsAbsence(piece, marker);
    CutAt(generated, marker, e, Strip(piece));
  }

  /** A cut is witnessed by its end. */
  lemma CutAt(generated: string, marker: string, e: int, r: string)
    requires |marker| > 0 && Contains(generated, marker)
    requires IndexOf(generated, marker) + |marker| <= e <= |generated|
    requires e == |generated| || OccursAt(generated, marker, e)
    requires forall k :: IndexOf(generated, marker) + |marker| <= k < e ==> !OccursAt(generated, marker, k)
    requires !Contains(generated[IndexOf(generated, marker) + |marker|..e], marker)
    requires r == Strip(generated[IndexOf(generated, marker) + |marker|..e]) && !Contains(r, marker)
    ensures CutAfter(generated, marker, r)
  {
  }

  /** Which branch of the extraction applies, and what each yields */
  lemma ExtractInterpretationSpec(generated: string, dreamText: string)
    ensures var promptEnd := PromptEnd(dreamText);
            var r := ExtractInterpretation(generated, dreamText);
            (Contains(generated, promptEnd) ==> CutAfter(generated, promptEnd, r)) &&
            (!Contains(generated, promptEnd) && Contains(generated, SystemMarker) ==> CutAfter(generated, SystemMarker, r)) &&
            (!Contains(generated, promptEnd) && !Contains(generated, SystemMarker) ==> r == generated)
  {
    var promptEnd := PromptEnd(dreamText);
    if Contains(generated, promptEnd) {
      SecondPieceCut(generated, promptEnd);
    } else if Contains(generated, SystemMarker) {
      SecondPieceCut(generated, SystemMarker);
    }
  }

  // The symbol-mention enhancement

  /** Some of the first three terms occurs, case-insensitively, in the interpretation */
  predicate MentionsSymbols(entries: seq<Hit>, interpretation: string) {
    exists k | 0 <= k < Min(MentionWindow, |entries|) :: Contains(Lower(interpretation), Lower(entries[k].term))
  }

  predicate NeedsEnhancement(entries: seq<Hit>, interpretation: string) {
    |entries| > 0 && !MentionsSymbols(entries, interpretation)
  }

  function Bullet(entry: Hit): string {
    "\U{2022} " + entry.term + ": " + entry.details + "\n\n"
  }

  function Bullets(entries: seq<Hit>): string {
    if entries == [] then "" else Bullets(entries[..|entries| - 1]) + Bullet(entries[|entries| - 1])
  }

  /** The header, a bullet for each of the first five entries, the bridge and the original interpretation */
  function Enhanced(entries: seq<Hit>, interpretation: string): string {
    EnhancementHeader + Bullets(entries[..Min(BulletWindow, |entries|)]) + EnhancementBridge + interpretation
  }

  /** The enhancement's loop: one bullet per entry among the first five */
  method ComposeBullets(entries: seq<Hit>) returns (bullets: string)
    ensures bullets == Bullets(entries)
  {
    bullets := "";
    for i := 0 to |entries|
      invariant bullets == Bullets(entries[..i])
    {
      assert entries[..i + 1][..i] == entries[..i];
      bullets := bullets + "\U{2022} " + entries[i].term + ": " + entries[i].details + "\n\n";
    }
    assert entries[..|entries|] == entries;
  }

  /**
    The interpretation, with the listed symbols put in front of it when there
    are entries and it mentions none of the first three. The original text is
    always kept at the end, and the text changes exactly when it is enhanced.
   */
  method EnhanceInterpretation(entries: seq<Hit>, interpretation: string) returns (result: string)
    ensures NeedsEnhancement(entries, interpretation) ==> result == Enhanced(entries, interpretation)
    ensures !NeedsEnhancement(entries, interpretation) ==> result == interpretation
    ensures IsSuffix(interpretation, result)
    ensures result == interpretation <==> !NeedsEnhancement(entries, interpretation)
    ensures NeedsEnhancement(entries, interpretation) ==> IsPrefix(EnhancementHeader, result)
  {
    result := interpretation;
    if |entries| > 0 {
      var interpretationLower := Lower(interpretation);
      var mentionsSymbols := exists k | 0 <= k < Min(MentionWindow, |entries|) :: Contains(interpretationLower, Lower(entries[k].term));
      if !mentionsSymbols {
        var bullets := ComposeBullets(entries[..Min(BulletWindow, |entries|)]);
        result := EnhancementHeader + bullets + EnhancementBridge + interpretation;
        assert result[|result| - |interpretation|..] == interpretation;
        assert result[..|EnhancementHeader|] == EnhancementHeader;
      }
    }
  }

  /** Case folding distributes over an occurrence. */
  lemma LowerOccurs(s: string, p: string, i: int)
    requires OccursAt(s, p, i)
    ensures OccursAt(Lower(s), Lower(p), i)
  {
    assert forall k :: 0 <= k < |p| ==> Lower(s)[i + k] == LowerChar(s[i + k]) == LowerChar(p[k]);
    assert Lower(s)[i..i + |p|] == Lower(p);
  }

  /** An enhanced interpretation names the top entry, so it no longer needs enhancement. */
  lemma EnhancedMentionsSymbols(entries: seq<Hit>, interpretation: string)
    requires |entries| > 0
    ensures MentionsSymbols(entries, Enhanced(entries, interpretation))
    ensures !NeedsEnhancement(entries, Enhanced(entries, interpretation))
  {
    var term := entries[0].term;
    var bullets := Bullets(entries[..Min(BulletWindow, |entries|)]);
    var i := |EnhancementHeader| + |"\U{2022} "|;
    BulletNamesTerm(entries[..Min(BulletWindow, |entries|)]);
    OccursInRight(EnhancementHeader, bullets, term, |"\U{2022} "|);
    OccursInLeft(EnhancementHeader + bullets, EnhancementBridge, term, i);
    OccursInLeft(EnhancementHeader + bullets + EnhancementBridge, interpretation, term, i);
    var r := Enhanced(entries, interpretation);
    LowerOccurs(r, term, i);
    ContainsAt(Lower(r), Lower(term), i);
  }

  /** Appending one more piece adds exactly its length, and it ends the text. */
  lemma BulletsLength(entries: seq<Hit>)
    requires entries != []
    ensures |Bullets(entries)| == |Bullets(entries[..|entries| - 1])| + |Bullet(entries[|entries| - 1])|
    ensures IsSuffix(Bullet(entries[|entries| - 1]), Bullets(entries))
  {
  }

  /**
    Bullets tile the text: the next bullet starts where the i-th ends, and the
    last bullet ends the text.
   */
  lemma BulletsTile(entries: seq<Hit>)
    ensures forall i :: 0 <= i < |entries| ==>
              |Bullets(entries[..i + 1])| == |Bullets(entries[..i])| + |Bullet(entries[i])|
    ensures entries != [] ==> IsSuffix(Bullet(entries[|entries| - 1]), Bullets(entries))
  {
    forall i | 0 <= i < |entries|
      ensures |Bullets(entries[..i + 1])| == |Bullets(entries[..i])| + |Bullet(entries[i])|
    {
      var pre := entries[..i + 1];
      assert pre[..|pre| - 1] == entries[..i] && pre[|pre| - 1] == entries[i];
      BulletsLength(pre);
    }
    if entries != [] {
      BulletsLength(entries);
    }
  }

  /** The bullet of the i-th entry sits right after the bullets of the entries before it. */
  lemma {:induction false} BulletsLayout(entries: seq<Hit>)
    ensures forall i :: 0 <= i < |entries| ==>
              OccursAt(Bullets(entries), Bullet(entries[i]), |Bullets(entries[..i])|)
  {
    if entries != [] {
      var init := entries[..|entries| - 1];
      var last := entries[|entries| - 1];
      BulletsLayout(init);
      assert Bullets(entries) == Bullets(init) + Bullet(last);
      forall i | 0 <= i < |entries|
        ensures OccursAt(Bullets(entries), Bullet(entries[i]), |Bullets(entries[..i])|)
      {
        if i < |init| {
          assert entries[..i] == init[..i];
          assert entries[i] == init[i];
          OccursInLeft(Bullets(init), Bullet(last), Bullet(entries[i]), |Bullets(init[..i])|);
        } else {
          assert entries[..i] == init;
          assert OccursAt(Bullet(last), Bullet(last), 0);
          OccursInRight(Bullets(init), Bullet(last), Bullet(last), 0);
        }
      }
    }
  }

  /** The bullets show the first entry's term right after the first bullet sign. */
  lemma BulletNamesTerm(entries: seq<Hit>)
    requires |entries| > 0
    ensures OccursAt(Bullets(entries), entries[0].term, |"\U{2022} "|)
  {
    var e := entries[0];
    var sign := "\U{2022} ";
    assert OccursAt(e.term, e.term, 0);
    OccursInRight(sign, e.term, e.term, 0);
    OccursInLeft(sign + e.term, ": ", e.term, |sign|);
    OccursInLeft(sign + e.term + ": ", e.details, e.term, |sign|);
    OccursInLeft(sign + e.term + ": " + e.details, "\n\n", e.term, |sign|);
    BulletsStartWithFirst(entries);
    OccursInExtension(Bullet(e), Bullets(entries), e.term, |sign|);
  }

  /** The bullets open with the bullet of the first entry. */
  lemma {:induction false} BulletsStartWithFirst(entries: seq<Hit>)
    requires |entries| > 0
    ensures IsPrefix(Bullet(entries[0]), Bullets(entries))
  {
    if |entries| > 1 {
      var init := entries[..|entries| - 1];
      BulletsStartWithFirst(init);
      assert init[0] == entries[0];
    } else {
      assert entries[..0] == [];
    }
  }

  /** Enhancing twice is enhancing once. */
  lemma EnhancementIdempotent(entries: seq<Hit>, interpretation: string)
    ensures var once := if NeedsEnhancement(entries, interpretation) then Enhanced(entries, interpretation) else interpretation;
            !NeedsEnhancement(entries, once)
  {
    if NeedsEnhancement(entries, interpretation) {
      EnhancedMentionsSymbols(entries, interpretation);
    }
  }

  // The endpoint

  /** The dictionary context and entries; without a dictionary, a fixed notice and no entries */
  method LookupContext(rag: DreamDictionaryRAG?, dreamText: string) returns (context: string, entries: seq<Hit>)
    ensures rag == null ==> context == NoDictionaryContext && entries == []
    ensures rag != null ==> entries == ContextEntries(rag.corpus, rag.similarity, dreamText) && context == Render(entries)
  {
    if rag != null {
      context, entries := rag.GenerateContext(dreamText);
    } else {
      context := NoDictionaryContext;
      entries := [];
    }
  }

  /** The extraction step of `interpret_dream`: the answer after the prompt's end, else after the system marker, else everything */
  method ExtractGenerated(result: string, dreamText: string) returns (interpretation: string)
    ensures interpretation == ExtractInterpretation(result, dreamText)
  {
    var promptEnd := DreamMarker + dreamText;
    if Contains(result, promptEnd) {
      interpretation := Strip(SecondPiece(result, promptEnd));
    } else if Contains(result, SystemMarker) {
      interpretation := Strip(SecondPiece(result, SystemMarker));
    } else {
      interpretation := result;
    }
  }

  /** The entries the endpoint ranks for a dream */
  function EntriesFor(rag: DreamDictionaryRAG?, dreamText: string): seq<Hit>
    reads rag
  {
    if rag == null then [] else ContextEntries(rag.corpus, rag.similarity, dreamText)
  }

  /** The interpretation the endpoint returns for a generated text */
  function FinalInterpretation(entries: seq<Hit>, generated: string, dreamText: string): string {
    var extracted := ExtractInterpretation(generated, dreamText);
    if NeedsEnhancement(entries, extracted) then Enhanced(entries, extracted) else extracted
  }

  /**
    `interpret_dream`. `modelLoaded` says whether the language model was
    loaded at start-up; `generated` is its output for the prompt, or `None`
    when the call raised.
   */
  method InterpretDream(rag: DreamDictionaryRAG?, modelLoaded: bool, dreamText: string, generated: Option<string>)
    returns (response: DreamResponse)
    ensures !modelLoaded ==> response == DreamResponse(EndpointFailedReply, [], Some(ModelNotInitialized))
    ensures modelLoaded && generated.None? ==> response == DreamResponse(GenerationFailedReply, [], None)
    ensures modelLoaded && generated.Some? ==>
              var entries := EntriesFor(rag, dreamText);
              response.error.None? &&
              response.interpretation == FinalInterpretation(entries, generated.value, dreamText) &&
              |response.symbols| == |entries| &&
              forall i :: 0 <= i < |entries| ==> response.symbols[i] == SymbolOf(entries[i])
  {
    if !modelLoaded {
      return DreamResponse(EndpointFailedReply, [], Some(ModelNotInitialized));
    }
    var context, relevantEntries := LookupContext(rag, dreamText);
    if generated.None? {
      return DreamResponse(GenerationFailedReply, [], None);
    }
    var interpretation := ExtractGenerated(generated.value, dreamText);
    interpretation := EnhanceInterpretation(relevantEntries, interpretation);
    var symbols := ToSymbols(relevantEntries);
    return DreamResponse(interpretation, symbols, None);
  }
}
