/**
  The frontend's offline fallback: match the dream text against a small
  built-in dictionary by crude stemming, and assemble a reply from the
  meanings of the symbols found.
 */
module DreamSense {
  import opened Strings

  /** A symbol found in the dream: the dictionary key and its meaning */
  datatype Symbol = Symbol(term: string, details: string)

  /**
    The built-in dictionary, in the insertion order `Object.entries` reports.
    Each meaning is written as a concatenation of short literals; the value
    is the same string, and short literals keep the proofs about it cheap.
   */
  const DreamDictionary: seq<(string, string)> := [
    ("abandonment",
      "When we dream of being abandoned, it " +
      "harbors feelings of insecurity, " +
      "emotional support or unconscious " +
      "fears. This dream symbol often " +
      "relates to childhood experiences or " +
      "current relationship anxieties. It " +
      "may suggest you're working through " +
      "feelings of rejection or fear of " +
      "being left alone."),
    ("abbey",
      "Dreaming of an abbey represents a " +
      "desire for spiritual sanctuary and " +
      "peace. It suggests you may be " +
      "seeking refuge from the chaos of " +
      "daily life or looking for a space " +
      "for contemplation and inner growth. " +
      "This symbol often appears during " +
      "times when you need to reconnect " +
      "with your deeper values."),
    ("flying",
      "Dreams of flying typically symbolize " +
      "freedom, liberation, and breaking " +
      "free from limitations. This powerful " +
      "symbol suggests you're rising above " +
      "challenges or gaining a new " +
      "perspective on your life. It often " +
      "appears when you're experiencing " +
      "success or personal growth."),
    ("teeth falling out",
      "Dreams about teeth falling out " +
      "commonly represent anxiety about " +
      "appearance, communication, or power. " +
      "This symbol may reflect fears about " +
      "losing attractiveness or the ability " +
      "to communicate effectively. It " +
      "sometimes appears during major life " +
      "transitions or periods of " +
      "insecurity."),
    ("water",
      "Water in dreams symbolizes emotions, " +
      "the unconscious mind, and the flow " +
      "of life. Clear water often " +
      "represents clarity and emotional " +
      "well-being, while murky water may " +
      "suggest confusion or repressed " +
      "feelings. This symbol frequently " +
      "appears when you're processing deep " +
      "emotions."),
    ("falling",
      "Dreams of falling often reflect " +
      "feelings of insecurity, loss of " +
      "control, or failure. This common " +
      "symbol may indicate anxiety about a " +
      "situation in your waking life where " +
      "you feel unsupported. It sometimes " +
      "appears during periods of " +
      "significant change or when you're " +
      "taking risks.")
  ]

  /** Both replies open with the same words and part at the next character */
  const ReplyOpening: string := "Thank you for sharing your dream"
  const NoSymbolsReply: string := ReplyOpening + "." +
    " While I don't have specific symbols " +
    "in my dictionary that match your " +
    "dream exactly, dreams are deeply " +
    "personal experiences. Consider what " +
    "elements of this dream feel most " +
    "significant to you, as they often " +
    "reflect your current emotional state " +
    "or life circumstances. I'm here if " +
    "you'd like to explore more dreams in " +
    "the future."
  const ReplyIntro: string := ReplyOpening + " " +
    "with me. I notice several important " +
    "symbols in what you've " +
    "described.\n\n"
  const ReplyClosing: string :=
    "Remember that dreams are personal, " +
    "and these interpretations are based " +
    "on common symbolic meanings. Trust " +
    "your own intuition about what " +
    "resonates most with your experience."

  /** The lowercased term without a trailing "ing" */
  function Stem(termLower: string): (stem: string)
    ensures IsPrefix(stem, termLower)
    ensures IsSuffix("ing", termLower) ==> |stem| + 3 == |termLower|
    ensures !IsSuffix("ing", termLower) ==> stem == termLower
  {
    if IsSuffix("ing", termLower) then termLower[..|termLower| - 3] else termLower
  }

  /** The forms tried for a term: as is, stemmed, past tense, present participle */
  function Variants(term: string): seq<string> {
    var termLower := Lower(term);
    var stem := Stem(termLower);
    [termLower, stem, stem + "ed", stem + "ing"]
  }

  /** Some variant of `term` occurs in the lowercased dream text */
  predicate IsMatch(textLower: string, term: string) {
    exists v | v in Variants(term) :: Contains(textLower, v)
  }

  /**
    Every variant begins with the stem, so a term matches exactly when its
    stem occurs in the text.
   */
  lemma MatchIffStemOccurs(textLower: string, term: string)
    ensures IsMatch(textLower, term) <==> Contains(textLower, Stem(Lower(term)))
  {
    var stem := Stem(Lower(term));
    var vs := Variants(term);
    assert vs[1] == stem;
    if IsMatch(textLower, term) {
      var v :| v in vs && Contains(textLower, v);
      assert IsPrefix(stem, v) by {
        assert IsPrefix(stem, vs[0]);
        assert (stem + "ed")[..|stem|] == stem;
        assert (stem + "ing")[..|stem|] == stem;
      }
      PrefixContained(stem, v);
      ContainsTransitive(textLower, v, stem);
    }
  }

  lemma StemOfFlying()
    ensures Stem(Lower("flying")) == "fly"
  {
    assert Lower("flying") == "flying";
    assert IsSuffix("ing", "flying");
  }

  /** "flying" is found through its stem "fly"... */
  lemma FlyingFoundByStem()
    ensures IsMatch("we fly", "flying")
  {
    StemOfFlying();
    MatchIffStemOccurs("we fly", "flying");
    assert OccursAt("we fly", "fly", 3);
  }

  /** ...but an irregular past tense is missed. */
  lemma FlewMissed()
    ensures !IsMatch("we flew", "flying")
  {
    StemOfFlying();
    MatchIffStemOccurs("we flew", "flying");
    forall i | 0 <= i <= 4 ensures !OccursAt("we flew", "fly", i) {
      assert "we flew"[i + 2] != 'y';
    }
  }

  /** The entries of `dictionary` that match the text, in dictionary order */
  function RelevantSymbols(dictionary: seq<(string, string)>, textLower: string): seq<Symbol> {
    if dictionary == [] then []
    else
      var prev := RelevantSymbols(dictionary[..|dictionary| - 1], textLower);
      var last := dictionary[|dictionary| - 1];
      if IsMatch(textLower, last.0) then prev + [Symbol(last.0, last.1)] else prev
  }

  /**
    A dictionary entry is reported exactly when its stem occurs in the text,
    paired with its own meaning; every reported symbol is such an entry.
   */
  lemma {:induction false} RelevantSymbolsExactly(dictionary: seq<(string, string)>, textLower: string)
    ensures forall k :: 0 <= k < |dictionary| && Contains(textLower, Stem(Lower(dictionary[k].0))) ==>
              Symbol(dictionary[k].0, dictionary[k].1) in RelevantSymbols(dictionary, textLower)
    ensures forall s :: s in RelevantSymbols(dictionary, textLower) ==>
              exists k :: 0 <= k < |dictionary| && dictionary[k] == (s.term, s.details) &&
                Contains(textLower, Stem(Lower(s.term)))
  {
    if dictionary != [] {
      var init := dictionary[..|dictionary| - 1];
      RelevantSymbolsExactly(init, textLower);
      assert forall k :: 0 <= k < |init| ==> init[k] == dictionary[k];
      var last := dictionary[|dictionary| - 1];
      MatchIffStemOccurs(textLower, last.0);
    }
  }

  /** Symbols follow dictionary order: the symbols of a concatenation are the concatenated symbols. */
  lemma {:induction false} RelevantSymbolsAppend(a: seq<(string, string)>, b: seq<(string, string)>, textLower: string)
    ensures RelevantSymbols(a + b, textLower) == RelevantSymbols(a, textLower) + RelevantSymbols(b, textLower)
  {
    if b != [] {
      var b' := b[..|b| - 1];
      assert (a + b)[..|a + b| - 1] == a + b';
      RelevantSymbolsAppend(a, b', textLower);
    } else {
      assert a + b == a;
    }
  }

  predicate DistinctKeys(dictionary: seq<(string, string)>) {
    forall i, j :: 0 <= i < j < |dictionary| ==> dictionary[i].0 != dictionary[j].0
  }

  lemma {:induction false} SymbolTermsAreKeys(dictionary: seq<(string, string)>, textLower: string)
    ensures forall i :: 0 <= i < |RelevantSymbols(dictionary, textLower)| ==>
              exists k :: 0 <= k < |dictionary| && dictionary[k].0 == RelevantSymbols(dictionary, textLower)[i].term
  {
    if dictionary != [] {
      var init := dictionary[..|dictionary| - 1];
      SymbolTermsAreKeys(init, textLower);
      var prev := RelevantSymbols(init, textLower);
      var syms := RelevantSymbols(dictionary, textLower);
      var last := dictionary[|dictionary| - 1];
      assert syms == if IsMatch(textLower, last.0) then prev + [Symbol(last.0, last.1)] else prev;
      forall i | 0 <= i < |syms| ensures exists k :: 0 <= k < |dictionary| && dictionary[k].0 == syms[i].term {
        if i < |prev| {
          assert syms[i] == prev[i];
          var k :| 0 <= k < |init| && init[k].0 == prev[i].term;
          assert dictionary[k] == init[k];
          assert 0 <= k < |dictionary| && dictionary[k].0 == syms[i].term;
        } else {
          var k := |dictionary| - 1;
          assert 0 <= k < |dictionary| && dictionary[k].0 == syms[i].term;
        }
      }
      assert forall i :: 0 <= i < |syms| ==> exists k :: 0 <= k < |dictionary| && dictionary[k].0 == syms[i].term;
    } else {
      assert RelevantSymbols(dictionary, textLower) == [];
    }
  }

  /** With distinct keys (as in an object literal) each term is reported at most once. */
  lemma {:induction false} RelevantSymbolsDistinct(dictionary: seq<(string, string)>, textLower: string)
    requires DistinctKeys(dictionary)
    ensures forall i, j :: 0 <= i < j < |RelevantSymbols(dictionary, textLower)| ==>
              RelevantSymbols(dictionary, textLower)[i].term != RelevantSymbols(dictionary, textLower)[j].term
  {
    if dictionary != [] {
      var init := dictionary[..|dictionary| - 1];
      var last := dictionary[|dictionary| - 1];
      assert forall k :: 0 <= k < |init| ==> init[k] == dictionary[k];
      assert DistinctKeys(init);
      RelevantSymbolsDistinct(init, textLower);
      SymbolTermsAreKeys(init, textLower);
      var prev := RelevantSymbols(init, textLower);
      var syms := RelevantSymbols(dictionary, textLower);
      if IsMatch(textLower, last.0) {
        assert syms == prev + [Symbol(last.0, last.1)];
        forall i, j | 0 <= i < j < |syms| ensures syms[i].term != syms[j].term {
          if j == |prev| {
            assert syms[i] == prev[i];
            var k :| 0 <= k < |init| && init[k].0 == prev[i].term;
            assert init[k] == dictionary[k];
            assert dictionary[k].0 != dictionary[|dictionary| - 1].0;
          } else {
            assert syms[i] == prev[i] && syms[j] == prev[j];
          }
        }
      } else {
        assert syms == prev;
      }
    }
  }

  lemma BuiltInKeysDistinct()
    ensures DistinctKeys(DreamDictionary)
  {
    var d := DreamDictionary;
    assert d[0].0 == "abandonment" && d[1].0 == "abbey" && d[2].0 == "flying";
    assert d[3].0 == "teeth falling out" && d[4].0 == "water" && d[5].0 == "falling";
    KeysDistinct(d);
  }

  /** A six-entry dictionary with the built-in keys has distinct keys, whatever its details. */
  lemma KeysDistinct(d: seq<(string, string)>)
    requires |d| == 6
    requires d[0].0 == "abandonment" && d[1].0 == "abbey" && d[2].0 == "flying"
    requires d[3].0 == "teeth falling out" && d[4].0 == "water" && d[5].0 == "falling"
    ensures DistinctKeys(d)
  {
    assert d[1].0[0] != d[4].0[0];
  }

  /** The fallback never reports a built-in symbol twice. */
  lemma BuiltInSymbolsDistinct(textLower: string)
    ensures forall i, j :: 0 <= i < j < |RelevantSymbols(DreamDictionary, textLower)| ==>
              RelevantSymbols(DreamDictionary, textLower)[i].term != RelevantSymbols(DreamDictionary, textLower)[j].term
  {
    BuiltInKeysDistinct();
    RelevantSymbolsDistinct(DreamDictionary, textLower);
  }

  /** `findRelevantSymbols`: the dictionary entries some variant of which occurs in the lowercased text */
  method FindRelevantSymbols(dictionary: seq<(string, string)>, dreamText: string) returns (symbols: seq<Symbol>)
    ensures symbols == RelevantSymbols(dictionary, Lower(dreamText))
  {
    symbols := [];
    var dreamTextLower := Lower(dreamText);
    for i := 0 to |dictionary|
      invariant symbols == RelevantSymbols(dictionary[..i], dreamTextLower)
    {
      assert dictionary[..i + 1][..i] == dictionary[..i];
      var (term, details) := dictionary[i];
      var termLower := Lower(term);
      var termStem := if IsSuffix("ing", termLower) then termLower[..|termLower| - 3] else termLower;
      var termVariants := [termLower, termStem, termStem + "ed", termStem + "ing"];
      var isMatch := exists v | v in termVariants :: Contains(dreamTextLower, v);
      if isMatch {
        symbols := symbols + [Symbol(term, details)];
      }
    }
    assert dictionary[..|dictionary|] == dictionary;
  }

  function Paragraph(s: Symbol): string {
    "Regarding the \"" + s.term + "\" in your dream: " + s.details + "\n\n"
  }

  function Paragraphs(symbols: seq<Symbol>): string {
    if symbols == [] then "" else Paragraphs(symbols[..|symbols| - 1]) + Paragraph(symbols[|symbols| - 1])
  }

  /** The reply for the symbols found */
  function Reply(symbols: seq<Symbol>): string {
    if symbols == [] then NoSymbolsReply else ReplyIntro + Paragraphs(symbols) + ReplyClosing
  }

  /**
    The reply is the fixed "no specific symbols" message exactly when no
    symbol was found; otherwise it opens with the fixed introduction and ends
    with the fixed closing sentence.
   */
  lemma ReplyShape(symbols: seq<Symbol>)
    ensures Reply(symbols) == NoSymbolsReply <==> symbols == []
    ensures symbols != [] ==> IsPrefix(ReplyIntro, Reply(symbols)) && IsSuffix(ReplyClosing, Reply(symbols))
  {
    if symbols != [] {
      var r := Reply(symbols);
      var n := |ReplyOpening|;
      assert r[..|ReplyIntro|] == ReplyIntro;
      assert ReplyIntro[n] == ' ';
      assert NoSymbolsReply[n] == '.';
      assert r[n] == ReplyIntro[n];
    }
  }

  /** Appending one more piece adds exactly its length, and it ends the text. */
  lemma ParagraphsLength(symbols: seq<Symbol>)
    requires symbols != []
    ensures |Paragraphs(symbols)| == |Paragraphs(symbols[..|symbols| - 1])| + |Paragraph(symbols[|symbols| - 1])|
    ensures IsSuffix(Paragraph(symbols[|symbols| - 1]), Paragraphs(symbols))
  {
  }

  /**
    Paragraphs tile the text: the next paragraph starts where the i-th ends,
    and the last one ends the text.
   */
  lemma ParagraphsTile(symbols: seq<Symbol>)
    ensures forall i :: 0 <= i < |symbols| ==>
              |Paragraphs(symbols[..i + 1])| == |Paragraphs(symbols[..i])| + |Paragraph(symbols[i])|
    ensures symbols != [] ==> IsSuffix(Paragraph(symbols[|symbols| - 1]), Paragraphs(symbols))
  {
    forall i | 0 <= i < |symbols|
      ensures |Paragraphs(symbols[..i + 1])| == |Paragraphs(symbols[..i])| + |Paragraph(symbols[i])|
    {
      var pre := symbols[..i + 1];
      assert pre[..|pre| - 1] == symbols[..i] && pre[|pre| - 1] == symbols[i];
      ParagraphsLength(pre);
    }
    if symbols != [] {
      ParagraphsLength(symbols);
    }
  }

  /** The paragraph of the i-th symbol sits right after those of the symbols before it. */
  lemma {:induction false} ParagraphsLayout(symbols: seq<Symbol>)
    ensures forall i :: 0 <= i < |symbols| ==>
              OccursAt(Paragraphs(symbols), Paragraph(symbols[i]), |Paragraphs(symbols[..i])|)
  {
    if symbols != [] {
      var init := symbols[..|symbols| - 1];
      var last := symbols[|symbols| - 1];
      ParagraphsLayout(init);
      assert Paragraphs(symbols) == Paragraphs(init) + Paragraph(last);
      forall i | 0 <= i < |symbols|
        ensures OccursAt(Paragraphs(symbols), Paragraph(symbols[i]), |Paragraphs(symbols[..i])|)
      {
        if i < |init| {
          assert symbols[..i] == init[..i];
          assert symbols[i] == init[i];
          OccursInLeft(Paragraphs(init), Paragraph(last), Paragraph(symbols[i]), |Paragraphs(init[..i])|);
        } else {
          assert symbols[..i] == init;
          assert OccursAt(Paragraph(last), Paragraph(last), 0);
          OccursInRight(Paragraphs(init), Paragraph(last), Paragraph(last), 0);
        }
      }
    }
  }

  /** `generateDreamInterpretation`; the component calls it with `DreamDictionary` */
  method GenerateDreamInterpretation(dictionary: seq<(string, string)>, dreamText: string) returns (interpretation: string)
    ensures interpretation == Reply(RelevantSymbols(dictionary, Lower(dreamText)))
    ensures interpretation == NoSymbolsReply <==> RelevantSymbols(dictionary, Lower(dreamText)) == []
  {
    var symbols := FindRelevantSymbols(dictionary, dreamText);
    ReplyShape(symbols);
    if |symbols| == 0 {
      return NoSymbolsReply;
    }
    var paragraphs := ComposeParagraphs(symbols);
    interpretation := ReplyIntro + paragraphs + ReplyClosing;
  }

  /** The loop of `generateDreamInterpretation` that writes one paragraph per symbol */
  method ComposeParagraphs(symbols: seq<Symbol>) returns (paragraphs: string)
    ensures paragraphs == Paragraphs(symbols)
  {
    paragraphs := "";
    for i := 0 to |symbols|
      invariant paragraphs == Paragraphs(symbols[..i])
    {
      assert symbols[..i + 1][..i] == symbols[..i];
      paragraphs := paragraphs + "Regarding the \"" + symbols[i].term + "\" in your dream: " + symbols[i].details + "\n\n";
    }
    assert symbols[..|symbols|] == symbols;
  }
}
