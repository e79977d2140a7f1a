/** Worked sessions over a three-voice catalog, each derived from the general
    lemmas of the other modules. */
module Examples {
  import opened Wrappers
  import opened Text
  import opened Sorting
  import opened Levenshtein
  import opened Catalog
  import opened LineEditor
  import opened Commands
  import opened Bootstrap

  const Heart := Voice("af_heart", "en-us")
  const Bella := Voice("bf_bella", "en-gb")
  const Lewis := Voice("bm_lewis", "en-gb")
  const Library: seq<Voice> := [Heart, Bella, Lewis]

  /** The preferred voice is picked although it is listed last. */
  lemma DefaultIsLewis()
    ensures GetDefaultVoice(Library) == Some(Lewis)
  {
    assert Library[2].name == PreferredVoice;
  }

  /** The catalog's names that start with "b", in case-insensitive order. */
  lemma CompletionsOfB()
    ensures GetVoiceCompletions("b", Library) == ["bf_bella", "bm_lewis"]
  {
    assert Lower("af_heart")[0] == 'a' && Lower("bf_bella")[0] == 'b' && Lower("bm_lewis")[0] == 'b';
    assert Lower("b") == "b";
    assert !HasPrefix(Heart.name, "b") && HasPrefix(Bella.name, "b") && HasPrefix(Lewis.name, "b");
    var p := NameStartsWith("b");
    assert Library[1..] == [Bella, Lewis] && Library[1..][1..] == [Lewis] && [Lewis][1..] == [];
    assert Filter([Lewis], p) == [Lewis];
    assert Filter([Bella, Lewis], p) == [Bella, Lewis];
    assert Filter(Library, p) == [Bella, Lewis];
    assert Names([Bella, Lewis]) == ["bf_bella", "bm_lewis"];
    var u := Upper("bf_bella");
    var w := Upper("bm_lewis");
    assert u[0] == w[0] == 'B' && u[1] == 'F' && w[1] == 'M';
    assert LexLe(u[1..], w[1..]);
    assert LexLe(u, w);
    assert SortBy(["bm_lewis"], Upper, LexLe) == ["bm_lewis"];
  }

  /** "voice b" followed by Tab, Tab, Tab cycles bf_bella, bm_lewis, bf_bella. */
  lemma TabCyclesCatalog()
    ensures var e := Editor("voice b", [], -1, []);
            && Tabs(Completions(Library), e, 1).input == "voice bf_bella"
            && Tabs(Completions(Library), e, 2).input == "voice bm_lewis"
            && Tabs(Completions(Library), e, 3).input == "voice bf_bella"
  {
    var e := Editor("voice b", [], -1, []);
    CompletionsOfB();
    assert e.input[|Keyword|..] == "b";
    assert Upper(e.input[..|Keyword|]) == Upper(Keyword);
    TabCycle(Completions(Library), e, 1);
    TabCycle(Completions(Library), e, 2);
    TabCycle(Completions(Library), e, 3);
  }

  /** bm_lewis contains the name "bm_lewi", which no entry has exactly. */
  lemma LewiFacts()
    ensures IsSimilar("bm_lewi", Lewis)
    ensures forall v :: v in Library ==> v.name != "bm_lewi"
  {
    LowerUncapitalised("bm_lewi");
    LowerUncapitalised("bm_lewis");
    assert StartsWith(Lower(Lewis.name), Lower("bm_lewi"));
  }

  /** "voice bm_lewi" (one letter short) finds no exact entry, keeps the current
      voice and suggests bm_lewis. */
  lemma SuggestsLewis()
    ensures var r := HandleVoiceChange(Library, "voice bm_lewi", Heart);
            && !r.success && r.voice == Heart
            && r.report.DidYouMean? && r.report.name == "bm_lewi" && Lewis in r.report.suggestions
  {
    var input := "voice bm_lewi";
    assert input[|VoicePrefix|..] == "bm_lewi";
    TrimUnpadded("bm_lewi");
    LewiFacts();
    var r := HandleVoiceChange(Library, input, Heart);
    FindSimilarVoicesMatches("bm_lewi", Library);
    var similar := FindSimilarVoices("bm_lewi", Library);
    assert Lewis in similar;
    assert r.report == DidYouMean("bm_lewi", Take(similar, 3));
  }

  /** "voices bf_" splits into the command word and the prefix. */
  lemma VoicesBfTokens()
    ensures Tokens("voices bf_") == ["voices", "bf_"]
  {
    var input := "voices bf_";
    TokensOfWord("voices");
    TokensOfWord("bf_");
    assert input == "voices" + " bf_";
    assert Word(input) == "voices" by {
      assert input[..6] == "voices" && input[6] == ' ';
    }
    assert input[6..][1..] == "bf_";
  }

  /** On any catalog, "voices bf_" is the prefix listing for "bf_". */
  lemma VoicesBfRoutes(voices: seq<Voice>, current: Voice)
    ensures Dispatch(voices, current, "voices bf_")
            == Turn(current, Some(VoicesListed(VoiceList(DisplayAvailableVoices(voices, Some("bf_"))))))
  {
    var input := "voices bf_";
    TrimUnpadded(input);
    assert Upper(input[..6]) == Upper("voices");
    DispatchVoices(voices, current, input);
    VoicesBfTokens();
    TrimUnpadded("bf_");
  }

  /** A word followed by three blanks trims to the word. */
  lemma ThreeBlanksTrim(w: string)
    requires w != [] && !IsWhiteSpace(w[0]) && !IsWhiteSpace(w[|w| - 1])
    ensures Trim(w + "   ") == w
  {
    assert w + "   " == w + [' '] + [' '] + [' '];
    TrimTrailingSpace(w + [' '] + [' ']);
    TrimTrailingSpace(w + [' ']);
    TrimTrailingSpace(w);
    TrimUnpadded(w);
  }

  /** "voice" followed by blanks is spoken as the bare word rather than taken as a
      voice command. */
  lemma BareVoiceSpoken(voices: seq<Voice>, current: Voice)
    ensures Dispatch(voices, current, "voice" + "   ") == Turn(current, Some(Spoken("voice", current)))
  {
    ThreeBlanksTrim("voice");
    DispatchBareVoice(voices, current, "voice" + "   ");
  }

  /** Of the three entries only bf_bella starts with "bf_". */
  lemma BfListing()
    ensures DisplayAvailableVoices(Library, Some("bf_")) == Listed([Bella])
  {
    var p := NameStartsWith("bf_");
    LowerUncapitalised("bf_");
    assert Lower("af_heart")[0] == 'a' && Lower("bm_lewis")[1] == 'm';
    assert Lower(Bella.name)[..3] == "bf_";
    assert !p(Heart) && p(Bella) && !p(Lewis);
    assert Library[1..] == [Bella, Lewis] && Library[1..][1..] == [Lewis] && [Lewis][1..] == [];
    assert Filter([Lewis], p) == [];
    assert Filter([Bella, Lewis], p) == [Bella];
    assert Filter(Library, p) == [Bella];
  }

  /** "voices bf_" lists the one entry whose name starts with "bf_". */
  lemma ListsByPrefix()
    ensures Dispatch(Library, Lewis, "voices bf_")
            == Turn(Lewis, Some(VoicesListed(VoiceList(Listed([Bella])))))
  {
    VoicesBfRoutes(Library, Lewis);
    BfListing();
  }

  /** The term "gb" occurs in the language "en-gb". */
  lemma GbInLanguage(v: Voice)
    requires v.language == "en-gb"
    ensures IsSimilar("gb", v)
  {
    LowerUncapitalised("gb");
    LowerUncapitalised("en-gb");
    assert StartsWith("en-gb"[3..], "gb");
    assert Contains("en-gb", "gb");
  }

  /** af_heart neither contains "gb" nor is within two edits of it. */
  lemma GbNotHeart()
    ensures !IsSimilar("gb", Heart)
  {
    LowerUncapitalised("gb");
    LowerUncapitalised("en-us");
    LowerUncapitalised("af_heart");
    ContainsFirst("af_heart", "gb");
    ContainsFirst("en-us", "gb");
    DistanceBounds("af_heart", "gb");
  }

  /** "search gb" lists exactly bf_bella and bm_lewis. */
  lemma SearchGb()
    ensures var r := HandleVoiceSearch(Library, "search gb");
            r.Matches? && r.term == "gb" && forall v :: v in r.voices <==> v == Bella || v == Lewis
  {
    var input := "search gb";
    assert input[|SearchPrefix|..] == "gb";
    TrimUnpadded("gb");
    GbInLanguage(Bella);
    GbInLanguage(Lewis);
    GbNotHeart();
    HandleVoiceSearchResults(Library, input);
    FindSimilarVoicesMatches("gb", Library);
    assert Bella in FindSimilarVoices("gb", Library);
  }

  /** The model loads at the second attempt after one retry message. */
  method LoadsOnSecondAttempt() returns (r: LoadReport)
    ensures r == LoadReport(true, 2, 1)
  {
    var second := (a: nat) => a == 2;
    r := LoadModelWithRetry(second);
    assert second(2);
  }
}
