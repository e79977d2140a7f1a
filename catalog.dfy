/** The queries Program.cs runs against the voice catalog: exact lookup, the fuzzy
    match behind "did you mean" and `search`, prefix completion, the `voices`
    listing and the choice of the start-up voice. The catalog itself is external
    and is given as a sequence. */
module Catalog {
  import opened Wrappers
  import opened Text
  import opened Sorting
  import opened Levenshtein

  /** A catalog entry: the only two fields the front end reads. */
  datatype Voice = Voice(name: string, language: string)

  /** KokoroVoiceManager.GetVoice: exact, case-sensitive lookup by name. */
  function GetVoice(voices: seq<Voice>, name: string): (r: Option<Voice>)
    ensures r.Some? <==> exists i :: 0 <= i < |voices| && voices[i].name == name
    ensures r.Some? ==> r.value.name == name && r.value in voices
  {
    if voices == [] then None
    else if voices[0].name == name then Some(voices[0])
    else GetVoice(voices[1..], name)
  }

  function Names(voices: seq<Voice>): seq<string> {
    seq(|voices|, i requires 0 <= i < |voices| => voices[i].name)
  }

  predicate IntLe(a: int, b: int) {
    a <= b
  }

  /** Ordinal order on (language, name), language first. */
  predicate PairLe(a: (string, string), b: (string, string)) {
    if a.0 == b.0 then LexLe(a.1, b.1) else LexLe(a.0, b.0)
  }

  lemma IntLeTotalOrder()
    ensures TotalOrder(IntLe)
  {
  }

  lemma LexLeTotalOrder()
    ensures TotalOrder(LexLe)
  {
    forall a, b ensures LexLe(a, b) || LexLe(b, a) {
      LexLeTotal(a, b);
    }
    forall a, b ensures LexLe(a, b) && LexLe(b, a) ==> a == b {
      LexLeAntisymmetric(a, b);
    }
    forall a, b, c | LexLe(a, b) && LexLe(b, c) ensures LexLe(a, c) {
      LexLeTransitive(a, b, c);
    }
  }

  lemma PairLeTotalOrder()
    ensures TotalOrder(PairLe)
  {
    forall a, b ensures PairLe(a, b) || PairLe(b, a) {
      LexLeTotal(a.0, b.0);
      LexLeTotal(a.1, b.1);
    }
    forall a, b ensures PairLe(a, b) && PairLe(b, a) ==> a == b {
      LexLeAntisymmetric(a.0, b.0);
      LexLeAntisymmetric(a.1, b.1);
    }
    forall a, b, c | PairLe(a, b) && PairLe(b, c) ensures PairLe(a, c) {
      if a.0 == b.0 && b.0 == c.0 {
        LexLeTransitive(a.1, b.1, c.1);
      } else if a.0 != b.0 && b.0 != c.0 {
        LexLeTransitive(a.0, b.0, c.0);
        LexLeAntisymmetric(a.0, b.0);
      }
    }
  }

  // ---------------------------------------------------------------------------
  // FindSimilarVoices

  /** The filter of FindSimilarVoices: the lowered term occurs in the lowered name
      or the lowered language, or the lowered name is within two edits of it. */
  predicate IsSimilar(searchTerm: string, v: Voice) {
    var term := Lower(searchTerm);
    Contains(Lower(v.name), term) || Contains(Lower(v.language), term)
    || Distance(Lower(v.name), term) <= 2
  }

  function SimilarTo(searchTerm: string): Voice -> bool {
    v => IsSimilar(searchTerm, v)
  }

  /** The sort key of FindSimilarVoices: the edit distance of the lowered name to the lowered term. */
  function DistanceTo(searchTerm: string): Voice -> int {
    (v: Voice) => Distance(Lower(v.name), Lower(searchTerm))
  }

  /** FindSimilarVoices: the similar entries, stably ordered by ascending distance. */
  function FindSimilarVoices(searchTerm: string, voices: seq<Voice>): seq<Voice> {
    SortBy(Filter(voices, SimilarTo(searchTerm)), DistanceTo(searchTerm), IntLe)
  }

  /** The result holds every similar entry of the catalog as often as the catalog
      does, and no other entry. */
  lemma FindSimilarVoicesMatches(searchTerm: string, voices: seq<Voice>)
    ensures forall v :: multiset(FindSimilarVoices(searchTerm, voices))[v]
                        == if IsSimilar(searchTerm, v) then multiset(voices)[v] else 0
    ensures forall v :: v in FindSimilarVoices(searchTerm, voices) <==> v in voices && IsSimilar(searchTerm, v)
  {
    var kept := Filter(voices, SimilarTo(searchTerm));
    SortByPermutes(kept, DistanceTo(searchTerm), IntLe);
    FilterCount(voices, SimilarTo(searchTerm));
  }

  /** The result is in ascending order of edit distance to the term. */
  lemma FindSimilarVoicesSorted(searchTerm: string, voices: seq<Voice>)
    ensures var r := FindSimilarVoices(searchTerm, voices);
            forall i, j :: 0 <= i < j < |r| ==>
              Distance(Lower(r[i].name), Lower(searchTerm)) <= Distance(Lower(r[j].name), Lower(searchTerm))
  {
    IntLeTotalOrder();
    SortBySorted(Filter(voices, SimilarTo(searchTerm)), DistanceTo(searchTerm), IntLe);
  }

  /** Ties keep catalog order: the entries at any one distance appear in the
      order the catalog lists them. */
  lemma FindSimilarVoicesStable(searchTerm: string, voices: seq<Voice>, d: int)
    ensures WithKey(FindSimilarVoices(searchTerm, voices), DistanceTo(searchTerm), d)
            == WithKey(Filter(voices, SimilarTo(searchTerm)), DistanceTo(searchTerm), d)
  {
    IntLeTotalOrder();
    SortByStable(Filter(voices, SimilarTo(searchTerm)), DistanceTo(searchTerm), IntLe, d);
  }

  // ---------------------------------------------------------------------------
  // GetVoiceCompletions

  predicate HasPrefix(name: string, prefix: string) {
    StartsWith(Lower(name), Lower(prefix))
  }

  function NameStartsWith(prefix: string): Voice -> bool {
    (v: Voice) => HasPrefix(v.name, prefix)
  }

  function StartsWithPrefix(prefix: string): string -> bool {
    n => HasPrefix(n, prefix)
  }

  /** GetVoiceCompletions: names whose lowered form starts with the lowered prefix,
      ordered with StringComparer.OrdinalIgnoreCase (stable). */
  function GetVoiceCompletions(prefix: string, voices: seq<Voice>): seq<string> {
    SortBy(Names(Filter(voices, NameStartsWith(prefix))), Upper, LexLe)
  }

  /** Selecting names after filtering is filtering the names. */
  lemma {:induction false} NamesFilter(voices: seq<Voice>, prefix: string)
    ensures Names(Filter(voices, NameStartsWith(prefix))) == Filter(Names(voices), StartsWithPrefix(prefix))
  {
    if voices != [] {
      NamesFilter(voices[1..], prefix);
      assert Names(voices) == [voices[0].name] + Names(voices[1..]);
      FilterCons(voices[0].name, Names(voices[1..]), StartsWithPrefix(prefix));
      var head := if HasPrefix(voices[0].name, prefix) then [voices[0]] else [];
      assert Names(head + Filter(voices[1..], NameStartsWith(prefix)))
             == Names(head) + Names(Filter(voices[1..], NameStartsWith(prefix)));
    }
  }

  lemma NamesMembers(voices: seq<Voice>)
    ensures forall n :: n in Names(voices) <==> exists i :: 0 <= i < |voices| && voices[i].name == n
  {
    forall n | n in Names(voices) ensures exists i :: 0 <= i < |voices| && voices[i].name == n {
      var i :| 0 <= i < |Names(voices)| && Names(voices)[i] == n;
      assert voices[i].name == n;
    }
    forall n | exists i :: 0 <= i < |voices| && voices[i].name == n ensures n in Names(voices) {
      var i :| 0 <= i < |voices| && voices[i].name == n;
      assert Names(voices)[i] == n;
    }
  }

  /** The completions are the catalog's names that start, case-insensitively, with
      the prefix, each as often as the catalog lists it, and nothing else. */
  lemma GetVoiceCompletionsMatches(prefix: string, voices: seq<Voice>)
    ensures forall n :: multiset(GetVoiceCompletions(prefix, voices))[n]
                        == if HasPrefix(n, prefix) then multiset(Names(voices))[n] else 0
    ensures forall n :: n in GetVoiceCompletions(prefix, voices)
                        <==> HasPrefix(n, prefix) && exists i :: 0 <= i < |voices| && voices[i].name == n
  {
    var r := GetVoiceCompletions(prefix, voices);
    NamesFilter(voices, prefix);
    SortByPermutes(Names(Filter(voices, NameStartsWith(prefix))), Upper, LexLe);
    FilterCount(Names(voices), StartsWithPrefix(prefix));
    assert multiset(r) == multiset(Filter(Names(voices), StartsWithPrefix(prefix)));
    NamesMembers(voices);
    forall n ensures n in r <==> HasPrefix(n, prefix) && n in Names(voices) {
      assert n in r <==> multiset(r)[n] > 0;
      assert n in Names(voices) <==> multiset(Names(voices))[n] > 0;
    }
  }

  /** The completions are in case-insensitive ascending order. */
  lemma GetVoiceCompletionsSorted(prefix: string, voices: seq<Voice>)
    ensures var r := GetVoiceCompletions(prefix, voices);
            forall i, j :: 0 <= i < j < |r| ==> LexLe(Upper(r[i]), Upper(r[j]))
  {
    LexLeTotalOrder();
    SortBySorted(Names(Filter(voices, NameStartsWith(prefix))), Upper, LexLe);
  }

  /** Names equal up to case keep their catalog order. */
  lemma GetVoiceCompletionsStable(prefix: string, voices: seq<Voice>, folded: string)
    ensures WithKey(GetVoiceCompletions(prefix, voices), Upper, folded)
            == WithKey(Names(Filter(voices, NameStartsWith(prefix))), Upper, folded)
  {
    LexLeTotalOrder();
    SortByStable(Names(Filter(voices, NameStartsWith(prefix))), Upper, LexLe, folded);
  }

  // ---------------------------------------------------------------------------
  // DisplayAvailableVoices

  /** What DisplayAvailableVoices prints: nothing to show, no entry with the
      prefix, or the entries listed in order. */
  datatype Listing = NoVoices | NoPrefixMatch(prefix: string) | Listed(voices: seq<Voice>)

  function LanguageThenName(v: Voice): (string, string) {
    (v.language, v.name)
  }

  /** DisplayAvailableVoices: the whole catalog, or the entries whose lowered name
      starts with the lowered prefix, ordered by language and then by name. */
  function DisplayAvailableVoices(voices: seq<Voice>, prefixFilter: Option<string>): Listing {
    if |voices| == 0 then NoVoices
    else if prefixFilter.Some? && prefixFilter.value != [] then
      var matching := Filter(voices, NameStartsWith(prefixFilter.value));
      if |matching| == 0 then NoPrefixMatch(prefixFilter.value)
      else Listed(SortBy(matching, LanguageThenName, PairLe))
    else Listed(SortBy(voices, LanguageThenName, PairLe))
  }

  /** The filter the listing applies: none without a non-empty prefix. */
  predicate Shown(prefixFilter: Option<string>, v: Voice) {
    prefixFilter.None? || prefixFilter.value == [] || HasPrefix(v.name, prefixFilter.value)
  }

  /** The listing is empty-catalog, no-match, or a language-then-name ordered
      permutation of exactly the shown entries. */
  lemma DisplayAvailableVoicesListing(voices: seq<Voice>, prefixFilter: Option<string>)
    ensures var r := DisplayAvailableVoices(voices, prefixFilter);
            && (r.NoVoices? <==> voices == [])
            && (r.NoPrefixMatch? <==> voices != [] && forall v :: v in voices ==> !Shown(prefixFilter, v))
            && (r.Listed? ==>
                  r.voices != []
                  && (forall v :: multiset(r.voices)[v] == if Shown(prefixFilter, v) then multiset(voices)[v] else 0)
                  && forall i, j :: 0 <= i < j < |r.voices| ==> PairLe(LanguageThenName(r.voices[i]), LanguageThenName(r.voices[j])))
  {
    PairLeTotalOrder();
    var r := DisplayAvailableVoices(voices, prefixFilter);
    if voices != [] {
      if prefixFilter.Some? && prefixFilter.value != [] {
        var p := prefixFilter.value;
        var matching := Filter(voices, NameStartsWith(p));
        FilterCount(voices, NameStartsWith(p));
        SortByPermutes(matching, LanguageThenName, PairLe);
        SortBySorted(matching, LanguageThenName, PairLe);
        if |matching| == 0 {
          forall v | v in voices ensures !Shown(prefixFilter, v) {
            assert multiset(matching)[v] == 0;
          }
        } else {
          var w := matching[0];
          assert w in voices && Shown(prefixFilter, w);
        }
      } else {
        SortByPermutes(voices, LanguageThenName, PairLe);
        SortBySorted(voices, LanguageThenName, PairLe);
        assert voices[0] in voices;
      }
    }
  }

  // ---------------------------------------------------------------------------
  // GetDefaultVoice

  const PreferredVoice := "bm_lewis"

  /** GetDefaultVoice: `bm_lewis` when the catalog has it, else the first entry, else nothing. */
  function GetDefaultVoice(voices: seq<Voice>): (r: Option<Voice>)
    ensures r.None? <==> voices == []
    ensures r.Some? ==> r.value in voices
    ensures (exists i :: 0 <= i < |voices| && voices[i].name == PreferredVoice)
            ==> r.Some? && r.value.name == PreferredVoice
    ensures (forall i :: 0 <= i < |voices| ==> voices[i].name != PreferredVoice) && voices != []
            ==> r == Some(voices[0])
  {
    var preferred := GetVoice(voices, PreferredVoice);
    if preferred.Some? then preferred
    else if |voices| > 0 then Some(voices[0])
    else None
  }
}
