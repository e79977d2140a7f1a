/** The command loop of Program.cs: reading a line, trimming it, routing it to one
    of the commands and the handlers behind them. Handlers return what they would
    report instead of printing it; the speech engine call is recorded with the
    text and the voice it would be given. */
module Commands {
  import opened Wrappers
  import opened Text
  import opened Sorting
  import opened Levenshtein
  import opened Catalog
  import opened LineEditor

  /** IsExitCommand: "exit" or "quit", in any letter case. */
  predicate IsExitCommand(input: string) {
    EqualsIgnoreCase(input, "exit") || EqualsIgnoreCase(input, "quit")
  }

  /** The exit words are recognised exactly when the line lower-cases to one of them. */
  lemma IsExitCommandLower(input: string)
    ensures IsExitCommand(input) <==> Lower(input) == "exit" || Lower(input) == "quit"
  {
    UpperLowerAgree(input, "exit");
    UpperLowerAgree(input, "quit");
    assert Lower("exit") == "exit";
    assert Lower("quit") == "quit";
  }

  /** Enumerable.Take. */
  function Take<T>(s: seq<T>, n: nat): (r: seq<T>)
    ensures |r| == (if |s| <= n then |s| else n)
    ensures r == s[..|r|]
  {
    if |s| <= n then s else s[..n]
  }

  // ---------------------------------------------------------------------------
  // HandleVoiceChange

  /** What HandleVoiceChange reports: no name given; the switch; up to three
      suggestions; or, with nothing similar, the first five entries and how many
      more there are. */
  datatype ChangeReport =
    | MissingName
    | Switched(voice: Voice)
    | DidYouMean(name: string, suggestions: seq<Voice>)
    | NotFound(name: string, shown: seq<Voice>, more: nat)

  /** The (voice, success) pair HandleVoiceChange returns, with its report. */
  datatype VoiceChange = VoiceChange(voice: Voice, success: bool, report: ChangeReport)

  const VoicePrefix: string := "voice "

  /** The name argument of a "voice " command. */
  function VoiceName(input: string): string
    requires |input| >= |VoicePrefix|
  {
    Trim(input[|VoicePrefix|..])
  }

  /** HandleVoiceChange: switch to the entry with exactly the given name, otherwise
      keep the current voice and suggest. */
  function HandleVoiceChange(voices: seq<Voice>, input: string, current: Voice): (r: VoiceChange)
    requires |input| >= |VoicePrefix|
    ensures r.success <==> r.report.Switched?
    ensures r.success ==> r.voice == r.report.voice && r.voice in voices && r.voice.name == VoiceName(input)
    ensures !r.success ==> r.voice == current
    ensures r.report.MissingName? <==> VoiceName(input) == []
    ensures r.success <==> VoiceName(input) != [] && exists i :: 0 <= i < |voices| && voices[i].name == VoiceName(input)
  {
    var voiceName := VoiceName(input);
    if voiceName == [] then VoiceChange(current, false, MissingName)
    else
      match GetVoice(voices, voiceName)
      case Some(v) => VoiceChange(v, true, Switched(v))
      case None =>
        var similar := FindSimilarVoices(voiceName, voices);
        if |similar| != 0 then VoiceChange(current, false, DidYouMean(voiceName, Take(similar, 3)))
        else
          VoiceChange(current, false, NotFound(voiceName, Take(voices, 5), if |voices| > 5 then |voices| - 5 else 0))
  }

  /** A failed switch with similar entries suggests the best (at most three) of
      them, in the order FindSimilarVoices ranks them. */
  lemma HandleVoiceChangeSuggests(voices: seq<Voice>, input: string, current: Voice, r: VoiceChange)
    requires |input| >= |VoicePrefix| && r == HandleVoiceChange(voices, input, current)
    requires r.report.DidYouMean?
    ensures r.report.name == VoiceName(input)
    ensures var similar := FindSimilarVoices(VoiceName(input), voices);
            && similar != []
            && |r.report.suggestions| == (if |similar| < 3 then |similar| else 3)
            && r.report.suggestions == similar[..|r.report.suggestions|]
    ensures forall v :: v in r.report.suggestions ==> v in voices && IsSimilar(VoiceName(input), v)
  {
    var name := VoiceName(input);
    var similar := FindSimilarVoices(name, voices);
    FindSimilarVoicesMatches(name, voices);
    assert r.report.suggestions == Take(similar, 3);
    forall v | v in r.report.suggestions ensures v in similar {
      var i :| 0 <= i < |r.report.suggestions| && r.report.suggestions[i] == v;
      assert similar[i] == v;
    }
  }

  /** With no similar entry, a failed switch shows the first five entries of the
      catalog and counts the rest. */
  lemma HandleVoiceChangeLists(voices: seq<Voice>, input: string, current: Voice, r: VoiceChange)
    requires |input| >= |VoicePrefix| && r == HandleVoiceChange(voices, input, current)
    requires r.report.NotFound?
    ensures r.report.name == VoiceName(input)
    ensures forall v :: v in voices ==> !IsSimilar(VoiceName(input), v)
    ensures |r.report.shown| == (if |voices| < 5 then |voices| else 5)
    ensures r.report.shown == voices[..|r.report.shown|]
    ensures r.report.more == |voices| - |r.report.shown|
  {
    var name := VoiceName(input);
    var similar := FindSimilarVoices(name, voices);
    FindSimilarVoicesMatches(name, voices);
    assert similar == [];
    forall v | v in voices ensures !IsSimilar(name, v) {
      assert v !in similar;
    }
  }

  /** Voice names are case-sensitive, but an entry whose name differs from the
      requested one only in letter case is always among the suggestions' source:
      the switch fails with "did you mean" rather than with the plain listing. */
  lemma CaseMismatchSuggests(voices: seq<Voice>, input: string, current: Voice, v: Voice)
    requires |input| >= |VoicePrefix|
    requires v in voices && VoiceName(input) != [] && Lower(v.name) == Lower(VoiceName(input))
    requires forall i :: 0 <= i < |voices| ==> voices[i].name != VoiceName(input)
    ensures HandleVoiceChange(voices, input, current).report.DidYouMean?
  {
    var name := VoiceName(input);
    DistanceZeroIff(Lower(v.name), Lower(name));
    assert IsSimilar(name, v);
    FindSimilarVoicesMatches(name, voices);
    assert v in FindSimilarVoices(name, voices);
  }

  // ---------------------------------------------------------------------------
  // HandleVoicesCommand

  /** What HandleVoicesCommand reports: a listing, an empty prefix, or a usage error. */
  datatype VoicesReply = VoiceList(listing: Listing) | EmptyPrefix | BadUsage

  /** HandleVoicesCommand: one word lists everything, two words list by the second
      as prefix, anything else is a usage error. */
  function HandleVoicesCommand(voices: seq<Voice>, input: string): (r: VoicesReply)
    ensures r.VoiceList? <==> |Tokens(input)| == 1 || (|Tokens(input)| == 2 && Trim(Tokens(input)[1]) != [])
    ensures r.BadUsage? <==> |Tokens(input)| != 1 && |Tokens(input)| != 2
    ensures |Tokens(input)| == 1 ==> r == VoiceList(DisplayAvailableVoices(voices, None))
  {
    var parts := Tokens(input);
    if |parts| == 1 then VoiceList(DisplayAvailableVoices(voices, None))
    else if |parts| == 2 then
      var prefix := Trim(parts[1]);
      if prefix == [] then EmptyPrefix else VoiceList(DisplayAvailableVoices(voices, Some(prefix)))
    else BadUsage
  }

  /** "voices <prefix>" lists exactly the entries whose name starts with the prefix,
      ignoring case, ordered by language and then by name. */
  lemma HandleVoicesCommandPrefix(voices: seq<Voice>, input: string)
    requires |Tokens(input)| == 2 && Trim(Tokens(input)[1]) != []
    ensures var prefix := Trim(Tokens(input)[1]);
            var r := HandleVoicesCommand(voices, input);
            && r == VoiceList(DisplayAvailableVoices(voices, Some(prefix)))
            && (r.listing.NoVoices? <==> voices == [])
            && (r.listing.NoPrefixMatch? <==> voices != [] && forall v :: v in voices ==> !HasPrefix(v.name, prefix))
            && (r.listing.Listed? ==>
                  && (forall v :: multiset(r.listing.voices)[v] == if HasPrefix(v.name, prefix) then multiset(voices)[v] else 0)
                  && forall i, j :: 0 <= i < j < |r.listing.voices| ==>
                       PairLe(LanguageThenName(r.listing.voices[i]), LanguageThenName(r.listing.voices[j])))
  {
    var prefix := Trim(Tokens(input)[1]);
    DisplayAvailableVoicesListing(voices, Some(prefix));
  }

  // ---------------------------------------------------------------------------
  // HandleVoiceSearch

  /** What HandleVoiceSearch reports. */
  datatype SearchReply = MissingTerm | NoMatches(term: string) | Matches(term: string, voices: seq<Voice>)

  const SearchPrefix: string := "search "

  function SearchTerm(input: string): string
    requires |input| >= |SearchPrefix|
  {
    Trim(input[|SearchPrefix|..])
  }

  /** HandleVoiceSearch: the similar entries for the term after "search ". */
  function HandleVoiceSearch(voices: seq<Voice>, input: string): (r: SearchReply)
    requires |input| >= |SearchPrefix|
    ensures r.MissingTerm? <==> SearchTerm(input) == []
    ensures !r.MissingTerm? ==> r.term == SearchTerm(input)
  {
    var searchTerm := SearchTerm(input);
    if searchTerm == [] then MissingTerm
    else
      var matching := FindSimilarVoices(searchTerm, voices);
      if |matching| == 0 then NoMatches(searchTerm) else Matches(searchTerm, matching)
  }

  /** A search finds nothing exactly when no entry is similar to the term, and
      otherwise lists every similar entry, closest name first. */
  lemma HandleVoiceSearchResults(voices: seq<Voice>, input: string)
    requires |input| >= |SearchPrefix| && SearchTerm(input) != []
    ensures var term := SearchTerm(input);
            var r := HandleVoiceSearch(voices, input);
            && (r.NoMatches? <==> forall v :: v in voices ==> !IsSimilar(term, v))
            && (r.Matches? ==>
                  && r.voices == FindSimilarVoices(term, voices)
                  && (forall v :: v in r.voices <==> v in voices && IsSimilar(term, v))
                  && (forall v :: multiset(r.voices)[v] == if IsSimilar(term, v) then multiset(voices)[v] else 0)
                  && forall i, j :: 0 <= i < j < |r.voices| ==>
                       Distance(Lower(r.voices[i].name), Lower(term))
                       <= Distance(Lower(r.voices[j].name), Lower(term)))
  {
    var term := SearchTerm(input);
    FindSimilarVoicesMatches(term, voices);
    FindSimilarVoicesSorted(term, voices);
    var m := FindSimilarVoices(term, voices);
    if m != [] {
      assert m[0] in m;
    }
  }

  /** Entries at the same distance to the term are listed in catalog order. */
  lemma HandleVoiceSearchStable(voices: seq<Voice>, input: string, d: int)
    requires |input| >= |SearchPrefix| && SearchTerm(input) != []
    ensures var term := SearchTerm(input);
            var r := HandleVoiceSearch(voices, input);
            r.Matches? ==> WithKey(r.voices, DistanceTo(term), d) == WithKey(Filter(voices, SimilarTo(term)), DistanceTo(term), d)
  {
    FindSimilarVoicesStable(SearchTerm(input), voices, d);
  }

  // ---------------------------------------------------------------------------
  // One pass of ProcessUserInputAsync

  /** What one line leads to; SpeakTextAsync is recorded as Spoken with its text
      and voice. */
  datatype Reply =
    | Goodbye
    | VoiceChanged(change: VoiceChange)
    | VoicesListed(voicesReply: VoicesReply)
    | HelpShown
    | Searched(searchReply: SearchReply)
    | Spoken(text: string, voice: Voice)

  /** The voice after a line and the reply, none for a blank line. */
  datatype Turn = Turn(voice: Voice, reply: Option<Reply>)

  /** The body of the command loop after the line is read: trim, skip blank lines,
      then exit, voice, voices, help, search, and otherwise speak, in that order. */
  function Dispatch(voices: seq<Voice>, current: Voice, line: string): (t: Turn)
    ensures t.reply.None? <==> Trim(line) == []
    ensures t.reply == Some(Goodbye) <==> Trim(line) != [] && IsExitCommand(Trim(line))
    ensures t.voice != current ==> t.reply.Some? && t.reply.value.VoiceChanged? && t.voice in voices
    ensures t.reply.Some? && t.reply.value.VoiceChanged? ==>
              StartsWithIgnoreCase(Trim(line), VoicePrefix)
              && t.reply.value.change == HandleVoiceChange(voices, Trim(line), current)
              && t.voice == t.reply.value.change.voice
    ensures t.reply.Some? && t.reply.value.VoicesListed? ==>
              StartsWithIgnoreCase(Trim(line), "voices") && !StartsWithIgnoreCase(Trim(line), VoicePrefix)
              && t.reply.value.voicesReply == HandleVoicesCommand(voices, Trim(line))
    ensures t.reply.Some? && t.reply.value.Searched? ==>
              StartsWithIgnoreCase(Trim(line), SearchPrefix)
              && t.reply.value.searchReply == HandleVoiceSearch(voices, Trim(line))
    ensures t.reply.Some? && t.reply.value.Spoken? ==> t.reply.value == Spoken(Trim(line), current)
  {
    var input := Trim(line);
    if input == [] then Turn(current, None)
    else if IsExitCommand(input) then Turn(current, Some(Goodbye))
    else if StartsWithIgnoreCase(input, VoicePrefix) then
      var result := HandleVoiceChange(voices, input, current);
      Turn(result.voice, Some(VoiceChanged(result)))
    else if StartsWithIgnoreCase(input, "voices") then Turn(current, Some(VoicesListed(HandleVoicesCommand(voices, input))))
    else if Lower(input) == "help" then Turn(current, Some(HelpShown))
    else if StartsWithIgnoreCase(input, SearchPrefix) then Turn(current, Some(Searched(HandleVoiceSearch(voices, input))))
    else Turn(current, Some(Spoken(input, current)))
  }

  /** A trimmed line that starts with `p`, whose last character is a space, goes on
      past `p` to a character that is not whitespace. */
  lemma TrimmedPastKeyword(input: string, p: string)
    requires input != [] && !IsWhiteSpace(input[|input| - 1])
    requires |p| > 0 && p[|p| - 1] == ' ' && StartsWithIgnoreCase(input, p)
    ensures |input| > |p| && Trim(input[|p|..]) != []
  {
    var k := |p| - 1;
    assert Upper(input[..|p|])[k] == Upper(p)[k];
    assert UpperChar(input[k]) == ' ';
    assert input[k] == ' ';
    assert IsWhiteSpace(' ');
    var rest := input[|p|..];
    assert rest != [] && rest[|rest| - 1] == input[|input| - 1];
    TrimEmptyIff(rest);
  }

  /** Because the line is trimmed first, "voice" with nothing but whitespace after
      it never reaches HandleVoiceChange: its missing-name report cannot occur. */
  lemma DispatchNeverMissingName(voices: seq<Voice>, current: Voice, line: string)
    ensures var t := Dispatch(voices, current, line);
            t.reply.Some? && t.reply.value.VoiceChanged? ==> !t.reply.value.change.report.MissingName?
  {
    var input := Trim(line);
    var t := Dispatch(voices, current, line);
    if t.reply.Some? && t.reply.value.VoiceChanged? {
      assert input != [] && StartsWithIgnoreCase(input, VoicePrefix);
      TrimmedPastKeyword(input, VoicePrefix);
      assert t.reply.value.change == HandleVoiceChange(voices, input, current);
    }
  }

  /** Likewise the missing-term report of HandleVoiceSearch cannot occur. */
  lemma DispatchNeverMissingTerm(voices: seq<Voice>, current: Voice, line: string)
    ensures var t := Dispatch(voices, current, line);
            t.reply.Some? && t.reply.value.Searched? ==> !t.reply.value.searchReply.MissingTerm?
  {
    var input := Trim(line);
    var t := Dispatch(voices, current, line);
    if t.reply.Some? && t.reply.value.Searched? {
      assert input != [] && StartsWithIgnoreCase(input, SearchPrefix);
      TrimmedPastKeyword(input, SearchPrefix);
      assert t.reply.value.searchReply == HandleVoiceSearch(voices, input);
    }
  }

  /** Likewise the empty-prefix report of HandleVoicesCommand cannot occur: the
      second word of a trimmed line ends in a character that is not whitespace. */
  lemma DispatchNeverEmptyPrefix(voices: seq<Voice>, current: Voice, line: string)
    ensures var t := Dispatch(voices, current, line);
            t.reply.Some? && t.reply.value.VoicesListed? ==> !t.reply.value.voicesReply.EmptyPrefix?
  {
    var input := Trim(line);
    var t := Dispatch(voices, current, line);
    if t.reply.Some? && t.reply.value.VoicesListed? && |Tokens(input)| == 2 {
      assert input != [] && t.reply.value.voicesReply == HandleVoicesCommand(voices, input);
      assert IsWhiteSpace(' ');
      TokensLast(input);
      TrimEmptyIff(Tokens(input)[1]);
    }
  }

  /** An exit command, after trimming, is answered with a goodbye. */
  lemma DispatchExit(voices: seq<Voice>, current: Voice, line: string)
    requires IsExitCommand(Trim(line))
    ensures Dispatch(voices, current, line) == Turn(current, Some(Goodbye))
  {
    assert |Upper(Trim(line))| == |Upper("exit")| || |Upper(Trim(line))| == |Upper("quit")|;
  }

  /** A trimmed line that starts with "voices" (in any letter case) is handed to
      HandleVoicesCommand. */
  lemma DispatchVoices(voices: seq<Voice>, current: Voice, line: string)
    requires StartsWithIgnoreCase(Trim(line), "voices")
    ensures Dispatch(voices, current, line)
            == Turn(current, Some(VoicesListed(HandleVoicesCommand(voices, Trim(line)))))
  {
    VoicesIsNotVoice(Trim(line));
  }

  /** A line that starts with "voices" is neither an exit command nor a "voice " command. */
  lemma VoicesIsNotVoice(input: string)
    requires StartsWithIgnoreCase(input, "voices")
    ensures input != [] && !IsExitCommand(input) && !StartsWithIgnoreCase(input, VoicePrefix)
  {
    assert Upper(input[..6]) == Upper("voices");
    assert Upper(input)[..6] == Upper(input[..6]);
    assert Upper(input)[4] == 'E' && Upper(input)[5] == 'S';
    assert |Upper(input)| == |input| >= 6;
    assert Upper(input[..6])[5] != Upper(VoicePrefix)[5];
  }

  /** A line such as "voicesxyz" (a word that merely starts with "voices") lists
      the whole catalog: the rest of the word is not taken as a prefix. */
  lemma DispatchVoicesWord(voices: seq<Voice>, current: Voice, line: string)
    requires StartsWithIgnoreCase(Trim(line), "voices") && ' ' !in Trim(line)
    ensures Dispatch(voices, current, line)
            == Turn(current, Some(VoicesListed(VoiceList(DisplayAvailableVoices(voices, None)))))
  {
    TokensOfWord(Trim(line));
    DispatchVoices(voices, current, line);
  }

  /** A line at least `n` long after trimming is not an exit word. */
  lemma LongIsNotExit(input: string)
    requires |input| > 4
    ensures input != [] && !IsExitCommand(input)
  {
    assert |Upper(input)| == |input|;
    assert |Upper("exit")| == 4 && |Upper("quit")| == 4;
  }

  /** A trimmed line that starts with "voice " (in any letter case) is handed to
      HandleVoiceChange, and the voice becomes the one it returns. */
  lemma DispatchVoiceChange(voices: seq<Voice>, current: Voice, line: string)
    requires StartsWithIgnoreCase(Trim(line), VoicePrefix)
    ensures var r := HandleVoiceChange(voices, Trim(line), current);
            Dispatch(voices, current, line) == Turn(r.voice, Some(VoiceChanged(r)))
  {
    LongIsNotExit(Trim(line));
  }

  /** `help`, in any letter case, shows the help. */
  lemma DispatchHelp(voices: seq<Voice>, current: Voice, line: string)
    requires Lower(Trim(line)) == "help"
    ensures Dispatch(voices, current, line) == Turn(current, Some(HelpShown))
  {
    var input := Trim(line);
    IsExitCommandLower(input);
    assert |input| == |Lower(input)| == 4;
  }

  /** A trimmed line that starts with "search " (in any letter case) is handed to
      HandleVoiceSearch. */
  lemma DispatchSearch(voices: seq<Voice>, current: Voice, line: string)
    requires StartsWithIgnoreCase(Trim(line), SearchPrefix)
    ensures Dispatch(voices, current, line) == Turn(current, Some(Searched(HandleVoiceSearch(voices, Trim(line)))))
  {
    SearchIsNotEarlier(Trim(line));
  }

  /** A line that starts with "search " matches none of the commands tested before it. */
  lemma SearchIsNotEarlier(input: string)
    requires StartsWithIgnoreCase(input, SearchPrefix)
    ensures input != [] && !IsExitCommand(input)
    ensures !StartsWithIgnoreCase(input, VoicePrefix) && !StartsWithIgnoreCase(input, "voices")
    ensures Lower(input) != "help"
  {
    LongIsNotExit(input);
    assert Upper(input[..7])[0] == Upper(SearchPrefix)[0] == 'S';
    assert Upper(input[..6])[0] == UpperChar(input[0]) == Upper(input[..|"voices"|])[0];
    assert |Lower(input)| == |input|;
  }

  /** Every other non-blank line is spoken with the current voice. */
  lemma DispatchSpeak(voices: seq<Voice>, current: Voice, line: string)
    requires Trim(line) != [] && !IsExitCommand(Trim(line))
    requires !StartsWithIgnoreCase(Trim(line), VoicePrefix) && !StartsWithIgnoreCase(Trim(line), "voices")
    requires Lower(Trim(line)) != "help" && !StartsWithIgnoreCase(Trim(line), SearchPrefix)
    ensures Dispatch(voices, current, line) == Turn(current, Some(Spoken(Trim(line), current)))
  {
  }

  /** "voice" with nothing after it but blanks is not a voice command: trimming
      removes the space the command needs, and the word itself is spoken. */
  lemma DispatchBareVoice(voices: seq<Voice>, current: Voice, line: string)
    requires Trim(line) == "voice"
    ensures Dispatch(voices, current, line) == Turn(current, Some(Spoken("voice", current)))
  {
    var input := Trim(line);
    assert Upper(input)[0] == 'V';
    assert Upper(input) != Upper("exit") && Upper(input) != Upper("quit");
    assert Lower(input)[0] == 'v';
    DispatchSpeak(voices, current, line);
  }

  // ---------------------------------------------------------------------------
  // ProcessUserInputAsync

  /** What a session produced: the replies in order, everything written to the
      console, the voice at the end, and whether it ended by an exit command (it
      otherwise ends when the keys run out). */
  datatype Transcript = Transcript(replies: seq<Reply>, echo: string, voice: Voice, exited: bool)

  const Prompt: string := "> "

  /** The loop body after reading: current voice and line to the next voice and reply. */
  type Dispatcher = (Voice, string) -> Turn

  /** Dispatch over the catalog `voices`. */
  function Router(voices: seq<Voice>): Dispatcher {
    (current, line) => Dispatch(voices, current, line)
  }

  /** The replies a turn adds: none for a blank line. */
  function Said(reply: Option<Reply>): seq<Reply> {
    if reply.Some? then [reply.value] else []
  }

  /** Transcript `t` after a round that wrote `echo` and answered `reply`. */
  function Then(echo: string, reply: Option<Reply>, t: Transcript): Transcript {
    Transcript(Said(reply) + t.replies, echo + t.echo, t.voice, t.exited)
  }

  /** The command loop over the keys typed: prompt, read a line, dispatch it, until
      an exit command or the end of the keys. The program's loop is
      Session(Completions(voices), Router(voices), ...). */
  function Session(complete: Completer, dispatch: Dispatcher, current: Voice, keys: seq<Key>): (t: Transcript)
    decreases |keys|
  {
    var read := Run(complete, Start, keys);
    if read.line.None? then Transcript([], Prompt + read.echo, current, false)
    else
      var turn := dispatch(current, read.line.value);
      if turn.reply == Some(Goodbye) then Transcript([Goodbye], Prompt + read.echo, current, true)
      else Then(Prompt + read.echo, turn.reply, Session(complete, dispatch, turn.voice, keys[read.consumed..]))
  }

  /** The voice in use is always the initial one or an entry of the catalog. */
  lemma {:induction false} SessionVoice(voices: seq<Voice>, current: Voice, keys: seq<Key>)
    ensures var t := Session(Completions(voices), Router(voices), current, keys);
            t.voice == current || t.voice in voices
    decreases |keys|
  {
    var read := Run(Completions(voices), Start, keys);
    if read.line.Some? {
      var turn := Dispatch(voices, current, read.line.value);
      assert Router(voices)(current, read.line.value) == turn;
      if turn.reply != Some(Goodbye) {
        SessionVoice(voices, turn.voice, keys[read.consumed..]);
      }
    }
  }

  /** A session ends with a goodbye exactly when it ends by an exit command, and
      the goodbye is its only one. */
  lemma {:induction false} SessionExit(complete: Completer, dispatch: Dispatcher, current: Voice, keys: seq<Key>)
    ensures var t := Session(complete, dispatch, current, keys);
            && (t.exited <==> t.replies != [] && t.replies[|t.replies| - 1] == Goodbye)
            && forall i :: 0 <= i < |t.replies| - 1 ==> t.replies[i] != Goodbye
    decreases |keys|
  {
    var read := Run(complete, Start, keys);
    if read.line.Some? {
      var turn := dispatch(current, read.line.value);
      if turn.reply != Some(Goodbye) {
        var rest := Session(complete, dispatch, turn.voice, keys[read.consumed..]);
        SessionExit(complete, dispatch, turn.voice, keys[read.consumed..]);
        SessionRound(complete, dispatch, current, keys, read, turn);
        var t := Session(complete, dispatch, current, keys);
        assert t.replies == Said(turn.reply) + rest.replies && t.exited == rest.exited;
      }
    }
  }

  /** Transcript `t` preceded by `replies` and `echo`. */
  function Preceded(replies: seq<Reply>, echo: string, t: Transcript): Transcript {
    Transcript(replies + t.replies, echo + t.echo, t.voice, t.exited)
  }

  lemma PrecededThen(replies: seq<Reply>, echo: string, more: string, reply: Option<Reply>, t: Transcript)
    ensures Preceded(replies, echo, Then(more, reply, t))
            == Preceded(replies + Said(reply), echo + more, t)
  {
    assert replies + (Said(reply) + t.replies) == (replies + Said(reply)) + t.replies;
    assert echo + (more + t.echo) == (echo + more) + t.echo;
  }

  /** One round of a session that neither runs out of keys nor exits. */
  lemma SessionRound(complete: Completer, dispatch: Dispatcher, current: Voice, keys: seq<Key>, read: ReadResult, turn: Turn)
    requires read == Run(complete, Start, keys) && read.line.Some?
    requires turn == dispatch(current, read.line.value) && turn.reply != Some(Goodbye)
    ensures Session(complete, dispatch, current, keys)
            == Then(Prompt + read.echo, turn.reply, Session(complete, dispatch, turn.voice, keys[read.consumed..]))
  {
  }

  /** A session whose first line is an exit command ends after it. */
  lemma SessionGoodbye(complete: Completer, dispatch: Dispatcher, current: Voice, keys: seq<Key>, read: ReadResult)
    requires read == Run(complete, Start, keys) && read.line.Some?
    requires dispatch(current, read.line.value).reply == Some(Goodbye)
    ensures Session(complete, dispatch, current, keys) == Transcript([Goodbye], Prompt + read.echo, current, true)
  {
  }

  /** A typed line that the dispatcher answers with a goodbye ends the session
      after it, with the prompt and the line echoed. */
  lemma TypedGoodbye(complete: Completer, dispatch: Dispatcher, current: Voice, s: string)
    requires Printable(s) && dispatch(current, s).reply == Some(Goodbye)
    ensures Session(complete, dispatch, current, Typing(s) + [Enter])
            == Transcript([Goodbye], Prompt + (s + "\n"), current, true)
  {
    var keys := Typing(s) + [Enter];
    TypedLine(complete, Start, s);
    assert Start.input + s == s;
    SessionGoodbye(complete, dispatch, current, keys, ReadResult(Some(s), s + "\n", |s| + 1));
  }

  /** Typing an exit command and Enter ends the session at once with a goodbye,
      the prompt and the line echoed, and the voice unchanged. */
  lemma ExitEndsSession(voices: seq<Voice>, current: Voice, s: string)
    requires Printable(s) && IsExitCommand(Trim(s))
    ensures Session(Completions(voices), Router(voices), current, Typing(s) + [Enter])
            == Transcript([Goodbye], Prompt + (s + "\n"), current, true)
  {
    DispatchExit(voices, current, s);
    assert Router(voices)(current, s).reply == Some(Goodbye);
    TypedGoodbye(Completions(voices), Router(voices), current, s);
  }

  /** The loop invariant of ProcessUserInput survives a round that does not exit. */
  lemma RoundPreserves(complete: Completer, dispatch: Dispatcher, whole: Transcript, keys: seq<Key>, pos: nat,
                       current: Voice, replies: seq<Reply>, echo: string, read: ReadResult, turn: Turn,
                       pos': int, replies': seq<Reply>, echo': string, current': Voice)
    requires pos <= |keys|
    requires whole == Preceded(replies, echo, Session(complete, dispatch, current, keys[pos..]))
    requires read == Run(complete, Start, keys[pos..]) && read.line.Some?
    requires turn == dispatch(current, read.line.value) && turn.reply != Some(Goodbye)
    requires pos' == pos + read.consumed && replies' == replies + Said(turn.reply)
    requires echo' == echo + (Prompt + read.echo) && current' == turn.voice
    ensures pos < pos' <= |keys|
    ensures whole == Preceded(replies', echo', Session(complete, dispatch, current', keys[pos'..]))
  {
    assert keys[pos..][read.consumed..] == keys[pos'..];
    var rest := Session(complete, dispatch, current', keys[pos'..]);
    SessionRound(complete, dispatch, current, keys[pos..], read, turn);
    PrecededThen(replies, echo, Prompt + read.echo, turn.reply, rest);
  }

  /** A round that ends the loop: the keys ran out, or the line was an exit command. */
  lemma RoundEnds(complete: Completer, dispatch: Dispatcher, whole: Transcript, keys: seq<Key>, pos: nat,
                  current: Voice, replies: seq<Reply>, echo: string, read: ReadResult)
    requires pos <= |keys|
    requires whole == Preceded(replies, echo, Session(complete, dispatch, current, keys[pos..]))
    requires read == Run(complete, Start, keys[pos..])
    ensures read.line.None? ==> whole == Transcript(replies, echo + (Prompt + read.echo), current, false)
    ensures read.line.Some? && dispatch(current, read.line.value).reply == Some(Goodbye) ==>
              whole == Transcript(replies + [Goodbye], echo + (Prompt + read.echo), current, true)
  {
    assert replies + [] == replies;
  }

  /** ProcessUserInputAsync: the command loop, reading each line with
      ReadLineWithTabCompletion and dispatching it. */
  method ProcessUserInput(voices: seq<Voice>, initialVoice: Voice, keys: seq<Key>) returns (t: Transcript)
    ensures t == Session(Completions(voices), Router(voices), initialVoice, keys)
  {
    var dispatch := Router(voices);
    ghost var complete := Completions(voices);
    ghost var whole := Session(complete, dispatch, initialVoice, keys);
    var currentVoice := initialVoice;
    var replies: seq<Reply> := [];
    var echo: string := [];
    var pos := 0;
    assert keys[0..] == keys;
    while true
      invariant 0 <= pos <= |keys|
      invariant whole == Preceded(replies, echo, Session(complete, dispatch, currentVoice, keys[pos..]))
      decreases |keys| - pos
    {
      var read := ReadLineWithTabCompletion(voices, keys[pos..]);
      var written := Prompt + read.echo;
      RoundEnds(complete, dispatch, whole, keys, pos, currentVoice, replies, echo, read);
      if read.line.None? {
        return Transcript(replies, echo + written, currentVoice, false);
      }
      var turn := dispatch(currentVoice, read.line.value);
      if turn.reply == Some(Goodbye) {
        return Transcript(replies + [Goodbye], echo + written, currentVoice, true);
      }
      ghost var pos0, replies0, echo0, voice0 := pos, replies, echo, currentVoice;
      pos := pos + read.consumed;
      replies := replies + Said(turn.reply);
      echo := echo + written;
      currentVoice := turn.voice;
      RoundPreserves(complete, dispatch, whole, keys, pos0, voice0, replies0, echo0, read, turn,
                     pos, replies, echo, currentVoice);
    }
  }
}
