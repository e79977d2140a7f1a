# Kokoro GPU demo console front end, in Dafny

This project models the interactive console front end of the Kokoro GPU demo (`Kokoro.Gpu.Demo/Program.cs`):

- the key loop that edits one input line, with Tab completion of voice names after `voice `, Escape to undo a completion, and Backspace;
- the command loop that trims each line and routes it to `exit`/`quit`, `voice <name>`, `voices [<prefix>]`, `help`, `search <term>`, or speech;
- the catalog queries behind those commands:
  - exact lookup;
  - fuzzy matching by substring or a Levenshtein distance of at most two, ranked by distance;
  - prefix completion in case-insensitive order;
  - the listing ordered by language, then by name;
  - the choice of the start-up voice;
- the Levenshtein distance, as the C# matrix fill;
- the retry loop that loads the speech model up to three times.

The modules follow the parts of the program:

| module | file | what it holds |
|---|---|---|
| `Text` | `text.dfy` | .NET character classes, Trim, Split, case folding and ordinal order |
| `Sorting` | `sorting.dfy` | `Where` as `Filter`, and `OrderBy` as a stable insertion sort |
| `Levenshtein` | `levenshtein.dfy` | the recurrence, plus the imperative matrix fill proved to compute it |
| `Catalog` | `catalog.dfy` | the voice queries |
| `LineEditor` | `line_editor.dfy` | see below |
| `Commands` | `commands.dfy` | the handlers, the routing of one line, and the session loop |
| `Bootstrap` | `bootstrap.dfy` | the retry loop |
| `Examples` | `examples.dfy` | worked sessions over a three-voice catalog |

`LineEditor` has two levels:
- `Step` and `Run` say what one key and a key sequence do to the loop's four variables and to the terminal.
- `ReadLineWithTabCompletion` is the C# loop, proved equal to `Run`. `HandleKey` is its switch on one key: it takes the four variables and returns their new values and what was written, and is proved equal to `Step`.

The external parts become parameters:
- The voice catalog is a `seq<Voice>`.
- The keyboard is a sequence of keys.
- The console is the string of characters written.
- Whether a model load succeeds is a function from the attempt number to `bool`.

The handlers return what they would report instead of printing it. The speech call is recorded with its text and voice.

The unparameterised loop is `Session(Completions(voices), Router(voices), ...)`. `Session` takes the completion lookup and the line dispatcher as function values. This lets its lemmas hold for any lookup and any dispatcher.

Three error branches are unreachable from the program's own command loop. The loop trims the line before routing it, so the text after `voice `, `search ` or the second word of `voices` always ends in a non-whitespace character. As a result:

- the "please specify a voice name" branch (`Program.cs:208-214`) is never taken (`Commands.DispatchNeverMissingName`);
- the "please specify a search term" branch (`Program.cs:318-323`) is never taken (`Commands.DispatchNeverMissingTerm`);
- the "please specify a valid prefix" branch (`Program.cs:358-363`) is never taken (`Commands.DispatchNeverEmptyPrefix`).

The handlers are still modelled with these branches, since they are functions of their own input.

Some lemmas only unfold one step of a definition: `LineEditor.RunStep`, `RunEnter`, `RunChar`, `StepChar` and `EscapeIdle`, and `Commands.SessionRound` and `SessionGoodbye`. They state single cases and serve as proof helpers. The properties of the key loop and the session are `TabCycle`, `TypedLine`, `ExitEndsSession`, `RoundPreserves` and `RoundEnds`.

The model load after the retry loop (`Program.cs:60`) is never reached. The exception filter `attempt < maxRetries` lets the third failure escape from inside the loop. `Bootstrap.LoadModelWithRetry` has `assert false` at that point.

## Model

| member | source | states |
|---|---|---|
| Text.UpperLowerAgree | Kokoro.Gpu.Demo/Program.cs:181-183 | the lower-casing `switch` and the OrdinalIgnoreCase comparisons identify exactly the same strings |
| Text.Trim | Kokoro.Gpu.Demo/Program.cs:146 | the result is an infix of the line with only whitespace before and after it, and it neither starts nor ends with whitespace |
| Text.TrimTrailingSpace | Kokoro.Gpu.Demo/Program.cs:146 | a trailing space never survives trimming |
| Text.TrimEmptyIff | Kokoro.Gpu.Demo/Program.cs:146-149 | a line trims to empty exactly when every character is whitespace |
| Text.Tokens | Kokoro.Gpu.Demo/Program.cs:347 | every part of `Split(' ', RemoveEmptyEntries)` is non-empty and has no space, and there are no parts exactly when the line is all spaces |
| Text.TokensAppend | Kokoro.Gpu.Demo/Program.cs:347 | the parts of `a + " " + b` are the parts of `a` followed by the parts of `b`; with TokensOfWord and the all-spaces case this fixes the split of every line |
| Text.TokensJoin | Kokoro.Gpu.Demo/Program.cs:347 | splitting undoes joining non-empty, space-free words with single spaces |
| Text.TokensOfWord | Kokoro.Gpu.Demo/Program.cs:347-353 | a non-empty line without a space splits into itself alone |
| Text.TokensLast | Kokoro.Gpu.Demo/Program.cs:347-357 | the last part of a line not ending in a space ends with the line's last character |
| Text.ContainsFirst | Kokoro.Gpu.Demo/Program.cs:264-265 | an ordinal `Contains` fails when the pattern's first character is absent |
| Text.LexLeTotal | Kokoro.Gpu.Demo/Program.cs:490 | ordinal string order is total |
| Text.LexLeAntisymmetric | Kokoro.Gpu.Demo/Program.cs:490 | ordinal string order is antisymmetric |
| Text.LexLeTransitive | Kokoro.Gpu.Demo/Program.cs:490 | ordinal string order is transitive |
| Sorting.Filter | Kokoro.Gpu.Demo/Program.cs:262-266 | `Where` keeps only elements satisfying the predicate, never more than the input |
| Sorting.FilterAppend | Kokoro.Gpu.Demo/Program.cs:262-266 | `Where` over a concatenation is `Where` over each part, in order, so filtering keeps input order |
| Sorting.FilterCount | Kokoro.Gpu.Demo/Program.cs:262-266 | `Where` keeps each satisfying element as often as it occurs, and drops the rest |
| Sorting.SortByPermutes | Kokoro.Gpu.Demo/Program.cs:267 | `OrderBy` returns a permutation of its input |
| Sorting.SortBySorted | Kokoro.Gpu.Demo/Program.cs:267 | under a total order on keys, `OrderBy` returns ascending keys |
| Sorting.SortByStable | Kokoro.Gpu.Demo/Program.cs:267 | `OrderBy` is stable: elements with equal keys keep their input order |
| Levenshtein.Distance | Kokoro.Gpu.Demo/Program.cs:270-299 | the edit distance, as the recurrence the matrix cells hold; DistanceSymmetric, DistanceBounds and DistanceZeroIff state its properties, and LevenshteinDistance is proved to compute it |
| Levenshtein.LevenshteinDistance | Kokoro.Gpu.Demo/Program.cs:270-299 | the method returns the edit distance of the two strings, and each length when the other string is empty |
| Levenshtein.FillRow | Kokoro.Gpu.Demo/Program.cs:287-296 | filling row i makes every cell of rows 0..i equal to the recurrence and leaves later rows alone |
| Levenshtein.DStep | Kokoro.Gpu.Demo/Program.cs:291-294 | the recurrence of an inner cell, written with two `Math.Min` calls, is the three-way minimum |
| Levenshtein.DistanceSymmetric | Kokoro.Gpu.Demo/Program.cs:270-299 | the distance does not depend on the order of its arguments |
| Levenshtein.DistanceBounds | Kokoro.Gpu.Demo/Program.cs:270-299 | the distance lies between the length difference and the larger length |
| Levenshtein.DistanceZeroIff | Kokoro.Gpu.Demo/Program.cs:270-299 | the distance is zero exactly when the strings are equal |
| Levenshtein.DistanceDropLast | Kokoro.Gpu.Demo/Program.cs:270-299 | a string and itself without its last character are one edit apart |
| Catalog.GetVoice | Kokoro.Gpu.Demo/Program.cs:217-218 | the lookup finds an entry exactly when one has that exact name, and what it finds has that name |
| Catalog.LexLeTotalOrder | Kokoro.Gpu.Demo/Program.cs:490 | the order of the completion comparer is a total order |
| Catalog.PairLeTotalOrder | Kokoro.Gpu.Demo/Program.cs:93 | ordering by language and then by name is a total order |
| Catalog.IntLeTotalOrder | Kokoro.Gpu.Demo/Program.cs:267 | ordering by distance is a total order |
| Catalog.IsSimilar | Kokoro.Gpu.Demo/Program.cs:262-266 | the `Where` test: the lowered term occurs in the lowered name or language, or the lowered name is within two edits of it; FindSimilarVoicesMatches states that the result keeps exactly the entries passing it |
| Catalog.FindSimilarVoices | Kokoro.Gpu.Demo/Program.cs:258-268 | the fuzzy match; FindSimilarVoicesMatches, FindSimilarVoicesSorted and FindSimilarVoicesStable state that it is the similar entries, by ascending distance, ties in catalog order |
| Catalog.FindSimilarVoicesMatches | Kokoro.Gpu.Demo/Program.cs:258-268 | the fuzzy match holds exactly the similar entries, each as often as the catalog lists it |
| Catalog.FindSimilarVoicesSorted | Kokoro.Gpu.Demo/Program.cs:267 | the matches come in ascending edit distance of the lowered name to the lowered term |
| Catalog.FindSimilarVoicesStable | Kokoro.Gpu.Demo/Program.cs:262-267 | matches at equal distance keep catalog order |
| Catalog.NamesFilter | Kokoro.Gpu.Demo/Program.cs:487-489 | selecting names after filtering entries equals filtering the names |
| Catalog.NamesMembers | Kokoro.Gpu.Demo/Program.cs:489 | the names are exactly the names of the catalog's entries |
| Catalog.GetVoiceCompletions | Kokoro.Gpu.Demo/Program.cs:482-491 | the Tab completions; GetVoiceCompletionsMatches, GetVoiceCompletionsSorted and GetVoiceCompletionsStable state that they are the names with the prefix, in OrdinalIgnoreCase order, ties in catalog order |
| Catalog.GetVoiceCompletionsMatches | Kokoro.Gpu.Demo/Program.cs:482-491 | the completions are exactly the catalog names starting case-insensitively with the prefix, with their multiplicities |
| Catalog.GetVoiceCompletionsSorted | Kokoro.Gpu.Demo/Program.cs:490 | the completions are in ascending OrdinalIgnoreCase order |
| Catalog.GetVoiceCompletionsStable | Kokoro.Gpu.Demo/Program.cs:487-490 | names that are equal up to case keep catalog order |
| Catalog.DisplayAvailableVoices | Kokoro.Gpu.Demo/Program.cs:63-99 | the listing; DisplayAvailableVoicesListing states its three outcomes and the language-then-name order |
| Catalog.DisplayAvailableVoicesListing | Kokoro.Gpu.Demo/Program.cs:63-99 | the listing reports an empty catalog, or no entry with the prefix, or a language-then-name ordered permutation of exactly the entries that pass the filter |
| Catalog.GetDefaultVoice | Kokoro.Gpu.Demo/Program.cs:101-120 | `bm_lewis` if listed, otherwise the first entry, and nothing only for an empty catalog |
| LineEditor.Step | Kokoro.Gpu.Demo/Program.cs:382-479 | one key keeps the editor invariant (index in range, buffer showing the selected completion), and only Enter returns a line |
| LineEditor.Run | Kokoro.Gpu.Demo/Program.cs:382-479 | reading stops exactly at the first Enter; without one, every key is consumed and no line is returned |
| LineEditor.Tabs | Kokoro.Gpu.Demo/Program.cs:404-450 | any number of Tabs keeps the editor invariant |
| LineEditor.RunStep | Kokoro.Gpu.Demo/Program.cs:382-390 | Enter ends the read, and any other key continues it from the new state |
| LineEditor.TabCycle | Kokoro.Gpu.Demo/Program.cs:404-441 | the k-th Tab after `voice <prefix>` shows completion (k-1) mod n of the prefix, wrapping round; with no completion the buffer is unchanged |
| LineEditor.TabFirst | Kokoro.Gpu.Demo/Program.cs:412-441 | the first Tab saves the line, looks completions up, clears the line and writes `voice ` plus the first one; with no completion it only beeps |
| LineEditor.TabNext | Kokoro.Gpu.Demo/Program.cs:427-441 | a further Tab moves to the next completion modulo the list length, clearing the line and writing `voice ` plus that completion |
| LineEditor.TabElsewhere | Kokoro.Gpu.Demo/Program.cs:443-448 | Tab on a line not starting with `voice ` changes nothing and writes nothing |
| LineEditor.TabsThenEscape | Kokoro.Gpu.Demo/Program.cs:452-462 | Escape after Tabs clears the shown completion, rewrites the line typed before the first Tab and ends completion; after Tabs that found nothing it does nothing |
| LineEditor.EscapeIdle | Kokoro.Gpu.Demo/Program.cs:452-464 | Escape outside a completion changes nothing and writes nothing |
| LineEditor.EditingEndsCompletion | Kokoro.Gpu.Demo/Program.cs:392-477 | Backspace removes the last character writing backspace-space-backspace, a printable key is appended and echoed, both end completion; a control key or Backspace on an empty line is ignored; Backspace undoes a typed character |
| LineEditor.TypedLine | Kokoro.Gpu.Demo/Program.cs:466-477 | typing printable characters then Enter returns the buffer extended by them and echoes them and a newline |
| LineEditor.RunEnter | Kokoro.Gpu.Demo/Program.cs:388-390 | Enter returns the buffer at once and writes a newline |
| LineEditor.RunChar | Kokoro.Gpu.Demo/Program.cs:466-477 | a printable key appends and echoes its character, and the loop goes on |
| LineEditor.StepChar | Kokoro.Gpu.Demo/Program.cs:466-477 | a printable key appends its character and ends completion |
| LineEditor.ClearCurrentLine | Kokoro.Gpu.Demo/Program.cs:493-512 | the output is n backspaces, then n spaces, then n backspaces |
| LineEditor.HandleKey | Kokoro.Gpu.Demo/Program.cs:386-478 | the switch on a non-Enter key, run on the loop's variables, has exactly the effect of `Step` |
| LineEditor.ReadLineWithTabCompletion | Kokoro.Gpu.Demo/Program.cs:375-480 | the key loop returns exactly what `Run` gives from the initial state |
| Commands.IsExitCommand | Kokoro.Gpu.Demo/Program.cs:200-202 | the exit test; IsExitCommandLower states that it holds exactly for `exit` and `quit` in any letter case |
| Commands.IsExitCommandLower | Kokoro.Gpu.Demo/Program.cs:200-202 | the exit test holds exactly when the line lower-cases to `exit` or `quit` |
| Commands.Take | Kokoro.Gpu.Demo/Program.cs:233 | `Take(n)` is the prefix of length min(n, count) |
| Commands.HandleVoiceChange | Kokoro.Gpu.Demo/Program.cs:204-256 | the switch succeeds exactly when a non-empty name matches an entry exactly, and then the new voice is that entry; otherwise the current voice is kept; the missing-name report appears exactly for an empty name |
| Commands.HandleVoiceChangeSuggests | Kokoro.Gpu.Demo/Program.cs:224-237 | "did you mean" offers the first min(3, n) of the n best-ranked similar entries, in rank order |
| Commands.HandleVoiceChangeLists | Kokoro.Gpu.Demo/Program.cs:238-250 | with nothing similar, the report shows the first min(5, n) entries of the catalog and counts the n - 5 others |
| Commands.CaseMismatchSuggests | Kokoro.Gpu.Demo/Program.cs:216-237 | a name that differs from an entry only in case fails the switch but always gets "did you mean" |
| Commands.HandleVoicesCommand | Kokoro.Gpu.Demo/Program.cs:345-373 | one word lists everything, two words with a non-empty prefix list by prefix, and any other word count is a usage error |
| Commands.HandleVoicesCommandPrefix | Kokoro.Gpu.Demo/Program.cs:354-366 | `voices <prefix>` is the prefix listing: exactly the entries starting with the prefix, ordered by language then name, or a report that none does or that the catalog is empty |
| Commands.HandleVoiceSearch | Kokoro.Gpu.Demo/Program.cs:314-343 | the missing-term report appears exactly for an empty term, and every other report carries the trimmed term |
| Commands.HandleVoiceSearchResults | Kokoro.Gpu.Demo/Program.cs:325-339 | a search finds nothing exactly when no entry is similar; otherwise it lists the FindSimilarVoices result: every similar entry, closest first |
| Commands.HandleVoiceSearchStable | Kokoro.Gpu.Demo/Program.cs:326-338 | search results at equal distance are listed in catalog order |
| Commands.Dispatch | Kokoro.Gpu.Demo/Program.cs:146-196 | blank lines give no reply; goodbye comes exactly for an exit word; each kind of reply comes from its handler on the trimmed line; only a voice change changes the voice, and only to a catalog entry |
| Commands.DispatchVoiceChange | Kokoro.Gpu.Demo/Program.cs:158-171 | a trimmed line starting with `voice ` goes to HandleVoiceChange and the voice becomes the one it returns |
| Commands.DispatchHelp | Kokoro.Gpu.Demo/Program.cs:180-186 | `help` in any letter case shows the help |
| Commands.DispatchSearch | Kokoro.Gpu.Demo/Program.cs:188-193 | a trimmed line starting with `search ` goes to HandleVoiceSearch |
| Commands.SearchIsNotEarlier | Kokoro.Gpu.Demo/Program.cs:152-189 | a `search ` line is not an exit word, a `voice ` or `voices` line, or `help`, so the earlier tests never take it |
| Commands.DispatchSpeak | Kokoro.Gpu.Demo/Program.cs:195-196 | a non-blank line matching no command is spoken, trimmed, with the current voice |
| Commands.DispatchBareVoice | Kokoro.Gpu.Demo/Program.cs:146-196 | a line that trims to `voice` is spoken, because trimming removed the space `voice ` needs |
| Commands.TrimmedPastKeyword | Kokoro.Gpu.Demo/Program.cs:159-161 | a trimmed line starting with a keyword that ends in a space has non-blank text after the keyword |
| Commands.DispatchNeverMissingName | Kokoro.Gpu.Demo/Program.cs:206-214 | a routed `voice ` line never yields the missing-name report |
| Commands.DispatchNeverMissingTerm | Kokoro.Gpu.Demo/Program.cs:316-323 | a routed `search ` line never yields the missing-term report |
| Commands.DispatchNeverEmptyPrefix | Kokoro.Gpu.Demo/Program.cs:357-363 | a routed `voices` line never yields the empty-prefix report |
| Commands.DispatchExit | Kokoro.Gpu.Demo/Program.cs:151-156 | an exit word, after trimming, is answered with goodbye and keeps the voice |
| Commands.DispatchVoices | Kokoro.Gpu.Demo/Program.cs:174-178 | any trimmed line starting with `voices` goes to HandleVoicesCommand |
| Commands.VoicesIsNotVoice | Kokoro.Gpu.Demo/Program.cs:152-174 | a line starting with `voices` is neither an exit word nor a `voice ` command |
| Commands.DispatchVoicesWord | Kokoro.Gpu.Demo/Program.cs:174-176 | a single word starting with `voices` (such as `voicesxyz`) lists the whole catalog |
| Commands.Session | Kokoro.Gpu.Demo/Program.cs:139-198 | the command loop over a key sequence; SessionVoice, SessionExit and ExitEndsSession state the voice it carries and when it ends, and ProcessUserInput is proved to compute it |
| Commands.SessionVoice | Kokoro.Gpu.Demo/Program.cs:141-197 | the voice in use is always the initial voice or a catalog entry |
| Commands.SessionExit | Kokoro.Gpu.Demo/Program.cs:151-156 | a session exits exactly when its last reply is goodbye, and no earlier reply is goodbye |
| Commands.SessionRound | Kokoro.Gpu.Demo/Program.cs:143-197 | a round that reads a line and does not exit writes the prompt and echo, adds its reply, and continues on the remaining keys |
| Commands.SessionGoodbye | Kokoro.Gpu.Demo/Program.cs:151-156 | a first line answered with goodbye ends the session after it |
| Commands.TypedGoodbye | Kokoro.Gpu.Demo/Program.cs:145-156 | typing a goodbye line and Enter ends the session with the prompt and the echoed line as its output |
| Commands.ExitEndsSession | Kokoro.Gpu.Demo/Program.cs:145-156 | typing `exit` or `quit`, in any case and with surrounding blanks, then Enter ends the session with only goodbye and the voice unchanged |
| Commands.RoundPreserves | Kokoro.Gpu.Demo/Program.cs:143-197 | a round that does not exit consumes at least one key and keeps the loop invariant |
| Commands.RoundEnds | Kokoro.Gpu.Demo/Program.cs:146-156 | the loop ends with the whole session's transcript when the keys run out or an exit word is read |
| Commands.ProcessUserInput | Kokoro.Gpu.Demo/Program.cs:139-198 | the command loop produces the session transcript of its keys |
| Bootstrap.LoadModelWithRetry | Kokoro.Gpu.Demo/Program.cs:42-61 | loading succeeds exactly when one of attempts 1..3 does; it stops at the first success; a failure is at attempt 3; one retry message comes per failed attempt before the last |
| Examples.DefaultIsLewis | Kokoro.Gpu.Demo/Program.cs:101-107 | `bm_lewis` is chosen although it is listed last |
| Examples.CompletionsOfB | Kokoro.Gpu.Demo/Program.cs:482-491 | the prefix `b` completes to `bf_bella`, `bm_lewis`, in that order |
| Examples.TabCyclesCatalog | Kokoro.Gpu.Demo/Program.cs:404-441 | three Tabs after `voice b` show `bf_bella`, `bm_lewis`, `bf_bella` |
| Examples.SuggestsLewis | Kokoro.Gpu.Demo/Program.cs:224-237 | `voice bm_lewi` keeps the current voice and suggests `bm_lewis` |
| Examples.VoicesBfRoutes | Kokoro.Gpu.Demo/Program.cs:174-176 | `voices bf_` is the prefix listing for `bf_` on any catalog |
| Examples.BareVoiceSpoken | Kokoro.Gpu.Demo/Program.cs:146-196 | `voice   ` is spoken as the word `voice` |
| Examples.BfListing | Kokoro.Gpu.Demo/Program.cs:73-96 | of three entries, only `bf_bella` starts with `bf_` |
| Examples.ListsByPrefix | Kokoro.Gpu.Demo/Program.cs:345-366 | `voices bf_` lists `bf_bella` alone |
| Examples.GbNotHeart | Kokoro.Gpu.Demo/Program.cs:262-266 | `af_heart` (en-us) is not similar to `gb` |
| Examples.SearchGb | Kokoro.Gpu.Demo/Program.cs:314-339 | `search gb` matches exactly the two en-gb voices |
| Examples.LoadsOnSecondAttempt | Kokoro.Gpu.Demo/Program.cs:42-61 | a loader that fails once loads at attempt 2 after one retry message |

## Left out

- Case mapping covers the ASCII letters only. In the model, `Lower` and `Upper` map every non-ASCII character to itself. .NET's `ToLowerInvariant` and OrdinalIgnoreCase also fold non-ASCII letters, and that is not modelled.
- `OrderBy(v => v.Language).ThenBy(v => v.Name)` uses the culture-sensitive default string comparer. The model orders by ordinal comparison of (language, name) instead, because culture collation tables are outside the model.
- Console wording, emoji and colours are left out. Each handler returns a report datatype carrying the data its messages show: names, suggestions, counts and the term.
- `ShowHelp` is recorded as the `HelpShown` reply. Its text is not modelled.
- The blank line written after a successful switch (`Program.cs:165-168`) and the blank line at the end of each listing are not part of the echo. The echo holds only what the key loop and the prompt write.
- `Console.Beep` is written to the echo as the BEL character.
- `Console.WriteLine()` writes `Environment.NewLine`, which is `"\r\n"` on Windows. The model writes `"\n"` because the platform is not modelled.
- Characters are Dafny `char`s, which are Unicode scalar values. C# strings and `KeyChar` are UTF-16 code units. The model does not capture lengths counted in UTF-16, ordinal order above U+FFFF, or lone surrogates.
- `SpeakTextAsync`, `KokoroTTS.SpeakFast` and the exception it may raise are recorded as the `Spoken` reply with its text and voice. The speech engine is external.
- Async execution, `Task.Run`, and the one-second `Task.Delay` between load attempts are left out. The loop awaits each call, so the order of events is unchanged.
- `KokoroVoiceManager` is a `seq<Voice>`. `GetVoice` is taken to return the first entry with exactly that name. The `dynamic` typing of voices is reduced to their name and language.
- `Console.ReadKey` is a finite sequence of keys. The real call blocks when no key is available. In the model, running out of keys before Enter gives no line, and the session then ends without a goodbye.
- Bootstrap.LoadModelWithRetry: the model loader is the parameter `succeeds`. Exception messages and the "Failed to load model" text are not modelled.
- `Main` and `RunTtsDemoAsync` are not part of this model. They print banners, chain model loading, default-voice choice and the command loop, and report an escaping exception. Each step they call is modelled on its own.
- C# `int` overflow is not modelled. Lengths, distances and indices stay far below 2^31 for any string the console can hold.
