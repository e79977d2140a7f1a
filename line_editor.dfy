/** ReadLineWithTabCompletion and ClearCurrentLine. The key loop keeps four local
    variables (the input buffer, the completion list, the completion index with -1
    for "no completion in progress", and the input saved at the first Tab). Step is
    the effect of one key on those variables and on the terminal; Run folds it over
    a key sequence up to Enter; ReadLineWithTabCompletion is the C# loop, proved to
    compute Run. Terminal output is the sequence of characters written. */
module LineEditor {
  import opened Wrappers
  import opened Text
  import opened Catalog

  /** The keys the loop tells apart; every other key arrives as Other with its KeyChar. */
  datatype Key = Enter | Backspace | Tab | Escape | Other(keyChar: char)

  /** The command word whose argument Tab completes. */
  const Keyword: string := "voice "

  /** The character "\b" the C# code writes to move the cursor one cell left. */
  const Back: char := 8 as char

  /** Console.Beep, written to the echo stream as BEL. */
  const Bell: char := 7 as char

  /** The completion lookup the loop calls on Tab: prefix to completion list. */
  type Completer = string -> seq<string>

  /** GetVoiceCompletions over the catalog `voices`. */
  function Completions(voices: seq<Voice>): Completer {
    prefix => GetVoiceCompletions(prefix, voices)
  }

  /** The loop's local variables: input, completions, completionIndex, originalInput. */
  datatype Editor = Editor(input: string, completions: seq<string>, completionIndex: int, originalInput: string)

  /** The variables as the loop starts. */
  const Start: Editor := Editor([], [], -1, [])

  /** The editor invariant: either no completion is in progress and the list is
      empty, or the index is in range, the buffer shows the selected completion
      after the keyword, and the list is the completion set of the input saved at
      the first Tab. */
  predicate Valid(complete: Completer, e: Editor) {
    if e.completionIndex == -1 then e.completions == []
    else 0 <= e.completionIndex < |e.completions|
         && e.input == Keyword + e.completions[e.completionIndex]
         && StartsWithIgnoreCase(e.originalInput, Keyword)
         && e.completions == complete(e.originalInput[|Keyword|..])
  }

  function Repeat(c: char, n: nat): (r: string)
    ensures |r| == n && forall i :: 0 <= i < n ==> r[i] == c
  {
    seq(n, i => c)
  }

  /** What ClearCurrentLine(n) writes: n backspaces, n spaces, n backspaces. */
  function ClearEcho(n: nat): string {
    Repeat(Back, n) + Repeat(' ', n) + Repeat(Back, n)
  }

  /** The effect of one key: the variables afterwards, what was written, and the
      line returned when the key was Enter. */
  datatype Effect = Effect(next: Editor, echo: string, line: Option<string>)

  /** One pass of the key loop. */
  function Step(complete: Completer, e: Editor, key: Key): (r: Effect)
    requires Valid(complete, e)
    ensures Valid(complete, r.next)
    ensures r.line.Some? <==> key == Enter
  {
    match key
    case Enter => Effect(e, "\n", Some(e.input))
    case Backspace =>
      if |e.input| > 0 then Effect(Editor(e.input[..|e.input| - 1], [], -1, e.originalInput), [Back, ' ', Back], None)
      else Effect(e, "", None)
    case Tab =>
      if StartsWithIgnoreCase(e.input, Keyword) then
        if e.completionIndex == -1 then
          var found := complete(e.input[|Keyword|..]);
          if |found| == 0 then Effect(Editor(e.input, found, -1, e.input), [Bell], None)
          else
            var shown := Keyword + found[0];
            Effect(Editor(shown, found, 0, e.input), ClearEcho(|e.input|) + shown, None)
        else
          var k := (e.completionIndex + 1) % |e.completions|;
          var shown := Keyword + e.completions[k];
          Effect(Editor(shown, e.completions, k, e.originalInput), ClearEcho(|e.input|) + shown, None)
      else Effect(Editor(e.input, [], -1, e.originalInput), "", None)
    case Escape =>
      if e.completionIndex != -1 && |e.originalInput| > 0 then
        Effect(Editor(e.originalInput, [], -1, e.originalInput), ClearEcho(|e.input|) + e.originalInput, None)
      else Effect(e, "", None)
    case Other(c) =>
      if IsControl(c) then Effect(e, "", None)
      else Effect(Editor(e.input + [c], [], -1, e.originalInput), [c], None)
  }

  /** The outcome of reading one line: the line (none if the keys ran out before
      Enter), everything written, and how many keys were consumed. */
  datatype ReadResult = ReadResult(line: Option<string>, echo: string, consumed: nat)

  /** The key loop from editor state `e` over `keys`, stopping after the first Enter. */
  function Run(complete: Completer, e: Editor, keys: seq<Key>): (r: ReadResult)
    requires Valid(complete, e)
    ensures r.consumed <= |keys|
    ensures r.line.Some? ==> 1 <= r.consumed && keys[r.consumed - 1] == Enter && Enter !in keys[..r.consumed - 1]
    ensures r.line.None? ==> r.consumed == |keys| && Enter !in keys
    decreases |keys|
  {
    if keys == [] then ReadResult(None, [], 0)
    else
      var s := Step(complete, e, keys[0]);
      if s.line.Some? then ReadResult(s.line, s.echo, 1)
      else
        var rest := Run(complete, s.next, keys[1..]);
        assert keys == [keys[0]] + keys[1..];
        ReadResult(rest.line, s.echo + rest.echo, rest.consumed + 1)
  }

  /** `r` preceded by `echo` written and `n` keys consumed. */
  function After(echo: string, n: nat, r: ReadResult): ReadResult {
    ReadResult(r.line, echo + r.echo, n + r.consumed)
  }

  /** Run after one more key: Enter ends the line, any other key continues it. */
  lemma RunStep(complete: Completer, e: Editor, keys: seq<Key>, i: nat)
    requires Valid(complete, e) && i < |keys|
    ensures var s := Step(complete, e, keys[i]);
            Run(complete, e, keys[i..])
            == if s.line.Some? then ReadResult(s.line, s.echo, 1)
               else After(s.echo, 1, Run(complete, s.next, keys[i + 1..]))
  {
    assert keys[i..][1..] == keys[i + 1..];
  }

  lemma AfterAfter(a: string, b: string, n: nat, r: ReadResult)
    ensures After(a, n, After(b, 1, r)) == After(a + b, n + 1, r)
  {
    assert a + (b + r.echo) == (a + b) + r.echo;
  }

  /** The editor after `k` presses of Tab. */
  function Tabs(complete: Completer, e: Editor, k: nat): (r: Editor)
    requires Valid(complete, e)
    ensures Valid(complete, r)
  {
    if k == 0 then e else Step(complete, Tabs(complete, e, k - 1), Tab).next
  }

  lemma MulAtLeast(d: int, n: int)
    requires d >= 1 && n > 0
    ensures d * n >= n
  {
    if d > 1 {
      MulAtLeast(d - 1, n);
      assert d * n == (d - 1) * n + n;
    }
  }

  /** `%` is determined by any quotient and remainder in range. */
  lemma ModUnique(a: int, n: int, q: int, r: int)
    requires n > 0 && 0 <= r < n && a == q * n + r
    ensures a % n == r
  {
    var q', r' := a / n, a % n;
    assert a == q' * n + r';
    assert (q - q') * n == r' - r;
    if q > q' {
      MulAtLeast(q - q', n);
    } else if q' > q {
      MulAtLeast(q' - q, n);
    }
  }

  lemma ModSucc(a: nat, n: nat)
    requires n > 0
    ensures ((a % n) + 1) % n == (a + 1) % n
  {
    var q, m := a / n, a % n;
    assert a == q * n + m;
    if m + 1 < n {
      ModUnique(m + 1, n, 0, m + 1);
      ModUnique(a + 1, n, q, m + 1);
    } else {
      ModUnique(m + 1, n, 1, 0);
      ModUnique(a + 1, n, q + 1, 0);
    }
  }

  /** Tab cycles: after a line "voice <prefix>" with no completion in progress, the
      k-th Tab shows completion (k-1) mod |C| of the prefix's completion list C,
      wrapping round; with no completion the buffer stays as it was. */
  lemma {:induction false} TabCycle(complete: Completer, e: Editor, k: nat)
    requires Valid(complete, e) && e.completionIndex == -1 && StartsWithIgnoreCase(e.input, Keyword)
    requires k >= 1
    ensures var c := complete(e.input[|Keyword|..]);
            Tabs(complete, e, k)
            == if c == [] then Editor(e.input, [], -1, e.input)
               else Editor(Keyword + c[(k - 1) % |c|], c, (k - 1) % |c|, e.input)
  {
    var c := complete(e.input[|Keyword|..]);
    if k == 1 {
      assert Tabs(complete, e, 1) == Step(complete, e, Tab).next;
      TabFirst(complete, e);
      if c != [] {
        ModUnique(0, |c|, 0, 0);
      }
    } else {
      TabCycle(complete, e, k - 1);
      var prev := Tabs(complete, e, k - 1);
      assert Tabs(complete, e, k) == Step(complete, prev, Tab).next;
      if c == [] {
        assert prev == Editor(e.input, [], -1, e.input);
        TabFirst(complete, prev);
      } else {
        var j := (k - 2) % |c|;
        assert prev == Editor(Keyword + c[j], c, j, e.input);
        TabNext(complete, prev);
        ModSucc(k - 2, |c|);
        assert (j + 1) % |c| == (k - 1) % |c|;
      }
    }
  }

  /** The first Tab on a "voice " line looks the completions up and shows the first,
      clearing the line and writing the completed command; with no completion it beeps. */
  lemma TabFirst(complete: Completer, e: Editor)
    requires Valid(complete, e) && e.completionIndex == -1 && StartsWithIgnoreCase(e.input, Keyword)
    ensures var c := complete(e.input[|Keyword|..]);
            Step(complete, e, Tab)
            == if c == [] then Effect(Editor(e.input, [], -1, e.input), [Bell], None)
               else Effect(Editor(Keyword + c[0], c, 0, e.input), ClearEcho(|e.input|) + (Keyword + c[0]), None)
  {
  }

  /** A further Tab shows the next completion, wrapping round after the last, by
      clearing the line and writing the completed command. */
  lemma TabNext(complete: Completer, e: Editor)
    requires Valid(complete, e) && e.completionIndex != -1
    ensures var k := (e.completionIndex + 1) % |e.completions|;
            var shown := Keyword + e.completions[k];
            Step(complete, e, Tab) == Effect(Editor(shown, e.completions, k, e.originalInput), ClearEcho(|e.input|) + shown, None)
  {
    assert (Keyword + e.completions[e.completionIndex])[..|Keyword|] == Keyword;
  }

  /** Tab on a line that does not start with the keyword does nothing: no
      completion can be in progress there, so the reset leaves the state as it was
      and nothing is written. */
  lemma TabElsewhere(complete: Completer, e: Editor)
    requires Valid(complete, e) && !StartsWithIgnoreCase(e.input, Keyword)
    ensures Step(complete, e, Tab) == Effect(e, "", None)
  {
  }

  /** Escape after one or more Tabs puts back the line as it was before the first
      Tab and ends the completion, clearing the shown completion and rewriting the
      line; when the Tabs found nothing, Escape does nothing. */
  lemma TabsThenEscape(complete: Completer, e: Editor, k: nat)
    requires Valid(complete, e) && e.completionIndex == -1 && StartsWithIgnoreCase(e.input, Keyword)
    requires k >= 1
    ensures var c := complete(e.input[|Keyword|..]);
            var t := Tabs(complete, e, k);
            Step(complete, t, Escape)
            == if c == [] then Effect(t, "", None)
               else Effect(Editor(e.input, [], -1, e.input), ClearEcho(|Keyword + c[(k - 1) % |c|]|) + e.input, None)
    ensures Step(complete, Tabs(complete, e, k), Escape).next == Editor(e.input, [], -1, e.input)
  {
    TabCycle(complete, e, k);
    assert |e.input| >= |Keyword| > 0;
  }

  /** Escape outside a completion changes nothing and writes nothing. */
  lemma EscapeIdle(complete: Completer, e: Editor)
    requires Valid(complete, e) && e.completionIndex == -1
    ensures Step(complete, e, Escape) == Effect(e, "", None)
  {
  }

  /** Editing the buffer ends any completion: Backspace removes the last character
      and a printable character is appended; control characters are ignored. */
  lemma EditingEndsCompletion(complete: Completer, e: Editor, c: char)
    requires Valid(complete, e)
    ensures e.input != [] ==>
              Step(complete, e, Backspace) == Effect(Editor(e.input[..|e.input| - 1], [], -1, e.originalInput), [Back, ' ', Back], None)
    ensures e.input == [] ==> Step(complete, e, Backspace) == Effect(e, "", None)
    ensures !IsControl(c) ==> Step(complete, e, Other(c)) == Effect(Editor(e.input + [c], [], -1, e.originalInput), [c], None)
    ensures IsControl(c) ==> Step(complete, e, Other(c)) == Effect(e, "", None)
    ensures !IsControl(c) ==> Step(complete, Step(complete, e, Other(c)).next, Backspace).next.input == e.input
  {
    assert (e.input + [c])[..|e.input|] == e.input;
  }

  /** The keys that type `s`. */
  function Typing(s: string): (keys: seq<Key>)
    ensures |keys| == |s| && forall i :: 0 <= i < |s| ==> keys[i] == Other(s[i])
  {
    seq(|s|, i requires 0 <= i < |s| => Other(s[i]))
  }

  /** No character of `s` is a control character. */
  predicate Printable(s: string) {
    forall i :: 0 <= i < |s| ==> !IsControl(s[i])
  }

  /** Typing printable characters and then Enter returns the buffer with those
      characters appended, having echoed them and the line break. */
  lemma {:induction false} TypedLine(complete: Completer, e: Editor, s: string)
    requires Valid(complete, e) && Printable(s)
    ensures Run(complete, e, Typing(s) + [Enter]) == ReadResult(Some(e.input + s), s + "\n", |s| + 1)
    decreases |s|
  {
    if s == [] {
      assert Typing(s) + [Enter] == [Enter] + [];
      RunEnter(complete, e, []);
      assert e.input + s == e.input && s + "\n" == "\n";
    } else {
      var e' := Editor(e.input + [s[0]], [], -1, e.originalInput);
      assert !IsControl(s[0]) && Printable(s[1..]);
      assert Typing(s) + [Enter] == [Other(s[0])] + (Typing(s[1..]) + [Enter]);
      RunChar(complete, e, s[0], Typing(s[1..]) + [Enter]);
      TypedLine(complete, e', s[1..]);
      assert e.input + [s[0]] + s[1..] == e.input + s;
      assert [s[0]] + (s[1..] + "\n") == s + "\n";
    }
  }

  /** Enter returns the buffer at once. */
  lemma RunEnter(complete: Completer, e: Editor, keys: seq<Key>)
    requires Valid(complete, e)
    ensures Run(complete, e, [Enter] + keys) == ReadResult(Some(e.input), "\n", 1)
  {
  }

  /** A printable key appends its character, echoes it, and the loop goes on. */
  lemma RunChar(complete: Completer, e: Editor, c: char, keys: seq<Key>)
    requires Valid(complete, e) && !IsControl(c)
    ensures Run(complete, e, [Other(c)] + keys)
            == After([c], 1, Run(complete, Editor(e.input + [c], [], -1, e.originalInput), keys))
  {
    var all := [Other(c)] + keys;
    RunStep(complete, e, all, 0);
    assert all[0..] == all && all[0] == Other(c) && all[1..] == keys;
    StepChar(complete, e, c);
  }

  lemma StepChar(complete: Completer, e: Editor, c: char)
    requires Valid(complete, e) && !IsControl(c)
    ensures Step(complete, e, Other(c)) == Effect(Editor(e.input + [c], [], -1, e.originalInput), [c], None)
  {
  }

  /** ClearCurrentLine: three output loops. */
  method ClearCurrentLine(length: nat) returns (out: string)
    ensures out == ClearEcho(length)
    ensures |out| == 3 * length
    ensures forall i :: 0 <= i < length ==> out[i] == Back
    ensures forall i :: length <= i < 2 * length ==> out[i] == ' '
    ensures forall i :: 2 * length <= i < 3 * length ==> out[i] == Back
  {
    out := [];
    for i := 0 to length
      invariant out == Repeat(Back, i)
    {
      out := out + [Back];
    }
    for i := 0 to length
      invariant out == Repeat(Back, length) + Repeat(' ', i)
    {
      out := out + [' '];
    }
    for i := 0 to length
      invariant out == Repeat(Back, length) + Repeat(' ', length) + Repeat(Back, i)
    {
      out := out + [Back];
    }
  }

  /** One pass of the key loop of ReadLineWithTabCompletion for a key other than
      Enter: the switch on the key, taking the loop's four variables and returning
      their new values and what was written; it computes `Step`. */
  method HandleKey(voices: seq<Voice>, key: Key, input0: string, completions0: seq<string>,
                   completionIndex0: int, originalInput0: string)
    returns (input: string, completions: seq<string>, completionIndex: int, originalInput: string, written: string)
    requires key != Enter
    requires Valid(Completions(voices), Editor(input0, completions0, completionIndex0, originalInput0))
    ensures Step(Completions(voices), Editor(input0, completions0, completionIndex0, originalInput0), key)
            == Effect(Editor(input, completions, completionIndex, originalInput), written, None)
  {
    input, completions, completionIndex, originalInput := input0, completions0, completionIndex0, originalInput0;
    written := [];
    match key {
      case Backspace =>
        if |input| > 0 {
          input := input[..|input| - 1];
          written := [Back, ' ', Back];
          completions := [];
          completionIndex := -1;
        }
      case Tab =>
        label tab: {
          var currentInput := input;
          if StartsWithIgnoreCase(currentInput, Keyword) {
            var prefix := currentInput[|Keyword|..];
            if completionIndex == -1 {
              originalInput := currentInput;
              completions := GetVoiceCompletions(prefix, voices);
              if |completions| == 0 {
                written := [Bell];
                break tab;
              }
              completionIndex := 0;
            } else {
              completionIndex := (completionIndex + 1) % |completions|;
            }
            if |completions| > 0 {
              var clear := ClearCurrentLine(|input|);
              var completion := Keyword + completions[completionIndex];
              written := clear + completion;
              input := completion;
            }
          } else {
            completions := [];
            completionIndex := -1;
          }
        }
      case Escape =>
        if completionIndex != -1 && |originalInput| > 0 {
          var clear := ClearCurrentLine(|input|);
          written := clear + originalInput;
          input := originalInput;
          completions := [];
          completionIndex := -1;
        }
      case Other(c) =>
        if !IsControl(c) {
          input := input + [c];
          written := [c];
          completions := [];
          completionIndex := -1;
        }
    }
  }

  /** ReadLineWithTabCompletion over a key sequence; it returns once Enter is read. */
  method ReadLineWithTabCompletion(voices: seq<Voice>, keys: seq<Key>) returns (r: ReadResult)
    ensures r == Run(Completions(voices), Start, keys)
  {
    var input: string := [];
    var completions: seq<string> := [];
    var completionIndex := -1;
    var originalInput: string := [];
    var echo: string := [];
    var i := 0;
    while i < |keys|
      invariant 0 <= i <= |keys|
      invariant Valid(Completions(voices), Editor(input, completions, completionIndex, originalInput))
      invariant Run(Completions(voices), Start, keys)
                == After(echo, i, Run(Completions(voices), Editor(input, completions, completionIndex, originalInput), keys[i..]))
    {
      var key := keys[i];
      ghost var before := Editor(input, completions, completionIndex, originalInput);
      RunStep(Completions(voices), before, keys, i);
      if key == Enter {
        echo := echo + "\n";
        return ReadResult(Some(input), echo, i + 1);
      }
      var written;
      input, completions, completionIndex, originalInput, written :=
        HandleKey(voices, key, input, completions, completionIndex, originalInput);
      AfterAfter(echo, written, i, Run(Completions(voices), Editor(input, completions, completionIndex, originalInput), keys[i + 1..]));
      echo := echo + written;
      i := i + 1;
    }
    return ReadResult(None, echo, |keys|);
  }
}
