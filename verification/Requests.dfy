/** Which commands an input asks the shell to run, to the end of the input and beyond it. */
module Requests {
  import opened Bytes
  import opened CommandLine
  import opened InputLines
  import opened LineParser
  import opened Printing
  import opened WordPositions

  /** The string a turn of the loop finds in the buffer: the line just read or, when the input has
      ended and `fgets` stores nothing, what was there. */
  function Found(input: bytes, text: bytes): bytes {
    if input == [] then text else UpToNul(FirstLine(input, LEN - 1))
  }

  function Rest(input: bytes): bytes {
    input[|FirstLine(input, LEN - 1)|..]
  }

  /** The commands asked for, in order, by `input` when the buffer shows `text`. The end of the input
      does not stop the shell; an empty string in the buffer does, for line 130 then writes in front
      of it. */
  function Asked(input: bytes, text: bytes): seq<Command>
    decreases |input|, |text|
  {
    var t := Found(input, text);
    if t == [] then [] else [Parse(Body(t))] + Asked(Rest(input), Residue(Body(t)))
  }

  /** The commands the lines themselves ask for. */
  function LineCommands(input: bytes): seq<Command>
    decreases |input|
  {
    if input == [] || Found(input, []) == [] then []
    else [Parse(Body(Found(input, [])))] + LineCommands(Rest(input))
  }

  /** Every line shows at least one byte. */
  predicate Survives(input: bytes)
    decreases |input|
  {
    input == [] || (Found(input, []) != [] && Survives(Rest(input)))
  }

  /** What the buffer shows when the input has ended. */
  function Leftover(input: bytes, text: bytes): bytes
    decreases |input|
  {
    if input == [] || Found(input, text) == [] then text
    else Leftover(Rest(input), Residue(Body(Found(input, text))))
  }

  /** No line begins with a NUL. */
  ghost predicate AllShow(lines: seq<bytes>) {
    forall i :: 0 <= i < |lines| ==> lines[i] != [] && lines[i][0] != NUL
  }

  lemma AllShowCons(line: bytes, lines: seq<bytes>)
    ensures AllShow([line] + lines) <==> line != [] && line[0] != NUL && AllShow(lines)
  {
    var all := [line] + lines;
    assert all[0] == line;
    assert forall i :: 0 <= i < |lines| ==> lines[i] == all[i + 1];
  }

  /** Only a line that begins with a NUL is dead to the shell. */
  lemma {:induction false} SurvivesUnlessNul(input: bytes)
    ensures Survives(input) <==> AllShow(Lines(input))
    decreases |input|
  {
    if input != [] {
      var line := FirstLine(input, LEN - 1);
      SurvivesUnlessNul(Rest(input));
      AllShowCons(line, Lines(Rest(input)));
      assert Found(input, []) != [] <==> line[0] != NUL;
    }
  }

  /** The command that a line, as it was read, asks for. */
  predicate IsCommandOf(c: Command, line: bytes) {
    UpToNul(line) != [] && c == Parse(Body(UpToNul(line)))
  }

  /** Command number i is that of line number i, as far as its first NUL; without dead lines there is one
      for each. */
  lemma {:induction false} LineCommandsAre(input: bytes)
    ensures |LineCommands(input)| <= |Lines(input)|
    ensures Survives(input) ==> |LineCommands(input)| == |Lines(input)|
    ensures forall i :: 0 <= i < |LineCommands(input)| ==> IsCommandOf(LineCommands(input)[i], Lines(input)[i])
    decreases |input|
  {
    if input != [] && Found(input, []) != [] {
      LineCommandsAre(Rest(input));
      var lines, commands := Lines(Rest(input)), LineCommands(Rest(input));
      var line, c := FirstLine(input, LEN - 1), Parse(Body(Found(input, [])));
      assert Lines(input) == [line] + lines && LineCommands(input) == [c] + commands;
      assert IsCommandOf(c, line);
    }
  }

  /** First come the commands of the lines, then whatever the leftover text asks for. */
  lemma {:induction false} AskedByLines(input: bytes, text: bytes)
    ensures Asked(input, text)
         == LineCommands(input) + if Survives(input) then Asked([], Leftover(input, text)) else []
    decreases |input|
  {
    if input != [] && Found(input, text) != [] {
      var residue := Residue(Body(Found(input, text)));
      AskedByLines(Rest(input), residue);
      var c, more := Parse(Body(Found(input, text))), LineCommands(Rest(input));
      Associate([c], more, if Survives(input) then Asked([], Leftover(input, text)) else []);
    }
  }

  /** One unbroken word, perhaps behind spaces: the shape of what a parsed line leaves. */
  predicate IsStump(text: bytes) {
    (forall k :: 0 <= k < |text| ==> !IsOperator(text[k])) && FirstWordEnd(text, 0) == |text|
  }

  lemma ResidueIsStump(body: bytes)
    ensures IsStump(Residue(body)) && |Residue(body)| <= |body|
  {
    var s := body[..OperatorIndex(body)];
    var r := Residue(body);
    var e := FirstWordEnd(r, 0);
    assert e < |r| ==> IsWordEnd(s, e);
  }

  lemma StumpShrinks(text: bytes)
    requires IsStump(text) && text != []
    ensures IsStump(Body(text)) && Residue(Body(text)) == Body(text)
    ensures Parse(Body(text)) == Command(Words(Body(text)), None)
  {
    var body := Body(text);
    OperatorIndexOf(body, []);
    assert body + [] == body && body[..|body|] == body;
    var e := FirstWordEnd(body, 0);
    assert e < |body| ==> IsWordEnd(text, e);
  }

  /** After the end of the input each turn strips one byte more: k bytes left ask for k commands, the
      words of ever shorter beginnings, and then the string is empty. */
  lemma {:induction false} AskedByStump(text: bytes)
    requires IsStump(text)
    ensures |Asked([], text)| == |text|
    ensures forall j :: 0 <= j < |text| ==> Asked([], text)[j] == Command(Words(text[..|text| - 1 - j]), None)
    decreases |text|
  {
    if text != [] {
      var body := Body(text);
      StumpShrinks(text);
      AskedByStump(body);
      assert Asked([], text) == [Parse(body)] + Asked([], body);
      forall j | 0 < j < |text|
        ensures Asked([], text)[j] == Command(Words(text[..|text| - 1 - j]), None)
      {
        assert Asked([], text)[j] == Asked([], body)[j - 1];
        assert body[..|body| - 1 - (j - 1)] == text[..|text| - 1 - j];
      }
    }
  }

  lemma {:induction false} LeftoverIsStump(input: bytes, text: bytes)
    requires Survives(input) && (input == [] ==> IsStump(text))
    ensures IsStump(Leftover(input, text))
    decreases |input|
  {
    if input != [] {
      ResidueIsStump(Body(Found(input, text)));
      LeftoverIsStump(Rest(input), Residue(Body(Found(input, text))));
    }
  }

  /** All a non-empty input without dead lines asks for: the commands of its lines, then one more for
      each byte its last command left in the buffer. */
  lemma EndOfInput(input: bytes, text: bytes)
    requires input != [] && Survives(input)
    ensures var left, n := Leftover(input, text), |LineCommands(input)|;
            && |Asked(input, text)| == n + |left|
            && Asked(input, text)[..n] == LineCommands(input)
            && forall i :: n <= i < n + |left| ==>
                 Asked(input, text)[i] == Command(Words(left[..n + |left| - 1 - i]), None)
  {
    var left, n := Leftover(input, text), |LineCommands(input)|;
    AskedByLines(input, text);
    LeftoverIsStump(input, text);
    AskedByStump(left);
    forall i | n <= i < n + |left|
      ensures Asked(input, text)[i] == Command(Words(left[..n + |left| - 1 - i]), None)
    {
      assert Asked(input, text)[i] == Asked([], left)[i - n];
    }
  }

  lemma FoundExtends(a: bytes, b: bytes)
    requires NEWLINE in a
    ensures Found(a + b, []) == Found(a, []) && Rest(a + b) == Rest(a) + b
  {
    FirstLineExtends(a, b, LEN - 1);
    var n := |FirstLine(a, LEN - 1)|;
    assert (a + b)[n..] == a[n..] + b;
  }

  lemma RestEnds(a: bytes)
    requires a != [] && a[|a| - 1] == NEWLINE
    ensures Rest(a) != [] ==> Rest(a)[|Rest(a)| - 1] == NEWLINE
  {
  }

  /** What later lines ask for does not depend on earlier lines, nor on the buffer. */
  lemma {:induction false} CommandsCompose(a: bytes, b: bytes, text: bytes)
    requires a != [] ==> a[|a| - 1] == NEWLINE
    requires b != []
    ensures Asked(a + b, text) == LineCommands(a) + if Survives(a) then Asked(b, []) else []
    decreases |a|
  {
    if a == [] {
      assert a + b == b;
      assert Asked(b, text) == Asked(b, []);
    } else {
      FoundExtends(a, b);
      RestEnds(a);
      var t := Found(a, []);
      if t != [] {
        CommandsCompose(Rest(a), b, Residue(Body(t)));
        Associate([Parse(Body(t))], LineCommands(Rest(a)), if Survives(a) then Asked(b, []) else []);
      }
    }
  }

  /** What a turn of the loop can get to parse. */
  ghost predicate IsBody(b: bytes) {
    NUL !in b && NEWLINE !in b && |b| < 1023
  }

  /** The commands a shell can be made to run: those whose tightest spelling, free of NUL and newline,
      fits the buffer with its newline and NUL, with a slot for the null behind the words. */
  ghost predicate Runnable(c: Command) {
    && WellFormed(c) && Avoids(c, NUL) && Avoids(c, NEWLINE)
    && |c.argv| < 32
    && |Shortest(c)| < 1023
  }

  lemma RunnableIfBody(b: bytes)
    requires IsBody(b) && |Parse(b).argv| < NUM
    ensures Runnable(Parse(b))
  {
    ParseIsWellFormed(b);
    ParseAvoids(b, NUL);
    ParseAvoids(b, NEWLINE);
    ShortestSpelling(b);
  }

  lemma FoundIsBody(input: bytes, text: bytes)
    requires IsBody(text) && Found(input, text) != []
    ensures IsBody(Body(Found(input, text)))
  {
    var b := Body(Found(input, text));
    if input != [] {
      var line := FirstLine(input, LEN - 1);
      assert forall k :: 0 <= k < |b| ==> b[k] == line[k];
    }
  }

  lemma ResidueIsBody(b: bytes)
    requires IsBody(b)
    ensures IsBody(Residue(b))
  {
    ResidueIsStump(b);
    assert Residue(b) == b[..|Residue(b)|];
  }

  /** Every command asked for is the parse of some short string without NUL and newline. */
  lemma {:induction false} AskedHaveBodies(input: bytes, text: bytes, i: nat) returns (b: bytes)
    requires IsBody(text) && i < |Asked(input, text)|
    ensures IsBody(b) && Asked(input, text)[i] == Parse(b)
    decreases |input|, |text|
  {
    b := Body(Found(input, text));
    FoundIsBody(input, text);
    if i > 0 {
      ResidueIsBody(b);
      b := AskedHaveBodies(Rest(input), Residue(b), i - 1);
    }
  }

  /** A typed line without NUL is found whole. */
  lemma FoundTyped(body: bytes, more: bytes, text: bytes)
    requires NUL !in body && NEWLINE !in body && |body| < LEN - 1
    ensures var input := body + ([NEWLINE] + more);
            && Found(input, text) == body + [NEWLINE] && Body(Found(input, text)) == body
            && Rest(input) == more
  {
    FirstLineOf(body, more, LEN - 1);
    DropLine(body, more);
    var line := body + [NEWLINE];
    assert forall k :: 0 <= k < |line| ==> line[k] != NUL;
    UpToNulOfClean(line);
    assert Body(line) == body;
  }

  /** A typed line is parsed as it was typed exactly when it fits the buffer with its newline and NUL,
      and holds no NUL itself. */
  lemma TypedLineSurvives(typed: bytes, more: bytes, text: bytes)
    requires NEWLINE !in typed
    ensures var t := Found(typed + ([NEWLINE] + more), text);
            t != [] && Body(t) == typed <==> |typed| < 1023 && NUL !in typed
  {
    if |typed| < LEN - 1 && NUL !in typed {
      FoundTyped(typed, more, text);
    } else {
      FirstLineOf(typed, more, LEN - 1);
    }
  }

  /** A short line with a NUL in it: `a`, NUL, `b` is parsed as an empty line. */
  lemma NulLine(more: bytes, text: bytes)
    ensures Found([97, NUL, 98] + ([NEWLINE] + more), text) == [97]
    ensures Parse(Body([97])) == Command([], None)
  {
    var line := [97, NUL, 98, NEWLINE];
    FirstLineOf([97, NUL, 98], more, LEN - 1);
    assert [97, NUL, 98] + [NEWLINE] == line;
    assert UpToNul(line) == [97] + UpToNul(line[1..]);
    assert Body([97]) == [];
  }

  /** The tightest spelling, typed, is the first command run. */
  lemma RunnableIsAsked(c: Command)
    requires Runnable(c)
    ensures var input := Shortest(c) + ([NEWLINE] + []);
            IsAsked(c, input) && Asked(input, [])[0] == c
  {
    var sep := if Unambiguous(c, []) then [] else [SPACE];
    PrintAvoids(c, sep, NUL);
    PrintAvoids(c, sep, NEWLINE);
    FoundTyped(Shortest(c), [], []);
    RoundTrip(c, sep);
  }

  /** The command `c` is among those that `input` asks for. */
  ghost predicate IsAsked(c: Command, input: bytes) {
    input != [] && c in Asked(input, [])
  }

  ghost predicate CanBeAsked(c: Command) {
    exists input :: IsAsked(c, input)
  }

  lemma AskedIsRunnable(c: Command, input: bytes)
    requires |c.argv| < NUM && IsAsked(c, input)
    ensures Runnable(c)
  {
    var i :| 0 <= i < |Asked(input, [])| && Asked(input, [])[i] == c;
    var b := AskedHaveBodies(input, [], i);
    RunnableIfBody(b);
  }

  lemma CanBeAskedIsRunnable(c: Command)
    requires |c.argv| < NUM && CanBeAsked(c)
    ensures Runnable(c)
  {
    var input :| IsAsked(c, input);
    AskedIsRunnable(c, input);
  }

  lemma RunnableCanBeAsked(c: Command)
    requires Runnable(c)
    ensures |c.argv| < NUM && CanBeAsked(c)
  {
    RunnableIsAsked(c);
  }

  /** The commands within the bounds of the vector that some input asks for are exactly the runnable
      ones. */
  lemma RunnableCommands(c: Command)
    ensures Runnable(c) <==> |c.argv| < 32 && CanBeAsked(c)
  {
    if Runnable(c) {
      RunnableCanBeAsked(c);
    } else if |c.argv| < NUM && CanBeAsked(c) {
      CanBeAskedIsRunnable(c);
      assert false;
    }
  }

  /** The lines that spell out commands. */
  function Spell(commands: seq<Command>, seps: seq<bytes>): (texts: seq<bytes>)
    requires |commands| == |seps|
    ensures |texts| == |commands|
    ensures forall i :: 0 <= i < |texts| ==> texts[i] == Print(commands[i], seps[i])
  {
    if commands == [] then [] else [Print(commands[0], seps[0])] + Spell(commands[1..], seps[1..])
  }

  /** The command, so spelled, can be typed into one line that fits the buffer. */
  ghost predicate IsTypable(c: Command, sep: bytes) {
    && WellFormed(c) && AllSpace(sep)
    && NEWLINE !in Print(c, sep) && |Print(c, sep)| < 1023
  }

  /** The shell will read it as it is meant. */
  ghost predicate IsSafe(c: Command, sep: bytes) {
    Unambiguous(c, sep) && Avoids(c, NUL)
  }

  ghost predicate AllTypable(commands: seq<Command>, seps: seq<bytes>)
    requires |commands| == |seps|
  {
    forall i :: 0 <= i < |commands| ==> IsTypable(commands[i], seps[i])
  }

  ghost predicate AllSafe(commands: seq<Command>, seps: seq<bytes>)
    requires |commands| == |seps|
  {
    forall i :: 0 <= i < |commands| ==> IsSafe(commands[i], seps[i])
  }

  lemma HeadAndTail(commands: seq<Command>, seps: seq<bytes>)
    requires |commands| == |seps| > 0
    ensures AllTypable(commands, seps) ==> IsTypable(commands[0], seps[0]) && AllTypable(commands[1..], seps[1..])
    ensures AllSafe(commands, seps) <==> IsSafe(commands[0], seps[0]) && AllSafe(commands[1..], seps[1..])
  {
    assert forall i :: 1 <= i < |commands| ==> commands[i] == commands[1..][i - 1] && seps[i] == seps[1..][i - 1];
    assert forall i :: 0 <= i < |commands[1..]| ==> commands[1..][i] == commands[i + 1] && seps[1..][i] == seps[i + 1];
  }

  /** A NUL in a spelled command keeps it from being read. */
  lemma NulIsMisread(c: Command, sep: bytes, more: bytes, text: bytes)
    requires IsTypable(c, sep) && !Avoids(c, NUL)
    ensures var t := Found(Print(c, sep) + ([NEWLINE] + more), text);
            t != [] ==> Parse(Body(t)) != c
  {
    var t := Found(Print(c, sep) + ([NEWLINE] + more), text);
    if t != [] {
      assert NUL !in Body(t);
      ParseAvoids(Body(t), NUL);
    }
  }

  /** The first command of a session that is typed out. */
  lemma SpelledFirst(c: Command, sep: bytes, more: bytes, text: bytes)
    requires IsTypable(c, sep)
    ensures var input := Print(c, sep) + ([NEWLINE] + more);
            && (Found(input, text) != [] && Parse(Body(Found(input, text))) == c <==> IsSafe(c, sep))
            && Rest(input) == more
  {
    var body := Print(c, sep);
    FirstLineOf(body, more, LEN - 1);
    DropLine(body, more);
    PrintAvoids(c, sep, NUL);
    if Avoids(c, NUL) {
      FoundTyped(body, more, text);
      RoundTrip(c, sep);
    } else {
      NulIsMisread(c, sep, more, text);
    }
  }

  lemma PrefixCons(commands: seq<Command>, c: Command, rest: seq<Command>)
    requires commands != []
    ensures commands <= [c] + rest <==> commands[0] == c && commands[1..] <= rest
  {
    var all := [c] + rest;
    assert commands == [commands[0]] + commands[1..];
    assert all[1..] == rest;
    assert commands <= all ==> commands[0] == all[0] && commands[1..] <= all[1..];
  }

  /** Commands typed one per line are the first commands asked for if and only if every one is spelled
      unambiguously and holds no NUL. */
  lemma {:induction false} SpelledSession(commands: seq<Command>, seps: seq<bytes>, text: bytes)
    requires |commands| == |seps| && AllTypable(commands, seps)
    ensures commands <= Asked(Typed(Spell(commands, seps)), text) <==> AllSafe(commands, seps)
    decreases |commands|
  {
    if commands != [] {
      var input, more := Typed(Spell(commands, seps)), Typed(Spell(commands[1..], seps[1..]));
      assert input == Print(commands[0], seps[0]) + ([NEWLINE] + more);
      HeadAndTail(commands, seps);
      SpelledFirst(commands[0], seps[0], more, text);
      var t := Found(input, text);
      if t != [] {
        SpelledSession(commands[1..], seps[1..], Residue(Body(t)));
        PrefixCons(commands, Parse(Body(t)), Asked(more, Residue(Body(t))));
      }
    }
  }

  lemma RedirectWithoutTarget(kind: Kind, sep: bytes)
    requires AllSpace(sep)
    ensures ParseRedirect(Operator(kind) + sep) == if sep == [] then None else Some(Redirect(kind, []))
  {
    OperatorRoundTrip(kind, sep);
    SkipSeparator(sep, []);
    assert sep + [] == sep;
  }

  /** An operator with nothing behind it is ignored; white space behind it makes an empty file name. */
  lemma OperatorWithoutTarget(front: bytes, kind: Kind, sep: bytes)
    requires forall k :: 0 <= k < |front| ==> !IsOperator(front[k])
    requires AllSpace(sep)
    ensures Parse(front + (Operator(kind) + sep))
         == if sep == [] then Parse(front) else Command(Words(front), Some(Redirect(kind, [])))
  {
    var rest := Operator(kind) + sep;
    OperatorIndexOf(front, rest);
    assert (front + rest)[..|front|] == front && (front + rest)[|front|..] == rest;
    RedirectWithoutTarget(kind, sep);
    OperatorIndexOf(front, []);
    assert front + [] == front && front[..|front|] == front;
  }

  /** A typed line of one-letter words asks for as many words as its length allows. */
  lemma CrowdedInput(n: nat)
    requires n < 1023
    ensures var input := Crowded(n) + ([NEWLINE] + []);
            Asked(input, []) != [] && |Asked(input, [])[0].argv| == (n + 1) / 2
  {
    var body := Crowded(n);
    WordCountBoundIsTight(n);
    FoundTyped(body, [], []);
    OperatorIndexOf(body, []);
    assert body + [] == body && body[..|body|] == body;
  }

  /** 63 typed bytes are enough to ask for a command of 32 words, which the vector cannot hold. */
  lemma OverrunInput()
    ensures var input := Crowded(63) + ([NEWLINE] + []);
            && |input| == 64
            && Asked(input, []) != [] && |Asked(input, [])[0].argv| == 32
  {
    CrowdedInput(63);
  }
}
