/** How `fgets` cuts the input into lines, and which lines reach the parser unharmed. */
module InputLines {
  import opened Bytes

  /** Size of the command buffer. */
  const LEN: nat := 1024

  /** What one `fgets(cmd, LEN, stdin)` takes from the input: up to and including a newline, at most
      LEN - 1 bytes. */
  function FirstLine(input: bytes, room: nat): (line: bytes)
    ensures |line| <= |input| && line == input[..|line|]
    ensures |line| <= room
    ensures forall k :: 0 <= k < |line| - 1 ==> line[k] != NEWLINE
    ensures line == input || |line| == room || (line != [] && line[|line| - 1] == NEWLINE)
  {
    if input == [] || room == 0 then []
    else if input[0] == NEWLINE then [NEWLINE]
    else [input[0]] + FirstLine(input[1..], room - 1)
  }

  /** The lines the shell reads until its input ends. */
  function Lines(input: bytes): (lines: seq<bytes>)
    decreases |input|
  {
    if input == [] then [] else
      var line := FirstLine(input, LEN - 1);
      [line] + Lines(input[|line|..])
  }

  /** What of a stored line is seen as a C-string: the part before its first NUL. */
  function UpToNul(s: bytes): (t: bytes)
    ensures |t| <= |s| && t == s[..|t|]
    ensures NUL !in t
    ensures |t| < |s| ==> s[|t|] == NUL
  {
    if s == [] || s[0] == NUL then [] else [s[0]] + UpToNul(s[1..])
  }

  lemma {:induction false} UpToNulOfClean(s: bytes)
    requires NUL !in s
    ensures UpToNul(s) == s
  {
    if s != [] {
      UpToNulOfClean(s[1..]);
    }
  }

  /** The shell drops the last byte of what it read, taking it for the newline. */
  function Body(line: bytes): bytes
    requires line != []
  {
    line[..|line| - 1]
  }

  lemma {:induction false} LinesAreBounded(input: bytes)
    ensures forall i :: 0 <= i < |Lines(input)| ==> 0 < |Lines(input)[i]| < 1024
    decreases |input|
  {
    if input != [] {
      var line := FirstLine(input, LEN - 1);
      LinesAreBounded(input[|line|..]);
    }
  }

  /** Reading loses nothing and reorders nothing. */
  lemma {:induction false} LinesConserveInput(input: bytes)
    ensures Concat(Lines(input)) == input
    decreases |input|
  {
    if input != [] {
      var line := FirstLine(input, LEN - 1);
      var rest := input[|line|..];
      LinesConserveInput(rest);
      assert input == line + rest;
      assert Lines(input)[1..] == Lines(rest);
    }
  }

  /** A line too long for the buffer is read as far as there is room. */
  lemma {:induction false} FirstLineOf(typed: bytes, more: bytes, room: nat)
    requires NEWLINE !in typed
    ensures FirstLine(typed + ([NEWLINE] + more), room)
         == if |typed| < room then typed + [NEWLINE] else typed[..room]
  {
    var input := typed + ([NEWLINE] + more);
    if typed == [] {
      assert input[0] == NEWLINE;
    } else if room > 0 {
      assert input[1..] == typed[1..] + ([NEWLINE] + more);
      FirstLineOf(typed[1..], more, room - 1);
    }
  }

  /** The text of a terminal session: each line typed, then Enter. */
  function Typed(texts: seq<bytes>): bytes {
    if texts == [] then [] else texts[0] + ([NEWLINE] + Typed(texts[1..]))
  }

  /** The lines as typed, each with its newline. */
  function Ended(texts: seq<bytes>): (lines: seq<bytes>)
    ensures |lines| == |texts|
    ensures forall i :: 0 <= i < |texts| ==> lines[i] == texts[i] + [NEWLINE]
  {
    if texts == [] then [] else [texts[0] + [NEWLINE]] + Ended(texts[1..])
  }

  lemma DropLine(typed: bytes, more: bytes)
    ensures (typed + ([NEWLINE] + more))[|typed| + 1..] == more
  {
  }

  /** The first of some typed lines, as it is read. */
  lemma FirstTyped(texts: seq<bytes>)
    requires texts != [] && NEWLINE !in texts[0]
    ensures var lines := Lines(Typed(texts));
            && lines != []
            && (lines[0] == texts[0] + [NEWLINE] <==> |texts[0]| < LEN - 1)
            && (|texts[0]| < LEN - 1 ==> lines[1..] == Lines(Typed(texts[1..])))
  {
    var input := Typed(texts);
    FirstLineOf(texts[0], Typed(texts[1..]), LEN - 1);
    DropLine(texts[0], Typed(texts[1..]));
    var line := FirstLine(input, LEN - 1);
    var rest := input[|line|..];
    assert Lines(input) == [line] + Lines(rest);
  }

  /** Typed lines are read back one for one exactly when every one of them is short enough. */
  lemma {:induction false} SessionRoundTrip(texts: seq<bytes>)
    requires forall i :: 0 <= i < |texts| ==> NEWLINE !in texts[i]
    ensures Lines(Typed(texts)) == Ended(texts) <==> forall i :: 0 <= i < |texts| ==> |texts[i]| < 1023
  {
    if texts != [] {
      FirstTyped(texts);
      var rest := texts[1..];
      SessionRoundTrip(rest);
      assert Ended(texts)[0] == texts[0] + [NEWLINE] && Ended(texts)[1..] == Ended(rest);
      if |texts[0]| < LEN - 1 {
        assert forall i :: 1 <= i < |texts| ==> texts[i] == rest[i - 1];
      }
    }
  }

  lemma FirstLineCons(x: byte, s: bytes, room: nat)
    requires x != NEWLINE && room > 0
    ensures FirstLine([x] + s, room) == [x] + FirstLine(s, room - 1)
  {
    assert ([x] + s)[1..] == s;
  }

  lemma {:induction false} FirstLineExtends(a: bytes, b: bytes, room: nat)
    requires NEWLINE in a
    ensures FirstLine(a + b, room) == FirstLine(a, room)
  {
    if room > 0 && a[0] != NEWLINE {
      var x, tail := a[0], a[1..];
      assert a == [x] + tail;
      FirstLineExtends(tail, b, room - 1);
      FirstLineCons(x, tail, room);
      FirstLineCons(x, tail + b, room);
      Associate([x], tail, b);
    }
  }

  lemma LinesExtend(a: bytes, b: bytes)
    requires NEWLINE in a
    ensures var line := FirstLine(a, LEN - 1);
            && line != []
            && Lines(a) == [line] + Lines(a[|line|..])
            && Lines(a + b) == [line] + Lines(a[|line|..] + b)
  {
    FirstLineExtends(a, b, LEN - 1);
    var line := FirstLine(a, LEN - 1);
    assert (a + b)[|line|..] == a[|line|..] + b;
  }

  /** Lines are read off one after the other: what follows a newline is cut into lines as if nothing
      had come before it. */
  lemma {:induction false} LinesCompose(a: bytes, b: bytes)
    requires a != [] ==> a[|a| - 1] == NEWLINE
    ensures Lines(a + b) == Lines(a) + Lines(b)
    decreases |a|
  {
    if a == [] {
      assert a + b == b;
    } else {
      var line := FirstLine(a, LEN - 1);
      var rest := a[|line|..];
      LinesExtend(a, b);
      LinesCompose(rest, b);
      Associate([line], Lines(rest), Lines(b));
    }
  }
}
