/** Lines written out byte by byte, and what the shell makes of them. */
module Literals {
  import opened Bytes
  import opened CommandLine
  import opened InputLines
  import opened Printing
  import opened Requests

  lemma Codes()
    ensures Ascii("<> /") == [LESS, GREATER, SPACE, SLASH]
  {
  }

  /** The words of two letters with the byte `b` between them: only a space separates. */
  lemma WordsAround(b: byte)
    ensures Words([97, b, 98]) == if b == 32 then [[97], [98]] else [[97, b, 98]]
  {
    if b == 32 {
      WordsOfJoin([[97], [98]]);
      assert Join([[97], [98]]) == [97, b, 98];
    } else {
      FirstWordOf([97, b, 98], []);
      assert [97, b, 98] + [] == [97, b, 98];
    }
  }

  /** A redirection without space, one letter to each side. */
  lemma BetweenOperator(kind: Kind)
    ensures Parse([97] + Operator(kind) + [98]) == Command([[97]], Some(Redirect(kind, [98])))
  {
    var c := Command([[97]], Some(Redirect(kind, [98])));
    RoundTrip(c, []);
    assert Print(c, []) == [97] + Operator(kind) + [98];
  }

  lemma WithoutOperator(line: bytes)
    requires forall k :: 0 <= k < |line| ==> !IsOperator(line[k])
    ensures Parse(line) == Command(Words(line), None)
  {
    OperatorIndexOf(line, []);
    assert line + [] == line && line[..|line|] == line;
  }

  /** Between two letters the two operators and the space act; every other byte is as good as a letter. */
  lemma BetweenLetters(b: byte)
    ensures Parse([97, b, 98])
         == if b as char == '>' then Command([[97]], Some(Redirect(Truncate, [98])))
            else if b as char == '<' then Command([[97]], Some(Redirect(Input, [98])))
            else if b as char == ' ' then Command([[97], [98]], None)
            else Command([[97, b, 98]], None)
  {
    var line := [97, b, 98];
    if IsOperator(b) {
      var kind := if b == GREATER then Truncate else Input;
      BetweenOperator(kind);
      assert [97] + Operator(kind) + [98] == line;
    } else {
      WithoutOperator(line);
      WordsAround(b);
    }
  }

  /** A doubled `>` appends. */
  lemma AppendLine()
    ensures Parse(Ascii("a>>b")) == Command([Ascii("a")], Some(Redirect(Append, Ascii("b"))))
  {
    BetweenOperator(Append);
    assert Ascii("a") == [97] && Ascii("b") == [98];
    assert [97] + Operator(Append) + [98] == [97, 62, 62, 98] == Ascii("a>>b");
  }

  lemma WhitespaceBytes(b: byte)
    ensures SkipWhitespace([b, 98]) == if b as char in "\t\n\r " || b == 11 || b == 12 then [98] else [b, 98]
  {
    var white := "\t\n\r ";
    assert white[0] as byte == 9 && white[1] as byte == 10 && white[2] as byte == 13 && white[3] as byte == 32;
    assert [b, 98][1..] == [98];
    assert SkipWhitespace([98]) == [98];
  }

  /** Behind an operator the six white-space bytes are passed over, and no other byte is. */
  lemma BehindOperator(b: byte)
    ensures Parse([97, 60, b, 98])
         == Command([[97]],
                    Some(Redirect(Input, if b as char in "\t\n\r " || b == 11 || b == 12 then [98] else [b, 98])))
  {
    var line := [97, 60, b, 98];
    OperatorIndexOf([97], [60, b, 98]);
    assert [97] + [60, b, 98] == line && line[..1] == [97] && line[1..] == [60, b, 98];
    assert [60, b, 98][1..] == [b, 98];
    WhitespaceBytes(b);
    WordsOfJoin([[97]]);
    assert Join([[97]]) == [97];
  }

  /** What one read takes of a short text: a newline ends the line, and a NUL what is seen of it. */
  lemma ReadBetween(b: byte)
    ensures FirstLine([97, b, 98], 1023) == if b as char == '\n' then [97, b] else [97, b, 98]
    ensures Found([97, b, 98], []) == if b == 0 then [97] else FirstLine([97, b, 98], 1023)
  {
    var input := [97, b, 98];
    var line := FirstLine(input, 1023);
    assert line == input[..|line|];
    assert |line| > 1 ==> line[1] == b;
    assert |line| == (if b == 10 then 2 else 3);
    var seen := UpToNul(line);
    assert seen == if b == 0 then line[..1] else line;
  }
}
