/** Writing a command down and parsing it back. */
module Printing {
  import opened Bytes
  import opened CommandLine

  /** A word the shell can be given: not empty, no separator and no operator in it. */
  ghost predicate IsWord(w: bytes) {
    w != [] && SPACE !in w && forall k :: 0 <= k < |w| ==> !IsOperator(w[k])
  }

  /** Commands that some line can express. */
  ghost predicate WellFormed(c: Command) {
    && (forall j :: 0 <= j < |c.argv| ==> IsWord(c.argv[j]))
    && (c.redirect.Some? && c.redirect.value.target != [] ==> !IsSpace(c.redirect.value.target[0]))
  }

  ghost predicate AllSpace(sep: bytes) {
    forall k :: 0 <= k < |sep| ==> IsSpace(sep[k])
  }

  function Join(argv: seq<bytes>): bytes {
    if argv == [] then []
    else if |argv| == 1 then argv[0]
    else argv[0] + [SPACE] + Join(argv[1..])
  }

  /** The command as text, with `sep` between the operator and the file name. */
  function Print(c: Command, sep: bytes): bytes {
    Join(c.argv) + PrintRedirect(c.redirect, sep)
  }

  function PrintRedirect(redirect: Option<Redirect>, sep: bytes): bytes {
    match redirect
    case None => []
    case Some(r) => Operator(r.kind) + sep + r.target
  }

  /** When the text says what was meant: something must follow the operator, and `>` must not run
      into a file name that itself begins with `>`. */
  predicate UnambiguousRedirect(r: Redirect, sep: bytes) {
    sep != [] || (r.target != [] && !(r.kind == Truncate && r.target[0] == GREATER))
  }

  predicate Unambiguous(c: Command, sep: bytes) {
    c.redirect.Some? ==> UnambiguousRedirect(c.redirect.value, sep)
  }

  /** The command spelled as tightly as it can be. */
  function Shortest(c: Command): bytes {
    Print(c, if Unambiguous(c, []) then [] else [SPACE])
  }

  /** The byte `x` is in no part of the command. */
  ghost predicate Avoids(c: Command, x: byte) {
    && (forall j :: 0 <= j < |c.argv| ==> x !in c.argv[j])
    && (c.redirect.Some? ==> x !in c.redirect.value.target)
  }

  lemma {:induction false} FirstWordOf(w: bytes, rest: bytes)
    requires SPACE !in w
    requires rest != [] ==> rest[0] == SPACE
    ensures FirstWord(w + rest) == w
  {
    if w == [] {
      assert w + rest == rest;
    } else {
      assert (w + rest)[1..] == w[1..] + rest;
      FirstWordOf(w[1..], rest);
    }
  }

  lemma {:induction false} WordsOfJoin(argv: seq<bytes>)
    requires forall j :: 0 <= j < |argv| ==> IsWord(argv[j])
    ensures Words(Join(argv)) == argv
    ensures forall k :: 0 <= k < |Join(argv)| ==> !IsOperator(Join(argv)[k])
  {
    if |argv| == 1 {
      FirstWordOf(argv[0], []);
      assert argv[0] + [] == argv[0];
      assert argv[0][|argv[0]|..] == [];
    } else if |argv| > 1 {
      var w, tail := argv[0], Join(argv[1..]);
      WordsOfJoin(argv[1..]);
      assert w + [SPACE] + tail == w + ([SPACE] + tail);
      FirstWordOf(w, [SPACE] + tail);
      assert (w + ([SPACE] + tail))[|w|..] == [SPACE] + tail;
      assert ([SPACE] + tail)[1..] == tail;
      assert Words([SPACE] + tail) == Words(tail);
      assert Words(Join(argv)) == [w] + argv[1..];
    }
  }

  lemma {:induction false} SkipSeparator(sep: bytes, target: bytes)
    requires AllSpace(sep)
    requires target != [] ==> !IsSpace(target[0])
    ensures SkipWhitespace(sep + target) == target
  {
    if sep == [] {
      assert sep + target == target;
    } else {
      assert (sep + target)[1..] == sep[1..] + target;
      SkipSeparator(sep[1..], target);
    }
  }

  lemma {:induction false} OperatorIndexOf(front: bytes, rest: bytes)
    requires forall k :: 0 <= k < |front| ==> !IsOperator(front[k])
    requires rest != [] ==> IsOperator(rest[0])
    ensures OperatorIndex(front + rest) == |front|
  {
    if front == [] {
      assert front + rest == rest;
    } else {
      assert (front + rest)[1..] == front[1..] + rest;
      OperatorIndexOf(front[1..], rest);
    }
  }

  /** The operator is recognized unless `>` runs into another `>`. */
  lemma OperatorRoundTrip(kind: Kind, rest: bytes)
    ensures var text := Operator(kind) + rest;
            && (KindOf(text) == kind <==> !(kind == Truncate && rest != [] && rest[0] == GREATER))
            && text[|Operator(kind)|..] == rest
  {
    var text := Operator(kind) + rest;
    assert rest != [] ==> text[|Operator(kind)|] == rest[0];
  }

  /** The redirection part alone comes back exactly when the text is unambiguous. */
  lemma RedirectRoundTrip(r: Redirect, sep: bytes)
    requires AllSpace(sep)
    requires r.target != [] ==> !IsSpace(r.target[0])
    ensures ParseRedirect(PrintRedirect(Some(r), sep)) == Some(r) <==> UnambiguousRedirect(r, sep)
  {
    var rest := sep + r.target;
    Associate(Operator(r.kind), sep, r.target);
    OperatorRoundTrip(r.kind, rest);
    assert sep != [] ==> rest[0] == sep[0];
    SkipSeparator(sep, r.target);
  }

  /** Printing and parsing a command gives the command back if and only if the text is unambiguous. */
  lemma RoundTrip(c: Command, sep: bytes)
    requires WellFormed(c) && AllSpace(sep)
    ensures Parse(Print(c, sep)) == c <==> Unambiguous(c, sep)
  {
    var front, rest := Join(c.argv), PrintRedirect(c.redirect, sep);
    WordsOfJoin(c.argv);
    OperatorIndexOf(front, rest);
    assert (front + rest)[..|front|] == front;
    assert (front + rest)[|front|..] == rest;
    if c.redirect.Some? {
      RedirectRoundTrip(c.redirect.value, sep);
    }
  }

  lemma {:induction false} WordsAreWords(s: bytes)
    requires forall k :: 0 <= k < |s| ==> !IsOperator(s[k])
    ensures forall j :: 0 <= j < |Words(s)| ==> IsWord(Words(s)[j])
    decreases |s|
  {
    if s != [] {
      if s[0] == SPACE {
        WordsAreWords(s[1..]);
      } else {
        var w := FirstWord(s);
        WordsAreWords(s[|w|..]);
        assert IsWord(w);
      }
    }
  }

  /** Every line, however odd, parses to a command that a line can express. */
  lemma ParseIsWellFormed(line: bytes)
    ensures WellFormed(Parse(line))
  {
    WordsAreWords(line[..OperatorIndex(line)]);
  }

  /** One space after the operator is a normal form: any line and its normal form mean the same. */
  lemma NormalForm(line: bytes)
    ensures Parse(Print(Parse(line), [SPACE])) == Parse(line)
  {
    ParseIsWellFormed(line);
    RoundTrip(Parse(line), [SPACE]);
  }

  /** The commands some string of bytes parses to, of whatever length, are the well-formed ones. */
  lemma ExpressibleCommands(c: Command)
    ensures WellFormed(c) <==> exists line :: Parse(line) == c
  {
    if WellFormed(c) {
      RoundTrip(c, [SPACE]);
    }
    if exists line :: Parse(line) == c {
      var line :| Parse(line) == c;
      ParseIsWellFormed(line);
    }
  }

  lemma {:induction false} JoinIsShort(s: bytes)
    ensures |Join(Words(s))| <= |s|
    decreases |s|
  {
    if s != [] {
      if s[0] == SPACE {
        JoinIsShort(s[1..]);
      } else {
        var w := FirstWord(s);
        var rest := s[|w|..];
        assert Words(s)[1..] == Words(rest);
        if rest != [] {
          assert Words(rest) == Words(rest[1..]);
          JoinIsShort(rest[1..]);
        }
      }
    }
  }

  lemma {:induction false} SkippedIsSuffix(s: bytes)
    ensures |SkipWhitespace(s)| <= |s| && SkipWhitespace(s) == s[|s| - |SkipWhitespace(s)|..]
  {
    if s != [] && IsSpace(s[0]) {
      SkippedIsSuffix(s[1..]);
    }
  }

  lemma RedirectIsShort(s: bytes)
    requires s != [] ==> IsOperator(s[0])
    requires ParseRedirect(s).Some?
    ensures var r := ParseRedirect(s).value;
            |PrintRedirect(Some(r), if UnambiguousRedirect(r, []) then [] else [SPACE])| <= |s|
  {
    var kind := KindOf(s);
    var rest := s[|Operator(kind)|..];
    var target := SkipWhitespace(rest);
    SkippedIsSuffix(rest);
    if kind == Truncate && |target| == |rest| {
      assert target[0] == rest[0] == s[1] != GREATER;
    }
  }

  /** Among all lines that mean a command, its tightest spelling is a shortest one. */
  lemma ShortestSpelling(line: bytes)
    ensures Parse(Shortest(Parse(line))) == Parse(line)
    ensures |Shortest(Parse(line))| <= |line|
  {
    var c, i := Parse(line), OperatorIndex(line);
    ParseIsWellFormed(line);
    RoundTrip(c, if Unambiguous(c, []) then [] else [SPACE]);
    JoinIsShort(line[..i]);
    if c.redirect.Some? {
      RedirectIsShort(line[i..]);
    }
  }

  lemma {:induction false} JoinAvoids(argv: seq<bytes>, x: byte)
    requires x != SPACE
    ensures x !in Join(argv) <==> forall j :: 0 <= j < |argv| ==> x !in argv[j]
  {
    if |argv| > 1 {
      JoinAvoids(argv[1..], x);
      assert argv == [argv[0]] + argv[1..];
      assert x in Join(argv) <==> x in argv[0] || x in Join(argv[1..]);
    }
  }

  lemma PrintAvoids(c: Command, sep: bytes, x: byte)
    requires x != SPACE && !IsOperator(x) && x !in sep
    ensures x !in Print(c, sep) <==> Avoids(c, x)
  {
    JoinAvoids(c.argv, x);
    assert x in Print(c, sep) <==> x in Join(c.argv) || x in PrintRedirect(c.redirect, sep);
    if c.redirect.Some? {
      var r := c.redirect.value;
      assert x !in Operator(r.kind);
      assert x in PrintRedirect(c.redirect, sep) <==> x in r.target;
    }
  }

  lemma {:induction false} WordsAvoid(s: bytes, x: byte)
    requires x !in s
    ensures forall j :: 0 <= j < |Words(s)| ==> x !in Words(s)[j]
    decreases |s|
  {
    if s != [] {
      if s[0] == SPACE {
        WordsAvoid(s[1..], x);
      } else {
        WordsAvoid(s[|FirstWord(s)|..], x);
      }
    }
  }

  /** Parsing adds no byte of its own. */
  lemma ParseAvoids(line: bytes, x: byte)
    requires x !in line
    ensures Avoids(Parse(line), x)
  {
    var i := OperatorIndex(line);
    WordsAvoid(line[..i], x);
    if i < |line| {
      SkippedIsSuffix(line[i..][|Operator(KindOf(line[i..]))|..]);
    }
  }
}
