/** The three in-place passes over the command buffer: strip the newline, cut at the redirection
    operator, split into words with `strtok`. Every pointer the passes produce is an offset into the
    one buffer, and nothing is cleared between commands. */
module LineParser {
  import opened Bytes
  import opened CommandLine
  import opened InputLines
  import opened WordPositions

  /** Slots in the argument vector. */
  const NUM: nat := 32

  /** Commands of a given length all fit the vector exactly up to 62 bytes. */
  lemma SafeLengths(n: nat)
    ensures (forall s: bytes :: |s| == n ==> |Words(s)| < NUM) <==> n < 63
  {
    forall s: bytes | |s| == n
      ensures n < 63 ==> |Words(s)| < NUM
    {
      WordCountBound(s);
    }
    WordCountBoundIsTight(n);
  }

  /** A `char*`: null, or the address of a byte of the command buffer. */
  datatype Pointer = Null | At(offset: nat)

  /** The shell's code for each operator. */
  function Code(kind: Kind): int {
    match kind
    case Truncate => 0
    case Append => 1
    case Input => 2
  }

  /** What `strtok` passes over first: the next offset from `p` on that holds no delimiter. */
  function SkipDelimiters(buf: bytes, p: nat, delims: set<byte>): (q: nat)
    requires Terminated(buf, p) && NUL !in delims
    ensures p <= q < |buf| && buf[q] !in delims
    ensures forall k :: p <= k < q ==> buf[k] in delims
    ensures Terminated(buf, q)
    decreases |buf| - p
  {
    if buf[p] in delims then SkipDelimiters(buf, p + 1, delims) else p
  }

  /** Where the token starting at `p` ends: at the next delimiter or at the NUL. */
  function SkipToken(buf: bytes, p: nat, delims: set<byte>): (q: nat)
    requires Terminated(buf, p)
    ensures p <= q < |buf| && (buf[q] in delims || buf[q] == NUL)
    ensures forall k :: p <= k < q ==> buf[k] !in delims && buf[k] != NUL
    decreases |buf| - p
  {
    if buf[p] in delims || buf[p] == NUL then p else SkipToken(buf, p + 1, delims)
  }

  /** The bytes of a command after tokenizing: only the space directly behind each word is gone. */
  function Cut(s: bytes, k: nat): byte
    requires k < |s|
  {
    if IsWordEnd(s, k) then NUL else s[k]
  }

  /** `slots` is a null-terminated vector of strings of `buf`. */
  ghost predicate HoldsArgv(buf: bytes, slots: seq<Pointer>, argv: seq<bytes>) {
    && |argv| < |slots|
    && slots[|argv|] == Null
    && forall j :: 0 <= j < |argv| ==> slots[j].At? && HoldsString(buf, slots[j].offset, argv[j])
  }

  /** Reading the vector from slot `i` meets only good strings, then a null. */
  predicate Readable(buf: bytes, slots: seq<Pointer>, i: nat)
    decreases |slots| - i
  {
    && i < |slots|
    && (slots[i].At? ==>
          && (exists k :: slots[i].offset <= k < |buf| && buf[k] == NUL)
          && Readable(buf, slots, i + 1))
  }

  /** What `execvp` makes of the vector. */
  function ArgvAt(buf: bytes, slots: seq<Pointer>, i: nat): seq<bytes>
    requires Readable(buf, slots, i)
    decreases |slots| - i
  {
    if slots[i] == Null then [] else
      [StringAt(buf, slots[i].offset)] + ArgvAt(buf, slots, i + 1)
  }

  lemma {:induction false} ArgvFrom(buf: bytes, slots: seq<Pointer>, argv: seq<bytes>, i: nat)
    requires HoldsArgv(buf, slots, argv) && i <= |argv|
    ensures Readable(buf, slots, i) && ArgvAt(buf, slots, i) == argv[i..]
    decreases |argv| - i
  {
    if i < |argv| {
      StringIsUnique(buf, slots[i].offset, argv[i]);
      ArgvFrom(buf, slots, argv, i + 1);
    }
  }

  /** `execvp` sees exactly the vector, and never a slot behind its null. */
  lemma ArgvIsUnique(buf: bytes, slots: seq<Pointer>, argv: seq<bytes>)
    requires HoldsArgv(buf, slots, argv)
    ensures Readable(buf, slots, 0) && ArgvAt(buf, slots, 0) == argv
  {
    ArgvFrom(buf, slots, argv, 0);
    assert argv[0..] == argv;
  }

  /** Tokenizing `s` has come as far as `q`: cut before, untouched from there on. */
  ghost predicate TokenizedUpTo(s: bytes, base: bytes, buf: bytes, q: nat) {
    && HoldsString(base, 0, s) && |buf| == |base|
    && q <= |s| && (q == 0 || q == |s| || s[q - 1] == SPACE)
    && (forall k :: 0 <= k < q ==> buf[k] == Cut(s, k))
    && (forall k :: q <= k < |buf| ==> buf[k] == base[k])
  }

  /** At every stage of the scan the words already found are C-strings of the buffer, so no later
      call damages an earlier token. */
  lemma FoundWordsStay(s: bytes, base: bytes, buf: bytes, q: nat, p: nat)
    requires TokenizedUpTo(s, base, buf, q)
    requires p < q && IsWordStart(s, p)
    ensures HoldsString(buf, p, WordAt(s, p))
  {
    FirstWordSpan(s, p);
    var w := WordAt(s, p);
    var e := p + |w|;
    assert e <= q;
    forall k | 0 <= k < |w|
      ensures w[k] == buf[p + k] && w[k] != NUL
    {
      assert w[k] == s[p + k];
    }
    assert e < |s| ==> IsWordEnd(s, e);
  }

  /** Passing over spaces cuts nothing. */
  lemma SkippedSpaces(s: bytes, base: bytes, buf: bytes, q: nat, b: nat)
    requires TokenizedUpTo(s, base, buf, q) && q <= b < |buf|
    requires forall k :: q <= k < b ==> buf[k] == SPACE
    requires buf[b] != SPACE
    ensures b <= |s| && (b == |s| <==> buf[b] == NUL)
    ensures TokenizedUpTo(s, base, buf, b)
    ensures forall k :: q <= k < b ==> s[k] == SPACE && !IsWordStart(s, k)
    ensures b < |s| ==> s[b] == buf[b]
  {
    assert buf[|s|] == NUL;
    assert forall k :: q <= k < |s| ==> s[k] == base[k];
  }

  /** Passing over a word cuts the space behind it, if there is one. */
  lemma SkippedToken(s: bytes, base: bytes, buf: bytes, b: nat, e: nat)
    requires TokenizedUpTo(s, base, buf, b) && b < e < |buf|
    requires forall k :: b <= k < e ==> buf[k] != SPACE && buf[k] != NUL
    requires buf[e] == SPACE || buf[e] == NUL
    ensures e <= |s| && (e == |s| <==> buf[e] == NUL)
    ensures forall k :: b <= k < e ==> s[k] != SPACE
    ensures e < |s| ==> s[e] == SPACE
    ensures TokenizedUpTo(s, base, buf[e := NUL], if buf[e] == NUL then e else e + 1)
  {
    assert buf[|s|] == NUL;
    assert forall k :: b <= k < |s| ==> s[k] == base[k];
  }

  /** `strtok` comes to the NUL without meeting a word: none is left. */
  lemma NoWordFound(s: bytes, base: bytes, buf: bytes, q: nat, b: nat)
    requires TokenizedUpTo(s, base, buf, q) && q <= b < |buf|
    requires forall k :: q <= k < b ==> buf[k] == SPACE
    requires buf[b] == NUL
    ensures WordStarts(s, q) == [] && b == |s| && TokenizedUpTo(s, base, buf, b)
  {
    SkippedSpaces(s, base, buf, q, b);
    NoStartInside(s, q, |s|);
  }

  /** `strtok` finds a word from `b` to `e`: it is the next one, and the scan goes on behind it. */
  lemma WordFound(s: bytes, base: bytes, buf: bytes, q: nat, b: nat, e: nat)
    requires TokenizedUpTo(s, base, buf, q) && q <= b < e < |buf|
    requires forall k :: q <= k < b ==> buf[k] == SPACE
    requires forall k :: b <= k < e ==> buf[k] != SPACE && buf[k] != NUL
    requires buf[e] == SPACE || buf[e] == NUL
    ensures var next := if buf[e] == NUL then e else e + 1;
            && next <= |s|
            && WordStarts(s, q) == [b] + WordStarts(s, next)
            && TokenizedUpTo(s, base, buf[e := NUL], next)
  {
    SkippedSpaces(s, base, buf, q, b);
    SkippedToken(s, base, buf, b, e);
    NextWord(s, q, b, e);
  }

  /** The first `i` slots hold the first word starts; the slots behind are untouched. */
  ghost predicate FilledUpTo(slots: seq<Pointer>, before: seq<Pointer>, starts: seq<nat>, i: nat) {
    && i <= |slots| == |before|
    && (forall j :: 0 <= j < i && j < |starts| ==> slots[j] == At(starts[j]))
    && (forall j :: i <= j < |slots| ==> slots[j] == before[j])
  }

  /** The `strtok` loop at the head of an iteration: the words `found` so far are in the first `i`
      slots, those `left` still lie ahead. For a command without words slot 0 is null already. */
  ghost predicate Filling(s: bytes, base: bytes, before: seq<Pointer>, found: seq<nat>, left: seq<nat>,
                          buf: bytes, q: nat, slots: seq<Pointer>, i: nat) {
    && TokenizedUpTo(s, base, buf, q)
    && WordStarts(s, q) == left
    && WordStarts(s, 0) == found + left
    && FilledUpTo(slots, before, found, i)
    && (|found| == i || (found == left == [] && i == 1 <= |slots| && slots[0] == Null))
  }

  /** The first word, or a null when there is none. */
  lemma FillFirst(s: bytes, base: bytes, before: seq<Pointer>, left: seq<nat>, buf: bytes, q: nat, token: Pointer)
    requires before != [] && TokenizedUpTo(s, base, buf, q) && left == WordStarts(s, q)
    requires WordStarts(s, 0) == if token == Null then [] else [token.offset] + left
    requires token == Null ==> left == []
    ensures Filling(s, base, before, if token == Null then [] else [token.offset], left,
                    buf, q, before[0 := token], 1)
  {
  }

  /** A further word. */
  lemma FillWord(s: bytes, base: bytes, before: seq<Pointer>, found: seq<nat>, left: seq<nat>,
                 buf: bytes, q: nat, slots: seq<Pointer>, i: nat,
                 b: nat, left': seq<nat>, buf': bytes, q': nat)
    requires Filling(s, base, before, found, left, buf, q, slots, i) && i < |slots|
    requires left == [b] + left' && TokenizedUpTo(s, base, buf', q') && WordStarts(s, q') == left'
    ensures |found| == i
    ensures Filling(s, base, before, found + [b], left', buf', q', slots[i := At(b)], i + 1)
  {
    Associate(found, [b], left');
  }

  /** No further word: the null ends the vector. */
  lemma FillNull(s: bytes, base: bytes, before: seq<Pointer>, found: seq<nat>, left: seq<nat>,
                 buf: bytes, q: nat, slots: seq<Pointer>, i: nat)
    requires Filling(s, base, before, found, left, buf, q, slots, i) && i < |slots| && left == []
    ensures var done := slots[i := Null];
            && WordStarts(s, 0) == found && |found| < |slots|
            && FilledUpTo(done, before, found, i + 1)
            && done[|found|] == Null && (found == [] && i == 1 ==> done[1] == Null)
  {
  }

  /** A finished cut and a finished vector make the words. */
  lemma VectorHoldsWords(s: bytes, base: bytes, buf: bytes, slots: seq<Pointer>)
    requires TokenizedUpTo(s, base, buf, |s|)
    requires |WordStarts(s, 0)| < |slots| && slots[|WordStarts(s, 0)|] == Null
    requires forall j :: 0 <= j < |WordStarts(s, 0)| ==> slots[j] == At(WordStarts(s, 0)[j])
    ensures HoldsArgv(buf, slots, Words(s))
  {
    WordsAreMaximalRuns(s);
    WordStartsAreAll(s, 0);
    var starts := WordStarts(s, 0);
    forall j | 0 <= j < |starts|
      ensures HoldsString(buf, starts[j], WordAt(s, starts[j]))
    {
      FoundWordsStay(s, base, buf, |s|, starts[j]);
    }
  }

  /** Where the program leaves what is defined: line 130 takes the length of a buffer that nothing has
      been stored in, or writes in front of it when it shows an empty string; line 164 writes behind
      the vector. */
  datatype Fault = NoFault | Unset | Underrun | Overrun

  /** The buffer after `fgets` has stored `line` over `before`. */
  function Stored(line: bytes, before: bytes): bytes
    requires |line| < |before|
  {
    line + [NUL] + before[|line| + 1..]
  }

  lemma StoredShows(line: bytes, before: bytes)
    requires |line| < |before|
    ensures HoldsString(Stored(line, before), 0, UpToNul(line))
  {
    var t := UpToNul(line);
    assert forall k :: 0 <= k < |t| ==> t[k] == line[k] == Stored(line, before)[k];
  }

  /** The bytes of a line that parsing overwrites: its last byte, its first operator byte, and the
      space directly behind each word of the command. */
  predicate IsOverwritten(text: bytes, k: nat)
    requires text != []
  {
    var i := OperatorIndex(Body(text));
    k == |text| - 1 || k == i || IsWordEnd(Body(text)[..i], k)
  }

  /** The buffer, the vector and `type`, as they lie in memory, amount to command `c`, its file name
      being the string at `start`. */
  ghost predicate Denotes(buf: bytes, slots: seq<Pointer>, code: int, start: Pointer, c: Command) {
    && HoldsArgv(buf, slots, c.argv)
    && HoldsRedirect(buf, code, start, c.redirect)
  }

  ghost predicate HoldsRedirect(buf: bytes, code: int, start: Pointer, redirect: Option<Redirect>) {
    match redirect
    case None => start == Null
    case Some(r) => start.At? && HoldsString(buf, start.offset, r.target) && code == Code(r.kind)
  }

  /** The buffer with the command cut off at its first operator. */
  function CutOff(s: bytes, buf: bytes): bytes
    requires |s| <= |buf|
  {
    var i := OperatorIndex(s);
    if i < |s| then buf[i := NUL] else buf
  }

  /** The end of a string is a string, in any buffer that agrees on it. */
  lemma HoldsTail(base: bytes, buf: bytes, s: bytes, p: nat)
    requires HoldsString(base, 0, s) && p <= |s| && |buf| == |base|
    requires forall k :: p <= k <= |s| ==> buf[k] == base[k]
    ensures HoldsString(buf, p, s[p..])
  {
  }

  /** What lies in the buffer once the command has been cut off: the command, and the operand behind the
      operator. */
  lemma CutLeaves(s: bytes, base: bytes)
    requires HoldsString(base, 0, s)
    ensures var i := OperatorIndex(s);
            var p := if i < |s| then i + |Operator(KindOf(s[i..]))| else |s|;
            && HoldsString(CutOff(s, base), 0, s[..i])
            && i <= p <= |s| && HoldsString(CutOff(s, base), p, s[p..])
  {
    var i := OperatorIndex(s);
    if i < |s| {
      var n := |Operator(KindOf(s[i..]))|;
      assert s[i..][n..] == s[i + n..];
      HoldsTail(base, CutOff(s, base), s, i + n);
    } else {
      assert s[..i] == s && s[i..] == [];
      HoldsTail(base, base, s, i);
    }
  }

  /** The redirection a line names, by the operand behind its operator. */
  lemma RedirectOf(s: bytes, p: nat)
    requires var i := OperatorIndex(s);
             p == if i < |s| then i + |Operator(KindOf(s[i..]))| else |s|
    ensures p <= |s|
    ensures var i := OperatorIndex(s);
            ParseRedirect(s[i..])
            == if s[p..] == [] then None else Some(Redirect(KindOf(s[i..]), SkipWhitespace(s[p..])))
  {
    var i := OperatorIndex(s);
    if i < |s| {
      assert s[i..][p - i..] == s[p..];
    }
  }

  /** The three passes together overwrite just those bytes. */
  lemma PassesOverwrite(line: bytes, stored: bytes, s: bytes, cut: bytes, done: bytes)
    requires line != [] && HoldsString(stored, 0, line)
    requires s == Body(line)[..OperatorIndex(Body(line))]
    requires cut == CutOff(Body(line), stored[|line| - 1 := NUL])
    requires TokenizedUpTo(s, cut, done, |s|)
    ensures forall k :: 0 <= k < |stored| ==>
              done[k] == if IsOverwritten(line, k) then NUL else stored[k]
  {
    forall k | 0 <= k < |stored|
      ensures done[k] == if IsOverwritten(line, k) then NUL else stored[k]
    {
      if k < |s| {
        assert s[k] == line[k] == stored[k];
        assert done[k] == Cut(s, k);
      }
    }
  }

  /** What the buffer shows as a string afterwards. */
  lemma ResidueLeft(text: bytes, stored: bytes, done: bytes)
    requires text != [] && HoldsString(stored, 0, text) && |done| == |stored|
    requires forall k :: 0 <= k < |stored| ==>
               done[k] == if IsOverwritten(text, k) then NUL else stored[k]
    ensures HoldsString(done, 0, Residue(Body(text)))
  {
    var body := Body(text);
    var s := body[..OperatorIndex(body)];
    var e := FirstWordEnd(s, 0);
    assert IsOverwritten(text, e);
    forall k | 0 <= k < e
      ensures s[k] == done[k] != NUL
    {
      assert s[k] == text[k] == stored[k];
    }
  }

  /** The file name lies behind the cut, out of the tokenizer's reach. */
  lemma TargetStays(s: bytes, base: bytes, buf: bytes, code: int, start: Pointer, redirect: Option<Redirect>)
    requires TokenizedUpTo(s, base, buf, |s|)
    requires start.At? ==> |s| < start.offset
    requires HoldsRedirect(base, code, start, redirect)
    ensures HoldsRedirect(buf, code, start, redirect)
  {
  }

  /** The passes in a row: strip, cut, split. */
  lemma PassesParse(text: bytes, stored: bytes, s: bytes, cut: bytes, done: bytes, slots: seq<Pointer>,
                    code: int, start: Pointer)
    requires text != [] && HoldsString(stored, 0, text)
    requires s == Body(text)[..OperatorIndex(Body(text))]
    requires cut == CutOff(Body(text), stored[|text| - 1 := NUL])
    requires HoldsRedirect(cut, code, start, ParseRedirect(Body(text)[|s|..])) && (start.At? ==> |s| < start.offset)
    requires TokenizedUpTo(s, cut, done, |s|) && HoldsArgv(done, slots, Words(s))
    ensures Denotes(done, slots, code, start, Parse(Body(text)))
    ensures HoldsString(done, 0, Residue(Body(text)))
    ensures forall k :: 0 <= k < |stored| ==>
              done[k] == if IsOverwritten(text, k) then NUL else stored[k]
  {
    PassesOverwrite(text, stored, s, cut, done);
    TargetStays(s, cut, done, code, start, Parse(Body(text)).redirect);
    ResidueLeft(text, stored, done);
  }

  class Parser {
    const cmd: array<byte>
    const myargv: array<Pointer>
    var redirectType: int
    /** Where `strtok` goes on when it is called with a null pointer. */
    var saved: Pointer

    ghost predicate Valid() {
      cmd.Length == LEN && myargv.Length == NUM
    }

    /** Only `type` has a defined first value; the buffers start as garbage. */
    constructor ()
      ensures Valid() && redirectType == 0 && cmd.Length == 1024 && myargv.Length == 32
      ensures fresh(cmd) && fresh(myargv)
    {
      cmd := new byte[LEN];
      myargv := new Pointer[NUM];
      redirectType := 0;
      saved := Null;
    }

    /** The string the buffer holds now. */
    ghost function Text(): bytes
      requires Valid() && Terminated(cmd[..], 0)
      reads this, cmd
    {
      StringAt(cmd[..], 0)
    }

    method Store(line: bytes)
      requires Valid() && |line| < LEN
      modifies cmd
      ensures cmd[..] == Stored(line, old(cmd[..]))
    {
      var i := 0;
      while i < |line|
        invariant 0 <= i <= |line|
        invariant forall k :: 0 <= k < i ==> cmd[k] == line[k]
        invariant forall k :: i <= k < LEN ==> cmd[k] == old(cmd[k])
      {
        cmd[i] := line[i];
        i := i + 1;
      }
      cmd[i] := NUL;
    }

    /** `fgets(cmd, LEN, stdin)`: the line and a NUL are stored, the rest of the buffer keeps what
        it held. At the end of the input the whole buffer does. */
    method Fgets(input: bytes) returns (rest: bytes)
      requires Valid()
      modifies cmd
      ensures var line := FirstLine(input, LEN - 1);
              && input == line + rest
              && (input == [] ==> cmd[..] == old(cmd[..]))
              && (input != [] ==>
                    cmd[..] == Stored(line, old(cmd[..])) && HoldsString(cmd[..], 0, UpToNul(line)))
    {
      if input == [] {
        return [];
      }
      var line := FirstLine(input, LEN - 1);
      StoredShows(line, cmd[..]);
      Store(line);
      rest := input[|line|..];
    }

    /** `cmd[strlen(cmd) - 1] = '\0'`. */
    method StripLastByte()
      requires Valid() && Terminated(cmd[..], 0) && Text() != []
      modifies cmd
      ensures cmd[..] == old(cmd[..])[|old(Text())| - 1 := NUL]
      ensures HoldsString(cmd[..], 0, Body(old(Text())))
    {
      var length := |StringAt(cmd[..], 0)|;
      cmd[length - 1] := NUL;
    }

    /** Cuts the command off at its first operator and notes the kind; `p` is left behind the
        operator, or on the NUL when there is none. */
    method CutAtOperator() returns (p: nat)
      requires Valid() && Terminated(cmd[..], 0)
      modifies this`redirectType, cmd
      ensures var s := old(Text());
              var i := OperatorIndex(s);
              if i < |s| then
                && cmd[..] == old(cmd[..])[i := NUL]
                && redirectType == Code(KindOf(s[i..]))
                && p == i + |Operator(KindOf(s[i..]))| <= |s|
              else
                && cmd[..] == old(cmd[..])
                && redirectType == old(redirectType)
                && p == |s|
    {
      ghost var s := Text();
      ghost var i := OperatorIndex(s);
      p := 0;
      while cmd[p] != NUL
        invariant p <= i && (p < |s| ==> cmd[p] == s[p])
        invariant cmd[..] == old(cmd[..]) && redirectType == old(redirectType)
        decreases |s| - p
      {
        assert cmd[p + 1] == if p + 1 < |s| then s[p + 1] else NUL;
        if cmd[p] == GREATER {
          redirectType := 0;
          cmd[p] := NUL;
          p := p + 1;
          if cmd[p] == GREATER {
            redirectType := 1;
            p := p + 1;
          }
          break;
        }
        if cmd[p] == LESS {
          redirectType := 2;
          cmd[p] := NUL;
          p := p + 1;
          break;
        }
        p := p + 1;
      }
    }

    /** From behind the operator to the file name; null when nothing follows. */
    method SkipToTarget(p: nat) returns (start: Pointer)
      requires Valid() && Terminated(cmd[..], p)
      ensures var operand := StringAt(cmd[..], p);
              if operand == [] then start == Null else
                && start.At? && p <= start.offset <= p + |operand|
                && HoldsString(cmd[..], start.offset, SkipWhitespace(operand))
    {
      if cmd[p] == NUL {
        return Null;
      }
      var q := p;
      while IsSpace(cmd[q])
        invariant p <= q <= p + |StringAt(cmd[..], p)| && Terminated(cmd[..], q)
        invariant q + |StringAt(cmd[..], q)| == p + |StringAt(cmd[..], p)|
        invariant SkipWhitespace(StringAt(cmd[..], q)) == SkipWhitespace(StringAt(cmd[..], p))
        decreases LEN - q
      {
        assert StringAt(cmd[..], q)[1..] == StringAt(cmd[..], q + 1);
        q := q + 1;
      }
      start := At(q);
    }

    /** Cuts the command off at its first operator and finds the file name behind it. */
    method ScanRedirect() returns (start: Pointer)
      requires Valid() && Terminated(cmd[..], 0)
      modifies this`redirectType, cmd
      ensures var s := old(Text());
              var i := OperatorIndex(s);
              && cmd[..] == CutOff(s, old(cmd[..]))
              && HoldsString(cmd[..], 0, s[..i])
              && redirectType == (if i < |s| then Code(KindOf(s[i..])) else old(redirectType))
              && HoldsRedirect(cmd[..], redirectType, start, ParseRedirect(s[i..]))
              && (start.At? ==> i < start.offset <= |s|)
    {
      ghost var s, cut := Text(), CutOff(Text(), cmd[..]);
      CutLeaves(s, cmd[..]);
      var p := CutAtOperator();
      assert cmd[..] == cut;
      StringIsUnique(cut, p, s[p..]);
      start := SkipToTarget(p);
      RedirectOf(s, p);
    }

    /** `strtok`, section 7.24.5.8 of ISO C11. Once the tokens have run out the saved pointer stays on
        the terminating NUL. */
    method Strtok(s: Pointer, delims: set<byte>) returns (token: Pointer)
      requires Valid() && NUL !in delims
      requires var from := if s.At? then s else saved;
               from.At? && Terminated(cmd[..], from.offset)
      modifies this`saved, cmd
      ensures var buf := old(cmd[..]);
              var from := if s.At? then s.offset else old(saved).offset;
              var b := SkipDelimiters(buf, from, delims);
              if buf[b] == NUL then
                token == Null && saved == At(b) && cmd[..] == buf
              else
                var e := SkipToken(buf, b, delims);
                && token == At(b)
                && cmd[..] == buf[e := NUL]
                && saved == At(if buf[e] == NUL then e else e + 1)
    {
      ghost var from := if s.At? then s.offset else saved.offset;
      var b := if s.At? then s.offset else saved.offset;
      while cmd[b] in delims
        invariant from <= b < LEN && Terminated(cmd[..], b)
        invariant SkipDelimiters(cmd[..], b, delims) == SkipDelimiters(cmd[..], from, delims)
        decreases LEN - b
      {
        b := b + 1;
      }
      if cmd[b] == NUL {
        saved := At(b);
        return Null;
      }
      var e := b;
      while cmd[e] !in delims && cmd[e] != NUL
        invariant b <= e < LEN && Terminated(cmd[..], e)
        invariant SkipToken(cmd[..], e, delims) == SkipToken(cmd[..], b, delims)
        decreases LEN - e
      {
        e := e + 1;
      }
      saved := At(if cmd[e] == NUL then e else e + 1);
      cmd[e] := NUL;
      token := At(b);
    }

    /** One call of the loop: the next word start of `s`, or null once there is none. */
    method NextToken(from: Pointer, ghost s: bytes, ghost base: bytes, ghost q: nat)
      returns (token: Pointer, ghost left: seq<nat>)
      requires Valid()
      requires (if from.At? then from else saved) == At(q)
      requires TokenizedUpTo(s, base, cmd[..], q)
      modifies this`saved, cmd
      ensures saved.At? && TokenizedUpTo(s, base, cmd[..], saved.offset)
      ensures left == WordStarts(s, saved.offset)
      ensures match token
              case Null => WordStarts(s, q) == left == [] && saved.offset == |s|
              case At(b) => WordStarts(s, q) == [b] + left
    {
      assert cmd[|s|] == NUL;
      ghost var buf := cmd[..];
      token := Strtok(from, {SPACE});
      ghost var b := SkipDelimiters(buf, q, {SPACE});
      left := WordStarts(s, saved.offset);
      if token == Null {
        NoWordFound(s, base, buf, q, b);
      } else {
        WordFound(s, base, buf, q, b, SkipToken(buf, b, {SPACE}));
      }
    }

    /** The `strtok` loop. `overrun` stands for the write past slot NUM - 1 that the program makes
        when there is no slot left for the next pointer. */
    method FillVector() returns (overrun: bool)
      requires Valid() && Terminated(cmd[..], 0)
      modifies this`saved, cmd, myargv
      ensures var s := old(Text());
              var starts := WordStarts(s, 0);
              && (overrun <==> |starts| >= 32)
              && (!overrun ==>
                    && TokenizedUpTo(s, old(cmd[..]), cmd[..], |s|)
                    && FilledUpTo(myargv[..], old(myargv[..]), starts, if starts == [] then 2 else |starts| + 1)
                    && myargv[|starts|] == Null && (starts == [] ==> myargv[1] == Null))
    {
      ghost var s, base, before := Text(), cmd[..], myargv[..];
      var token, left := NextToken(At(0), s, base, 0);
      ghost var found := if token == Null then [] else [token.offset];
      myargv[0] := token;
      var i := 1;
      ghost var buf, slots := cmd[..], before[0 := token];
      FillFirst(s, base, before, left, buf, saved.offset, token);
      while true
        invariant 1 <= i <= NUM
        invariant saved.At? && cmd[..] == buf && myargv[..] == slots
        invariant Filling(s, base, before, found, left, buf, saved.offset, slots, i)
        decreases NUM - i
      {
        ghost var ahead, q := left, saved.offset;
        token, left := NextToken(Null, s, base, q);
        if i == NUM {
          return true;
        }
        ghost var onward := cmd[..];
        myargv[i] := token;
        assert cmd[..] == onward;
        if token == Null {
          FillNull(s, base, before, found, ahead, buf, q, slots, i);
          assert myargv[..] == slots[i := Null];
          return false;
        }
        FillWord(s, base, before, found, ahead, buf, q, slots, i, token.offset, left, onward, saved.offset);
        found, buf, slots := found + [token.offset], onward, slots[i := token];
        i := i + 1;
      }
    }

    /** Splits the command into words. The write past the vector happens exactly for 32 words or
        more; otherwise the vector holds the words, only the spaces directly behind words have been
        overwritten, and only the slots up to the null (or slots 0 and 1) have been assigned. */
    method Tokenize() returns (overrun: bool)
      requires Valid() && Terminated(cmd[..], 0)
      modifies this`saved, cmd, myargv
      ensures var s := old(Text());
              var starts := WordStarts(s, 0);
              && (overrun <==> |Words(s)| >= 32)
              && (!overrun ==>
                    && TokenizedUpTo(s, old(cmd[..]), cmd[..], |s|)
                    && FilledUpTo(myargv[..], old(myargv[..]), starts, if starts == [] then 2 else |starts| + 1)
                    && (starts == [] ==> myargv[1] == Null)
                    && HoldsArgv(cmd[..], myargv[..], Words(s)))
    {
      ghost var s, base := Text(), cmd[..];
      overrun := FillVector();
      WordsAreMaximalRuns(s);
      if !overrun {
        VectorHoldsWords(s, base, cmd[..], myargv[..]);
      }
    }

    /** The three passes over the string the buffer shows. */
    method ParseText() returns (start: Pointer, overrun: bool)
      requires Valid() && Terminated(cmd[..], 0) && Text() != []
      modifies this, cmd, myargv
      ensures var text := old(Text());
              var c := Parse(Body(text));
              && (overrun <==> |c.argv| >= 32)
              && (!overrun ==>
                    && Denotes(cmd[..], myargv[..], redirectType, start, c)
                    && HoldsString(cmd[..], 0, Residue(Body(text)))
                    && forall k :: 0 <= k < LEN ==>
                         cmd[k] == if IsOverwritten(text, k) then NUL else old(cmd[k]))
    {
      ghost var text, stored := Text(), cmd[..];
      ghost var body := Body(text);
      ghost var s := body[..OperatorIndex(body)];
      StripLastByte();
      StringIsUnique(cmd[..], 0, body);
      start := ScanRedirect();
      ghost var cut, code := cmd[..], redirectType;
      assert cut == CutOff(body, stored[|text| - 1 := NUL]);
      StringIsUnique(cut, 0, s);
      assert Text() == s;
      overrun := Tokenize();
      if !overrun {
        PassesParse(text, stored, s, cut, cmd[..], myargv[..], code, start);
      }
    }

    /** Reads one line and parses what the buffer then shows: the line, or, once the input has ended,
        what the last command left there. The command found depends on that string alone, whatever
        earlier commands left elsewhere in the buffer, in the vector and in `type`. */
    method ReadCommand(input: bytes) returns (rest: bytes, start: Pointer, fault: Fault)
      requires Valid() && (input == [] ==> Terminated(cmd[..], 0))
      modifies this, cmd, myargv
      ensures var line := FirstLine(input, 1023);
              var text := if input == [] then old(Text()) else UpToNul(line);
              var stored := if input == [] then old(cmd[..]) else Stored(line, old(cmd[..]));
              && input == line + rest
              && (fault == Underrun <==> text == [])
              && fault != Unset
              && (text != [] ==>
                    var c := Parse(Body(text));
                    && (fault == Overrun <==> |c.argv| >= 32)
                    && (fault == NoFault ==>
                          && Denotes(cmd[..], myargv[..], redirectType, start, c)
                          && HoldsString(cmd[..], 0, Residue(Body(text)))
                          && forall k :: 0 <= k < LEN ==>
                               cmd[k] == if IsOverwritten(text, k) then NUL else stored[k]))
    {
      ghost var line := FirstLine(input, LEN - 1);
      rest := Fgets(input);
      ghost var stored := cmd[..];
      if input != [] {
        StringIsUnique(stored, 0, UpToNul(line));
      }
      ghost var text := StringAt(stored, 0);
      if |StringAt(cmd[..], 0)| == 0 {
        return rest, Null, Underrun;
      }
      var overrun;
      start, overrun := ParseText();
      fault := if overrun then Overrun else NoFault;
    }
  }
}
