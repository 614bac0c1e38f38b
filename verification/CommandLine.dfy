/** What one command line means, read off the line itself: no buffer, no pointers, no earlier lines. */
module CommandLine {
  import opened Bytes

  /** `>`, `>>` and `<`, in the order of the codes 0, 1 and 2 the shell keeps in `type`. */
  datatype Kind = Truncate | Append | Input

  datatype Redirect = Redirect(kind: Kind, target: bytes)

  datatype Command = Command(argv: seq<bytes>, redirect: Option<Redirect>)

  predicate IsOperator(b: byte) {
    b == LESS || b == GREATER
  }

  /** Where the first `<` or `>` stands, or the length of the line. */
  function OperatorIndex(s: bytes): (i: nat)
    ensures i <= |s|
    ensures forall k :: 0 <= k < i ==> !IsOperator(s[k])
    ensures i < |s| ==> IsOperator(s[i])
  {
    if s == [] || IsOperator(s[0]) then 0 else 1 + OperatorIndex(s[1..])
  }

  /** The longest space-free beginning of `s`. */
  function FirstWord(s: bytes): (w: bytes)
    ensures |w| <= |s| && w == s[..|w|]
    ensures SPACE !in w
    ensures |w| < |s| ==> s[|w|] == SPACE
  {
    if s == [] || s[0] == SPACE then [] else [s[0]] + FirstWord(s[1..])
  }

  /** The words of a command: `s` split at spaces, empty pieces dropped. */
  function Words(s: bytes): seq<bytes>
    decreases |s|
  {
    if s == [] then []
    else if s[0] == SPACE then Words(s[1..])
    else
      var w := FirstWord(s);
      [w] + Words(s[|w|..])
  }

  /** `s` without its leading white space. */
  function SkipWhitespace(s: bytes): (r: bytes)
    ensures r != [] ==> !IsSpace(r[0])
  {
    if s == [] || !IsSpace(s[0]) then s else SkipWhitespace(s[1..])
  }

  /** Which operator stands at the front of `s`. */
  function KindOf(s: bytes): Kind
    requires s != [] && IsOperator(s[0])
  {
    if s[0] == LESS then Input
    else if |s| > 1 && s[1] == GREATER then Append
    else Truncate
  }

  function Operator(kind: Kind): bytes {
    match kind
    case Truncate => [GREATER]
    case Append => [GREATER, GREATER]
    case Input => [LESS]
  }

  /** The part of a line from its first operator on. An operator with nothing behind it is no
      redirection at all; one with only white space behind it names the empty file name. */
  function ParseRedirect(s: bytes): Option<Redirect>
    requires s != [] ==> IsOperator(s[0])
  {
    if s == [] then None else
      var kind := KindOf(s);
      var rest := s[|Operator(kind)|..];
      if rest == [] then None else Some(Redirect(kind, SkipWhitespace(rest)))
  }

  function Parse(line: bytes): Command {
    var i := OperatorIndex(line);
    Command(Words(line[..i]), ParseRedirect(line[i..]))
  }
}
