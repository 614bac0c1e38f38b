/** The words of a command as positions in the line, and how many of them there can be. */
module WordPositions {
  import opened Bytes
  import opened CommandLine

  /** A word starts at `k`: no space here, and none of the same run before. */
  predicate IsWordStart(s: bytes, k: nat) {
    k < |s| && s[k] != SPACE && (k == 0 || s[k - 1] == SPACE)
  }

  /** The space at `k` directly follows a word. */
  predicate IsWordEnd(s: bytes, k: nat) {
    0 < k < |s| && s[k] == SPACE && s[k - 1] != SPACE
  }

  /** The first space from `k` on that directly follows a word, or the end of the line. */
  function FirstWordEnd(s: bytes, k: nat): (e: nat)
    requires k <= |s|
    ensures k <= e <= |s|
    ensures forall j :: k <= j < e ==> !IsWordEnd(s, j)
    ensures e < |s| ==> IsWordEnd(s, e)
    decreases |s| - k
  {
    if k == |s| || IsWordEnd(s, k) then k else FirstWordEnd(s, k + 1)
  }

  /** What the buffer still shows as a string once the command `body` has been cut and split: the
      command up to the end of its first word. */
  function Residue(body: bytes): bytes {
    var s := body[..OperatorIndex(body)];
    s[..FirstWordEnd(s, 0)]
  }

  ghost predicate Increasing(a: seq<nat>) {
    forall i, j :: 0 <= i < j < |a| ==> a[i] < a[j]
  }

  /** All positions from `i` on where a word starts, in order. */
  function WordStarts(s: bytes, i: nat): (starts: seq<nat>)
    requires i <= |s|
    ensures forall j :: 0 <= j < |starts| ==> i <= starts[j] < |s|
    decreases |s| - i
  {
    if i == |s| then []
    else if IsWordStart(s, i) then [i] + WordStarts(s, i + 1)
    else WordStarts(s, i + 1)
  }

  /** The list is strictly increasing and names the word starts, all of them and nothing else. */
  lemma {:induction false} WordStartsAreAll(s: bytes, i: nat)
    requires i <= |s|
    ensures Increasing(WordStarts(s, i))
    ensures forall k :: k in WordStarts(s, i) <==> i <= k < |s| && IsWordStart(s, k)
    decreases |s| - i
  {
    if i < |s| {
      WordStartsAreAll(s, i + 1);
    }
  }

  /** The word that starts at `k` runs up to the next space or the end of the line. */
  function WordAt(s: bytes, k: nat): bytes
    requires k <= |s|
  {
    FirstWord(s[k..])
  }

  /** The words starting at the given positions. */
  function WordsAt(s: bytes, starts: seq<nat>): (words: seq<bytes>)
    requires forall j :: 0 <= j < |starts| ==> starts[j] <= |s|
    ensures |words| == |starts|
    ensures forall j :: 0 <= j < |starts| ==> words[j] == WordAt(s, starts[j])
  {
    if starts == [] then [] else [WordAt(s, starts[0])] + WordsAt(s, starts[1..])
  }

  /** No word is cut in two at `q`. */
  predicate IsBoundary(s: bytes, q: nat)
    requires q <= |s|
  {
    q == 0 || q == |s| || s[q] == SPACE || s[q - 1] == SPACE
  }

  /** Nothing starts between two positions with no space just before any position between them. */
  lemma {:induction false} NoStartInside(s: bytes, i: nat, e: nat)
    requires i <= e <= |s|
    requires forall k :: i <= k < e ==> !IsWordStart(s, k)
    ensures WordStarts(s, i) == WordStarts(s, e)
    decreases e - i
  {
    if i < e {
      NoStartInside(s, i + 1, e);
    }
  }

  /** One step of a left-to-right scan: skip spaces to `b`, then a word up to `e`. */
  lemma NextWord(s: bytes, q: nat, b: nat, e: nat)
    requires q <= b < e <= |s| && IsBoundary(s, q)
    requires forall k :: q <= k < b ==> s[k] == SPACE
    requires forall k :: b <= k < e ==> s[k] != SPACE
    requires e < |s| ==> s[e] == SPACE
    ensures WordStarts(s, q) == [b] + WordStarts(s, e)
    ensures WordAt(s, b) == s[b..e]
  {
    NoStartInside(s, q, b);
    NoStartInside(s, b + 1, e);
    var w := WordAt(s, b);
    assert forall k :: 0 <= k < |w| ==> w[k] == s[b..][k] == s[b + k];
    assert |w| < |s| - b ==> s[b..][|w|] == s[b + |w|] == SPACE;
    assert |w| == e - b;
  }

  /** `WordAt` read as positions of the whole line. */
  lemma FirstWordSpan(s: bytes, q: nat)
    requires q < |s| && s[q] != SPACE
    ensures var e := q + |FirstWord(s[q..])|;
            && q < e <= |s|
            && (forall k :: q <= k < e ==> s[k] != SPACE)
            && (e < |s| ==> s[e] == SPACE)
            && Words(s[q..]) == [WordAt(s, q)] + Words(s[e..])
  {
    var w := FirstWord(s[q..]);
    var e := q + |w|;
    assert s[q..][|w|..] == s[e..];
    assert forall k :: 0 <= k < |w| ==> w[k] == s[q + k];
    assert forall k :: q <= k < e ==> s[k] == w[k - q];
  }

  /** Different words share no byte, and not even the space between them. */
  lemma WordsAreDisjoint(s: bytes, k: nat, k': nat)
    requires IsWordStart(s, k) && IsWordStart(s, k') && k < k'
    ensures k + |WordAt(s, k)| < k'
  {
    FirstWordSpan(s, k);
  }

  lemma {:induction false} WordsFrom(s: bytes, q: nat)
    requires q <= |s| && IsBoundary(s, q)
    ensures Words(s[q..]) == WordsAt(s, WordStarts(s, q))
    decreases |s| - q
  {
    if q < |s| {
      if s[q] == SPACE {
        assert s[q..][1..] == s[q + 1..];
        WordsFrom(s, q + 1);
      } else {
        var e := q + |FirstWord(s[q..])|;
        FirstWordSpan(s, q);
        NextWord(s, q, q, e);
        assert WordStarts(s, q)[1..] == WordStarts(s, e);
        WordsFrom(s, e);
      }
    }
  }

  /** The words are exactly the maximal space-free runs of the line, in order. */
  lemma WordsAreMaximalRuns(s: bytes)
    ensures Words(s) == WordsAt(s, WordStarts(s, 0))
  {
    assert s[0..] == s;
    WordsFrom(s, 0);
  }

  /** A line of n bytes has at most (n + 1) / 2 words ... */
  lemma {:induction false} WordCountBound(s: bytes)
    ensures |Words(s)| <= (|s| + 1) / 2
    decreases |s|
  {
    if s != [] {
      if s[0] == SPACE {
        WordCountBound(s[1..]);
      } else {
        var rest := s[|FirstWord(s)|..];
        if rest != [] {
          assert Words(rest) == Words(rest[1..]);
          WordCountBound(rest[1..]);
        }
      }
    }
  }

  /** One-letter words separated by single spaces, n bytes long. */
  function Crowded(n: nat): (s: bytes)
    ensures |s| == n
  {
    if n == 0 then [] else if n == 1 then [120] else [120, SPACE] + Crowded(n - 2)
  }

  /** ... and for every n some line reaches the bound. */
  lemma {:induction false} WordCountBoundIsTight(n: nat)
    ensures |Crowded(n)| == n
    ensures |Words(Crowded(n))| == (n + 1) / 2
    ensures forall b :: b in Crowded(n) ==> b != NUL && b != NEWLINE && !IsOperator(b)
  {
    var s := Crowded(n);
    if n == 1 {
      assert FirstWord(s[1..]) == [];
      assert FirstWord(s) == [120];
      assert Words(s) == [[120]] + Words(s[1..]);
    } else if n > 1 {
      assert s[1..] == [SPACE] + Crowded(n - 2);
      assert FirstWord(s[1..]) == [];
      assert FirstWord(s) == [120];
      assert s[1..][1..] == Crowded(n - 2);
      assert Words(s) == [[120]] + Words(s[1..]);
      WordCountBoundIsTight(n - 2);
    }
  }
}
