/** Bytes, and the strings that C code reads out of a byte buffer. */
module Bytes {
  newtype byte = b: int | 0 <= b < 256

  type bytes = seq<byte>

  const NUL: byte := 0
  const NEWLINE: byte := 10
  const SPACE: byte := 32
  const SLASH: byte := 47
  const LESS: byte := 60
  const GREATER: byte := 62

  /** The bytes of a text of ASCII characters; there are no others here. */
  function Ascii(s: string): (b: bytes)
    ensures |b| == |s|
  {
    seq(|s|, i requires 0 <= i < |s| => if s[i] < 128 as char then s[i] as byte else NUL)
  }

  datatype Option<+T> = None | Some(value: T)

  /** `isspace` in the C locale. */
  predicate IsSpace(b: byte) {
    b == SPACE || 9 <= b <= 13
  }

  /** The C-string `s`, terminator included, lies in `buf` at offset `p`. */
  ghost predicate HoldsString(buf: bytes, p: nat, s: bytes) {
    && p + |s| < |buf|
    && (forall k :: 0 <= k < |s| ==> s[k] == buf[p + k] && s[k] != NUL)
    && buf[p + |s|] == NUL
  }

  /** A reader starting at `p` meets a NUL before it leaves the buffer. */
  ghost predicate Terminated(buf: bytes, p: nat) {
    exists k :: p <= k < |buf| && buf[k] == NUL
  }

  /** What a C function sees when it is handed the address of `buf[p]`. */
  function StringAt(buf: bytes, p: nat): (s: bytes)
    requires Terminated(buf, p)
    ensures HoldsString(buf, p, s)
    decreases |buf| - p
  {
    if buf[p] == NUL then [] else
      [buf[p]] + StringAt(buf, p + 1)
  }

  /** A buffer holds at most one string at each offset. */
  lemma {:induction false} StringIsUnique(buf: bytes, p: nat, s: bytes)
    requires HoldsString(buf, p, s)
    ensures Terminated(buf, p)
    ensures StringAt(buf, p) == s
    decreases |s|
  {
    if s != [] {
      StringIsUnique(buf, p + 1, s[1..]);
      assert s == [s[0]] + s[1..];
    }
  }

  /** The pieces laid end to end. */
  function Concat(pieces: seq<bytes>): bytes {
    if pieces == [] then [] else pieces[0] + Concat(pieces[1..])
  }

  lemma Associate<T>(a: seq<T>, b: seq<T>, c: seq<T>)
    ensures (a + b) + c == a + (b + c)
  {
  }
}
