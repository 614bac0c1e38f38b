/** The directory name the prompt shows. */
module Prompt {
  import opened Bytes

  /** What follows the last slash of `path` begins at `p`; nothing does when the slash is at its end. */
  ghost predicate IsLastPart(path: bytes, p: nat) {
    && 0 < p <= |path|
    && path[p - 1] == SLASH
    && forall k :: p <= k < |path| ==> path[k] != SLASH
  }

  /** Walks back from the end of the path to its last slash. The walk stays inside the buffer, for a
      working directory's path holds a slash. */
  method LastPart(pwd: array<byte>) returns (p: nat)
    requires Terminated(pwd[..], 0)
    requires SLASH in StringAt(pwd[..], 0)
    ensures var path := StringAt(pwd[..], 0);
            && IsLastPart(path, p)
            && (forall q: nat :: IsLastPart(path, q) ==> q == p)
            && HoldsString(pwd[..], p, path[p..])
  {
    ghost var path := StringAt(pwd[..], 0);
    var len := |StringAt(pwd[..], 0)|;
    p := len - 1;
    while pwd[p] != SLASH
      invariant p < len
      invariant forall k :: p < k < len ==> path[k] != SLASH
      decreases p
    {
      assert path[p] == pwd[p];
      assert exists k :: 0 <= k < p && path[k] == SLASH;
      p := p - 1;
    }
    assert path[p] == pwd[p];
    p := p + 1;
  }
}
