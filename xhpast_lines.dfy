/**
 * The offset-to-line-number map of XHPASTTree: entry `i` is the line (from
 * 1) that byte `i` of the source sits on.
 */
module XhpastLines {

  /** Number of newline bytes in `s`. */
  function Newlines(s: string): nat
  {
    if s == [] then 0 else Newlines(s[..|s| - 1]) + (if s[|s| - 1] == '\n' then 1 else 0)
  }

  /** The map as specified: byte `i` is on line 1 plus the newlines before it. */
  function LineMap(src: string): seq<nat>
  {
    seq(|src|, i requires 0 <= i < |src| => 1 + Newlines(src[..i]))
  }

  lemma NewlinesStep(src: string, i: nat)
    requires i < |src|
    ensures Newlines(src[..i + 1]) == Newlines(src[..i]) + (if src[i] == '\n' then 1 else 0)
  {
    assert src[..i + 1][..i] == src[..i];
  }

  /**
   * The map has one entry per byte, the first byte is on line 1, and the
   * line steps up by one exactly after a newline byte and stays otherwise.
   */
  lemma LineMapShape(src: string)
    ensures |LineMap(src)| == |src|
    ensures |src| > 0 ==> LineMap(src)[0] == 1
    ensures forall i :: 0 <= i < |src| - 1 ==>
      LineMap(src)[i + 1] == LineMap(src)[i] + (if src[i] == '\n' then 1 else 0)
  {
    if |src| > 0 {
      assert src[..0] == [];
    }
    forall i | 0 <= i < |src| - 1
      ensures LineMap(src)[i + 1] == LineMap(src)[i] + (if src[i] == '\n' then 1 else 0)
    {
      NewlinesStep(src, i);
    }
  }

  /** Line numbers never decrease along the source. */
  lemma {:induction false} LineMapMonotone(src: string, i: nat, j: nat)
    requires i <= j < |src|
    ensures LineMap(src)[i] <= LineMap(src)[j]
    decreases j - i
  {
    if i < j {
      LineMapShape(src);
      LineMapMonotone(src, i + 1, j);
    }
  }

  /** A text has no newline byte exactly when its newline count is zero. */
  lemma {:induction false} NewlinesAbsent(s: string)
    ensures Newlines(s) == 0 <==> '\n' !in s
  {
    if s != [] {
      NewlinesAbsent(s[..|s| - 1]);
      assert s == s[..|s| - 1] + [s[|s| - 1]];
      assert forall c :: c in s <==> c in s[..|s| - 1] || c == s[|s| - 1];
    }
  }

  /** Newlines add up over concatenation. */
  lemma {:induction false} NewlinesConcat(s: string, t: string)
    ensures Newlines(s + t) == Newlines(s) + Newlines(t)
    decreases |t|
  {
    if t == [] {
      assert s + t == s;
    } else {
      assert (s + t)[..|s + t| - 1] == s + t[..|t| - 1];
      NewlinesConcat(s, t[..|t| - 1]);
    }
  }
}
