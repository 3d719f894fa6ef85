/** Shared vocabulary: an optional value, used wherever the driver returns
    a pointer that may be NULL or a record field that may be empty, and the
    generic sequence facts the proofs need spelled out. */
module Common {

  /** `None` plays the part of a NULL pointer. */
  datatype Option<+T> = None | Some(value: T)

  /** Regrouping a concatenation; calling this keeps the solver from
      rediscovering it by extensionality over large terms. */
  lemma AppendAssociates<T>(a: seq<T>, b: seq<T>, c: seq<T>)
    ensures (a + b) + c == a + (b + c)
  {
  }

  /** The positions of `s[..i] + s[i + 1..]` in terms of `s`. */
  lemma RemovedIndex<T>(s: seq<T>, i: nat, k: nat)
    requires i < |s|
    requires k < |s| - 1
    ensures |s[..i] + s[i + 1..]| == |s| - 1
    ensures (s[..i] + s[i + 1..])[k] == s[if k < i then k else k + 1]
  {
  }

  /** A sequence around one of its positions. */
  lemma SplitAt<T>(s: seq<T>, i: nat)
    requires i < |s|
    ensures s == s[..i] + ([s[i]] + s[i + 1..])
  {
  }

  /** `s` back to front. */
  function Reverse<T>(s: seq<T>): (r: seq<T>)
    ensures |r| == |s|
  {
    if |s| == 0 then [] else [s[|s| - 1]] + Reverse(s[..|s| - 1])
  }

  lemma ReverseSnoc<T>(s: seq<T>, x: T)
    ensures Reverse(s + [x]) == [x] + Reverse(s)
  {
    assert (s + [x])[..|s|] == s;
  }
}
