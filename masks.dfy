/** Boolean-mask selection, the `frame[mask]` indexing every filter of the
    preprocessing and analysis code is built from: keep the rows whose mask
    entry is true, in their original order. */
module Masks {

  /** The elements of `s` whose mask entry is true, in their original order. */
  function Masked<T>(s: seq<T>, mask: seq<bool>): (r: seq<T>)
    requires |mask| == |s|
    ensures |r| <= |s|
  {
    if s == [] then []
    else Masked(s[..|s| - 1], mask[..|s| - 1]) + (if mask[|s| - 1] then [s[|s| - 1]] else [])
  }

  /** The positions at which `mask` is true, in increasing order. */
  function Kept(mask: seq<bool>): (idx: seq<nat>)
    ensures forall k | 0 <= k < |idx| :: idx[k] < |mask| && mask[idx[k]]
    ensures forall k, l | 0 <= k < l < |idx| :: idx[k] < idx[l]
    ensures forall i | 0 <= i < |mask| && mask[i] :: i in idx
  {
    if mask == [] then []
    else Kept(mask[..|mask| - 1]) + (if mask[|mask| - 1] then [|mask| - 1] else [])
  }

  /** `out` consists of exactly the elements of `s` at the positions where
      `mask` is true, in the same order: the k-th element of `out` is the
      element at the k-th true position. */
  ghost predicate Selects<T>(out: seq<T>, s: seq<T>, mask: seq<bool>)
  {
    && |mask| == |s|
    && |out| == |Kept(mask)|
    && forall k | 0 <= k < |out| :: out[k] == s[Kept(mask)[k]]
  }

  /** Masking selects exactly the marked elements, in order. */
  lemma {:induction false} MaskedSelects<T>(s: seq<T>, mask: seq<bool>)
    requires |mask| == |s|
    ensures Selects(Masked(s, mask), s, mask)
  {
    if s != [] {
      var n := |s| - 1;
      MaskedSelects(s[..n], mask[..n]);
      var prev, idx := Masked(s[..n], mask[..n]), Kept(mask[..n]);
      assert Kept(mask) == idx + (if mask[n] then [n] else []);
      assert Masked(s, mask) == prev + (if mask[n] then [s[n]] else []);
      forall k | 0 <= k < |prev|
        ensures Masked(s, mask)[k] == s[Kept(mask)[k]]
      {
        assert s[..n][idx[k]] == s[idx[k]];
      }
    }
  }

  /** What `Selects` says element by element: every selected element comes
      from a marked position, and every marked element is selected. */
  lemma SelectsMembers<T>(out: seq<T>, s: seq<T>, mask: seq<bool>)
    requires Selects(out, s, mask)
    ensures |out| <= |s|
    ensures forall x | x in out :: exists i | 0 <= i < |s| :: mask[i] && s[i] == x
    ensures forall i | 0 <= i < |s| && mask[i] :: s[i] in out
  {
    var idx := Kept(mask);
    forall x | x in out
      ensures exists i | 0 <= i < |s| :: mask[i] && s[i] == x
    {
      var k :| 0 <= k < |out| && out[k] == x;
      assert mask[idx[k]] && s[idx[k]] == x;
    }
    forall i | 0 <= i < |s| && mask[i]
      ensures s[i] in out
    {
      var k :| 0 <= k < |idx| && idx[k] == i;
      assert out[k] == s[i];
    }
    KeptLength(mask);
  }

  /** There are no more true positions than positions. */
  lemma {:induction false} KeptLength(mask: seq<bool>)
    ensures |Kept(mask)| <= |mask|
  {
    if mask != [] {
      KeptLength(mask[..|mask| - 1]);
    }
  }

  /** A mask with no true entry selects nothing. */
  lemma {:induction false} KeptNone(mask: seq<bool>)
    requires forall i | 0 <= i < |mask| :: !mask[i]
    ensures Kept(mask) == []
  {
    if mask != [] {
      KeptNone(mask[..|mask| - 1]);
    }
  }
}
