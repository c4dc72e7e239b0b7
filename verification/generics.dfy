/** Helpers over strings and rating vectors (src/generics.rs). */
module Generics {

  /** Reverses a string, character by character. */
  function Invert(s: string): (r: string)
    ensures |r| == |s|
    ensures forall i :: 0 <= i < |s| ==> r[i] == s[|s| - 1 - i]
  {
    if s == [] then [] else Invert(s[1..]) + [s[0]]
  }

  /** Reversing twice gives the string back. */
  lemma InvertInvolutive(s: string)
    ensures Invert(Invert(s)) == s
  {
    var r := Invert(Invert(s));
    assert |r| == |s|;
    forall i | 0 <= i < |s| ensures r[i] == s[i] {
      assert r[i] == Invert(s)[|s| - 1 - i];
    }
  }

  /** Appending a character to a string prepends it to the reversal. */
  lemma InvertSnoc(s: string, c: char)
    ensures Invert(s + [c]) == [c] + Invert(s)
  {
    var l, r := Invert(s + [c]), [c] + Invert(s);
    assert |l| == |r|;
    forall i | 0 <= i < |l| ensures l[i] == r[i] {
      if i > 0 {
        assert l[i] == (s + [c])[|s| - i];
      }
    }
  }

  /** The smallest element, as `min` computes it scanning left to right. */
  function SeqMin(s: seq<real>): (m: real)
    requires s != []
    ensures m in s
    ensures forall i :: 0 <= i < |s| ==> m <= s[i]
  {
    if |s| == 1 then s[0]
    else
      var rest := SeqMin(s[..|s| - 1]);
      if s[|s| - 1] < rest then s[|s| - 1] else rest
  }

  /** The largest element, as `max` computes it scanning left to right. */
  function SeqMax(s: seq<real>): (m: real)
    requires s != []
    ensures m in s
    ensures forall i :: 0 <= i < |s| ==> s[i] <= m
  {
    if |s| == 1 then s[0]
    else
      var rest := SeqMax(s[..|s| - 1]);
      if s[|s| - 1] > rest then s[|s| - 1] else rest
  }

  /** `min`: a running minimum over a non-empty slice (the source indexes `arr[0]`). */
  method Min(arr: seq<real>) returns (m: real)
    requires arr != []
    ensures m == SeqMin(arr)
    ensures m in arr && forall i :: 0 <= i < |arr| ==> m <= arr[i]
  {
    m := arr[0];
    for k := 0 to |arr|
      invariant k == 0 ==> m == arr[0]
      invariant 0 < k ==> m == SeqMin(arr[..k])
    {
      if arr[k] < m {
        m := arr[k];
      }
      assert arr[..k + 1][..k] == arr[..k];
    }
    assert arr[..|arr|] == arr;
  }

  /** `max`: a running maximum over a non-empty slice. */
  method Max(arr: seq<real>) returns (m: real)
    requires arr != []
    ensures m == SeqMax(arr)
    ensures m in arr && forall i :: 0 <= i < |arr| ==> arr[i] <= m
  {
    m := arr[0];
    for k := 0 to |arr|
      invariant k == 0 ==> m == arr[0]
      invariant 0 < k ==> m == SeqMax(arr[..k])
    {
      if arr[k] > m {
        m := arr[k];
      }
      assert arr[..k + 1][..k] == arr[..k];
    }
    assert arr[..|arr|] == arr;
  }

  /** The minimum of a non-empty vector never exceeds its maximum. */
  lemma MinAtMostMax(s: seq<real>)
    requires s != []
    ensures SeqMin(s) <= SeqMax(s)
  {
    assert SeqMin(s) <= s[0] <= SeqMax(s);
  }
}
