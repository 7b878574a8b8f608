/** Reversal of a list, as `List.Reverse` does to the reconstructed path. */
module Lists {

  function Reverse<T>(s: seq<T>): (r: seq<T>)
    ensures |r| == |s|
  {
    if s == [] then [] else [s[|s| - 1]] + Reverse(s[..|s| - 1])
  }

  /** Position `i` of the reversal holds position `|s| - 1 - i` of the original. */
  lemma {:induction false} ReverseIndex<T>(s: seq<T>, i: nat)
    requires i < |s|
    ensures Reverse(s)[i] == s[|s| - 1 - i]
    decreases |s|
  {
    if i > 0 {
      ReverseIndex(s[..|s| - 1], i - 1);
    }
  }

  /** Reversing twice gives back the original list. */
  lemma ReverseInvolution<T>(s: seq<T>)
    ensures Reverse(Reverse(s)) == s
  {
    var r := Reverse(s);
    forall i | 0 <= i < |s| ensures Reverse(r)[i] == s[i] {
      ReverseIndex(r, i);
      ReverseIndex(s, |s| - 1 - i);
    }
  }
}
