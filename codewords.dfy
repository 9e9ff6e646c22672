/** The codeword materializer: a transition sequence replayed as flips of a
    20-bit word (the source's std::bitset<20>, here a sequence of 20 booleans,
    bit j at index j) starting from all zeros. */
module Codewords {
  import opened Sequences

  const Width: nat := 20

  /** The value of a default-constructed std::bitset<20>. */
  function AllZero(): (w: seq<bool>)
    ensures |w| == Width && forall j :: 0 <= j < Width ==> !w[j]
  {
    seq(Width, _ => false)
  }

  /** Two words of equal length that disagree at bit b and nowhere else. */
  ghost predicate DiffersOnlyAt(u: seq<bool>, w: seq<bool>, b: int)
  {
    |u| == |w| && forall j :: 0 <= j < |u| ==> (u[j] != w[j] <==> j == b)
  }

  /** bitset::flip(b). */
  function Flip(w: seq<bool>, b: nat): (r: seq<bool>)
    requires |w| == Width && b < Width
    ensures |r| == Width
    ensures DiffersOnlyAt(w, r, b)
  {
    w[b := !w[b]]
  }

  ghost predicate FlipsInRange(ts: seq<int>, k: nat)
    requires k <= |ts|
  {
    forall i :: 0 <= i < k ==> 0 <= ts[i] < Width
  }

  /** The word reached after applying the first k flips of ts to zero. */
  function CodewordAt(ts: seq<int>, k: nat): (w: seq<bool>)
    requires k <= |ts| && FlipsInRange(ts, k)
    ensures |w| == Width
  {
    if k == 0 then AllZero() else Flip(CodewordAt(ts, k - 1), ts[k - 1])
  }

  /** Bit j of the word reached after k flips is set exactly when j was
      flipped an odd number of times among the first k transitions. */
  lemma {:induction false} CodewordParity(ts: seq<int>, k: nat, j: nat)
    requires k <= |ts| && FlipsInRange(ts, k) && j < Width
    ensures CodewordAt(ts, k)[j] <==> Occurrences(ts[..k], j) % 2 == 1
  {
    if k == 0 {
      assert ts[..0] == [];
    } else {
      CodewordParity(ts, k - 1, j);
      assert ts[..k] == ts[..k - 1] + [ts[k - 1]];
      OccurrencesSnoc(ts[..k - 1], ts[k - 1], j);
    }
  }

  /** The first k codewords, in order. */
  function CodewordList(ts: seq<int>, k: nat): (r: seq<seq<bool>>)
    requires k <= |ts| && FlipsInRange(ts, k)
    ensures |r| == k
  {
    if k == 0 then [] else CodewordList(ts, k - 1) + [CodewordAt(ts, k - 1)]
  }

  /** Entry i of the list is the word after i flips. */
  lemma {:induction false} CodewordListAt(ts: seq<int>, k: nat)
    requires k <= |ts| && FlipsInRange(ts, k)
    ensures forall i :: 0 <= i < k ==> CodewordList(ts, k)[i] == CodewordAt(ts, i)
  {
    if k > 0 {
      CodewordListAt(ts, k - 1);
    }
  }

  /** The Gray code property: the words after i and i+1 flips differ exactly
      in the bit that transition i names. */
  lemma CodewordSteps(ts: seq<int>, k: nat)
    requires k <= |ts| && FlipsInRange(ts, k)
    ensures forall i :: 0 <= i < k ==> DiffersOnlyAt(CodewordAt(ts, i), CodewordAt(ts, i + 1), ts[i])
  {
    forall i | 0 <= i < k
      ensures DiffersOnlyAt(CodewordAt(ts, i), CodewordAt(ts, i + 1), ts[i])
    {
      assert CodewordAt(ts, i + 1) == Flip(CodewordAt(ts, i), ts[i]);
    }
  }
}
