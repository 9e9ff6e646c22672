/** What the two interleavers emit: the pattern word Z is walked from left to
    right, and each symbol takes the next transition of its component code,
    shifted into that component's own range of bit positions. The cursor of a
    component after the prefix Z[..i] is the number of its symbols in that
    prefix, taken modulo the component's length. */
module Interleave {
  import opened Sequences

  /** Theorem 1 at position i: 'a' takes from A, 'b' from B shifted by n;
      any other symbol leaves the zero the output vector was created with. */
  function Emit2(A: seq<int>, B: seq<int>, n: int, Z: seq<char>, i: nat): int
    requires |A| > 0 && |B| > 0 && i < |Z|
  {
    if Z[i] == 'a' then A[Occurrences(Z[..i], 'a') % |A|]
    else if Z[i] == 'b' then B[Occurrences(Z[..i], 'b') % |B|] + n
    else 0
  }

  /** Theorem 2 at position i: as Emit2, and 'c' takes from C shifted by n+m. */
  function Emit3(A: seq<int>, B: seq<int>, C: seq<int>, n: int, m: int, Z: seq<char>, i: nat): int
    requires |A| > 0 && |B| > 0 && |C| > 0 && i < |Z|
  {
    if Z[i] == 'a' then A[Occurrences(Z[..i], 'a') % |A|]
    else if Z[i] == 'b' then B[Occurrences(Z[..i], 'b') % |B|] + n
    else if Z[i] == 'c' then C[Occurrences(Z[..i], 'c') % |C|] + n + m
    else 0
  }

  /** Reading one more symbol of Z advances the cursor of that symbol only. */
  lemma CursorStep(Z: seq<char>, i: nat, c: char)
    requires i < |Z|
    ensures Occurrences(Z[..i + 1], c) == Occurrences(Z[..i], c) + (if c == Z[i] then 1 else 0)
  {
    assert Z[..i + 1] == Z[..i] + [Z[i]];
    OccurrencesSnoc(Z[..i], Z[i], c);
  }

  function Merge2(A: seq<int>, B: seq<int>, n: int, Z: seq<char>): (r: seq<int>)
    requires |A| > 0 && |B| > 0
    ensures |r| == |Z|
  {
    seq(|Z|, i requires 0 <= i < |Z| => Emit2(A, B, n, Z, i))
  }

  function Merge3(A: seq<int>, B: seq<int>, C: seq<int>, n: int, m: int, Z: seq<char>): (r: seq<int>)
    requires |A| > 0 && |B| > 0 && |C| > 0
    ensures |r| == |Z|
  {
    seq(|Z|, i requires 0 <= i < |Z| => Emit3(A, B, C, n, m, Z, i))
  }

  /** Bit positions of A stay in [0,n) and those of B move to [n,n+m), so the
      combined code uses exactly the positions [0,n+m). */
  lemma Merge2Range(A: seq<int>, B: seq<int>, n: int, m: int, Z: seq<char>)
    requires |A| > 0 && |B| > 0
    requires InRange(A, 0, n) && InRange(B, 0, m)
    ensures InRange(Merge2(A, B, n, Z), 0, n + m)
  {
    assert 0 <= A[0] < n && 0 <= B[0] < m;
    forall i | 0 <= i < |Z|
      ensures 0 <= Emit2(A, B, n, Z, i) < n + m
    {
      if Z[i] == 'a' {
        assert A[Occurrences(Z[..i], 'a') % |A|] < n;
      } else if Z[i] == 'b' {
        assert B[Occurrences(Z[..i], 'b') % |B|] < m;
      }
    }
  }

  /** Theorem 2 additionally moves C to [n+m,n+m+r). */
  lemma Merge3Range(A: seq<int>, B: seq<int>, C: seq<int>, n: int, m: int, r: int, Z: seq<char>)
    requires |A| > 0 && |B| > 0 && |C| > 0
    requires InRange(A, 0, n) && InRange(B, 0, m) && InRange(C, 0, r)
    ensures InRange(Merge3(A, B, C, n, m, Z), 0, n + m + r)
  {
    assert 0 <= A[0] < n && 0 <= B[0] < m && 0 <= C[0] < r;
    forall i | 0 <= i < |Z|
      ensures 0 <= Emit3(A, B, C, n, m, Z, i) < n + m + r
    {
      if Z[i] == 'a' {
        assert A[Occurrences(Z[..i], 'a') % |A|] < n;
      } else if Z[i] == 'b' {
        assert B[Occurrences(Z[..i], 'b') % |B|] < m;
      } else if Z[i] == 'c' {
        assert C[Occurrences(Z[..i], 'c') % |C|] < r;
      }
    }
  }
}
