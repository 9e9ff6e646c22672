/** The code table of LargeGapGrayCode: for every bit width 1..20 the
    transition sequence of a cyclic Gray code (the bit flipped at each step)
    and a label saying how it was obtained. The constructor seeds a few small
    codes and builds the rest with the two combination theorems of Goddyn and
    Gvozdjak; the other members read codes out of the table and measure their
    gaps. */
module GrayCodeTable {
  import opened Arith
  import opened Sequences
  import opened BalancedWords
  import opened Interleave
  import opened Codewords
  import opened GapStats

  /** maxBitWidth: the capacity of the table. */
  const MaxBitWidth: nat := 20

  /** The guard of createCodeFromTheorem1: n >= m >= 1, s and t odd and
      positive, s+t = 2^m, and the combined width n+m fits the table. */
  predicate Theorem1Guard(n: int, m: int, s: int, t: int)
  {
    n >= m && m >= 1 && IsOddPositive(s) && IsOddPositive(t) && s + t == Pow2(m) && n + m <= MaxBitWidth
  }

  /** The guard of createCodeFromTheorem2: n >= m >= r >= 1, s and t odd and
      positive, s+t = 2^r, and the combined width n+m+r fits the table. */
  predicate Theorem2Guard(n: int, m: int, r: int, s: int, t: int)
  {
    n >= m && m >= r && r >= 1 && IsOddPositive(s) && IsOddPositive(t) && s + t == Pow2(r) && n + m + r <= MaxBitWidth
  }

  /** A Theorem 1 guard admits only existing slots and a pattern word of at
      most 2^10 = 1024 letters per copy, since m <= n and n + m <= 20. */
  lemma Theorem1GuardBounds(n: int, m: int, s: int, t: int)
    requires Theorem1Guard(n, m, s, t)
    ensures 1 <= m <= n && n + m - 1 < MaxBitWidth
    ensures 1 <= s && 1 <= t && s + t <= 1024
  {
    Pow2Mono(m, 10);
  }

  /** A Theorem 2 guard admits only existing slots and a pattern word of at
      most 2^6 = 64 letters per copy, since r <= m <= n and n + m + r <= 20. */
  lemma Theorem2GuardBounds(n: int, m: int, r: int, s: int, t: int)
    requires Theorem2Guard(n, m, r, s, t)
    ensures 1 <= r <= m <= n && n + m + r - 1 < MaxBitWidth
    ensures 1 <= s && 1 <= t && s + t <= 64
  {
    Pow2Mono(r, 6);
  }

  /** Every character of r is a decimal digit. */
  predicate AllDigits(r: string)
  {
    forall i :: 0 <= i < |r| ==> '0' <= r[i] <= '9'
  }

  /** The decimal digits of k, as a std::stringstream writes an int. */
  function Decimal(k: nat): (r: string)
    ensures |r| >= 1 && AllDigits(r)
  {
    if k < 10 then ["0123456789"[k]] else Decimal(k / 10) + ["0123456789"[k % 10]]
  }

  /** The number a string of decimal digits denotes. */
  function DigitsValue(r: string): int
    requires AllDigits(r)
  {
    if r == [] then 0 else 10 * DigitsValue(r[..|r| - 1]) + (r[|r| - 1] as int - '0' as int)
  }

  /** Decimal writes k exactly: its digits read back as k, with no leading zero. */
  lemma {:induction false} DecimalValue(k: nat)
    ensures DigitsValue(Decimal(k)) == k
    ensures Decimal(k)[0] == '0' <==> k == 0
  {
    if k < 10 {
      DigitChar(k);
    } else {
      var q, d := k / 10, k % 10;
      DecimalValue(q);
      DigitChar(d);
      var r := Decimal(k);
      assert r == Decimal(q) + ["0123456789"[d]];
      assert r[..|r| - 1] == Decimal(q);
      assert DigitsValue(r) == 10 * q + d;
    }
  }

  /** The character "0123456789"[d] is the digit d. */
  lemma DigitChar(d: nat)
    requires d < 10
    ensures "0123456789"[d] as int - '0' as int == d
    ensures "0123456789"[d] == '0' <==> d == 0
  {
  }

  /** An entry of m_creationMethod: how the code in a slot was obtained.
      Unset is the empty string a slot holds before anything is stored. */
  datatype Provenance = Unset | ByHand | Backtrack | FromTheorem1(n: nat, m: nat) | FromTheorem2(n: nat, m: nat, r: nat)

  /** The text the table stores for a provenance: "(n + m)" for Theorem 1,
      "(n + m + r)" for Theorem 2. */
  function Text(p: Provenance): string
  {
    match p
    case Unset => ""
    case ByHand => "by hand"
    case Backtrack => "backtrack"
    case FromTheorem1(n, m) => "(" + Decimal(n) + " + " + Decimal(m) + ")"
    case FromTheorem2(n, m, r) => "(" + Decimal(n) + " + " + Decimal(m) + " + " + Decimal(r) + ")"
  }

  /** x is the decimal form of k: digits only, reading back as k, with no
      leading zero. */
  ghost predicate Writes(x: string, k: nat)
  {
    && |x| >= 1
    && AllDigits(x)
    && DigitsValue(x) == k
    && (x[0] == '0' <==> k == 0)
  }

  /** Decimal(k) is the decimal form of k. */
  lemma DecimalWrites(k: nat)
    ensures Writes(Decimal(k), k)
  {
    DecimalValue(k);
  }

  /** The Theorem 1 label reads back: between "(" and ")" it holds the
      decimal form of n, " + " and the decimal form of m. */
  lemma Theorem1Label(n: nat, m: nat, r: string)
    requires r == Text(FromTheorem1(n, m))
    ensures |r| == |Decimal(n)| + |Decimal(m)| + 5
    ensures r[0] == '(' && r[|r| - 1] == ')' && r[|Decimal(n)| + 1..|Decimal(n)| + 4] == " + "
    ensures Writes(r[1..|Decimal(n)| + 1], n) && Writes(r[|Decimal(n)| + 4..|r| - 1], m)
  {
    TwoFields(Decimal(n), Decimal(m), r);
    DecimalWrites(n);
    DecimalWrites(m);
  }

  /** The Theorem 2 label reads back: between "(" and ")" it holds the
      decimal forms of n, m and r, separated by " + ". */
  lemma Theorem2Label(n: nat, m: nat, k: nat, r: string)
    requires r == Text(FromTheorem2(n, m, k))
    ensures |r| == |Decimal(n)| + |Decimal(m)| + |Decimal(k)| + 8
    ensures r[0] == '(' && r[|r| - 1] == ')'
    ensures r[|Decimal(n)| + 1..|Decimal(n)| + 4] == " + "
    ensures r[|Decimal(n)| + |Decimal(m)| + 4..|Decimal(n)| + |Decimal(m)| + 7] == " + "
    ensures Writes(r[1..|Decimal(n)| + 1], n)
    ensures Writes(r[|Decimal(n)| + 4..|Decimal(n)| + |Decimal(m)| + 4], m)
    ensures Writes(r[|Decimal(n)| + |Decimal(m)| + 7..|r| - 1], k)
  {
    ThreeFields(Decimal(n), Decimal(m), Decimal(k), r);
    DecimalWrites(n);
    DecimalWrites(m);
    DecimalWrites(k);
  }

  /** Where the two fields and the separator of "(a + b)" lie. */
  lemma TwoFields(a: string, b: string, r: string)
    requires r == "(" + a + " + " + b + ")"
    ensures |r| == |a| + |b| + 5 && r[0] == '(' && r[|r| - 1] == ')'
    ensures r[|a| + 1..|a| + 4] == " + " && r[1..|a| + 1] == a && r[|a| + 4..|r| - 1] == b
  {
    Field("(", a, " + " + b + ")");
    Field("(" + a, " + ", b + ")");
    Field("(" + a + " + ", b, ")");
  }

  /** Where the three fields and the two separators of "(a + b + c)" lie. */
  lemma ThreeFields(a: string, b: string, c: string, r: string)
    requires r == "(" + a + " + " + b + " + " + c + ")"
    ensures |r| == |a| + |b| + |c| + 8 && r[0] == '(' && r[|r| - 1] == ')'
    ensures r[|a| + 1..|a| + 4] == " + " && r[|a| + |b| + 4..|a| + |b| + 7] == " + "
    ensures r[1..|a| + 1] == a && r[|a| + 4..|a| + |b| + 4] == b && r[|a| + |b| + 7..|r| - 1] == c
  {
    var u, v := "(" + a + " + ", " + " + c + ")";
    assert r == u + b + v;
    Field("(", a, " + " + b + v);
    Field(u, b, v);
    Field(u + b + " + ", c, ")");
    Field(u + b, " + ", c + ")");
    assert r == u + b + " + " + c + ")";
  }

  /** The middle part of a concatenation is the slice between its ends. */
  lemma Field(pre: string, x: string, post: string)
    ensures (pre + x + post)[|pre|..|pre| + |x|] == x
  {
  }

  /** The Theorem 1 and Theorem 2 texts, as the combinators store them. */
  lemma TheoremTexts(n: nat, m: nat, r: nat)
    ensures Text(FromTheorem1(n, m)) == "(" + Decimal(n) + " + " + Decimal(m) + ")"
    ensures Text(FromTheorem2(n, m, r)) == "(" + Decimal(n) + " + " + Decimal(m) + " + " + Decimal(r) + ")"
  {
  }

  /** A table slot for width w is still empty, or holds 2^w transitions that
      all name one of the w bits. */
  ghost predicate WellFormedSlot(ts: seq<int>, w: nat)
  {
    ts == [] || (|ts| == Pow2(w) && InRange(ts, 0, w))
  }

  /** Every slot of a table of capacity 20 is well formed for its width. */
  ghost predicate WellFormedTable(table: seq<seq<int>>)
  {
    |table| == MaxBitWidth && forall k :: 0 <= k < MaxBitWidth ==> WellFormedSlot(table[k], k + 1)
  }

  /** Storing a well-formed code in its slot keeps the table well formed. */
  lemma StoreSlot(table: seq<seq<int>>, k: nat, ts: seq<int>)
    requires WellFormedTable(table) && k < MaxBitWidth && WellFormedSlot(ts, k + 1)
    ensures WellFormedTable(table[k := ts])
  {
  }

  /** The slot that createCodeFromTheorem1 stores is well formed for width
      n+m: its pattern word has 2^m·2^n letters, and every merged transition
      is below n+m. */
  lemma Theorem1Slot(A: seq<int>, B: seq<int>, n: nat, m: nat, len: nat, Z: seq<char>)
    requires A != [] && B != [] && WellFormedSlot(A, n) && WellFormedSlot(B, m)
    requires len == Pow2(m) && |Z| == len * Pow2(n)
    ensures WellFormedSlot(Merge2(A, B, n, Z), n + m)
  {
    Pow2Add(m, n);
    Merge2Range(A, B, n, m, Z);
  }

  /** The slot that createCodeFromTheorem2 stores is well formed for width
      n+m+r: its pattern word has 2^r·2^n·2^m letters. */
  lemma Theorem2Slot(A: seq<int>, B: seq<int>, C: seq<int>, n: nat, m: nat, r: nat, len: nat, Z: seq<char>)
    requires A != [] && B != [] && C != []
    requires WellFormedSlot(A, n) && WellFormedSlot(B, m) && WellFormedSlot(C, r)
    requires len == Pow2(r) && |Z| == len * Pow2(n) * Pow2(m)
    ensures WellFormedSlot(Merge3(A, B, C, n, m, Z), n + m + r)
  {
    Pow2Add3(r, n, m);
    Merge3Range(A, B, C, n, m, r, Z);
  }

  /** x is the Theorem 1 interleaving of A and B: position i of x is the next
      transition of A where 2^n copies of P(s,t) hold an 'a', and the next
      transition of B, shifted by n, where they hold a 'b'. */
  ghost predicate Theorem1Merged(x: seq<int>, A: seq<int>, B: seq<int>, n: nat, s: nat, t: nat)
  {
    A != [] && B != [] && |x| == (s + t) * Pow2(n)
    && forall i :: 0 <= i < |x| ==> x[i] == Emit2(A, B, n, Theorem1Word(s, t, n), i)
  }

  /** The Theorem 2 interleaving of A, B and C along 2^m copies of Q, where Q
      is 2^n copies of P(s,t) with its last 'b' relabelled 'c'. */
  ghost predicate Theorem2Merged(x: seq<int>, A: seq<int>, B: seq<int>, C: seq<int>, n: nat, m: nat, s: nat, t: nat)
  {
    A != [] && B != [] && C != [] && |x| == (s + t) * Pow2(n) * Pow2(m)
    && forall i :: 0 <= i < |x| ==> x[i] == Emit3(A, B, C, n, m, Theorem2Word(s, t, n, m), i)
  }

  /** Theorem1Merged is exactly Merge2 along the Theorem 1 word. */
  lemma Theorem1MergedIsMerge2(x: seq<int>, A: seq<int>, B: seq<int>, n: nat, s: nat, t: nat)
    requires A != [] && B != []
    ensures Theorem1Merged(x, A, B, n, s, t) <==> x == Merge2(A, B, n, Theorem1Word(s, t, n))
  {
  }

  /** Theorem2Merged is exactly Merge3 along the Theorem 2 word. */
  lemma Theorem2MergedIsMerge3(x: seq<int>, A: seq<int>, B: seq<int>, C: seq<int>, n: nat, m: nat, s: nat, t: nat)
    requires A != [] && B != [] && C != []
    ensures Theorem2Merged(x, A, B, C, n, m, s, t) <==> x == Merge3(A, B, C, n, m, Theorem2Word(s, t, n, m))
  {
  }


  /** For a client of the table: the code createCodeFromTheorem1 stores
      names only bits below n+m when code(n) and code(m) stay in their widths. */
  lemma StoredTheorem1Range(x: seq<int>, A: seq<int>, B: seq<int>, n: nat, m: nat, s: nat, t: nat)
    requires Theorem1Merged(x, A, B, n, s, t) && InRange(A, 0, n) && InRange(B, 0, m)
    ensures InRange(x, 0, n + m)
  {
    Theorem1MergedIsMerge2(x, A, B, n, s, t);
    Merge2Range(A, B, n, m, Theorem1Word(s, t, n));
  }

  /** For a client of the table: the code createCodeFromTheorem2 stores names
      only bits below n+m+r when code(n), code(m) and code(r) stay in their widths. */
  lemma StoredTheorem2Range(x: seq<int>, A: seq<int>, B: seq<int>, C: seq<int>, n: nat, m: nat, r: nat, s: nat, t: nat)
    requires Theorem2Merged(x, A, B, C, n, m, s, t)
    requires InRange(A, 0, n) && InRange(B, 0, m) && InRange(C, 0, r)
    ensures InRange(x, 0, n + m + r)
  {
    Theorem2MergedIsMerge3(x, A, B, C, n, m, s, t);
    Merge3Range(A, B, C, n, m, r, Theorem2Word(s, t, n, m));
  }

  /** The pattern word createCodeFromTheorem2 builds: 2^n copies of P(s,t),
      their last 'b' relabelled 'c' in place, and 2^m copies of the result. */
  method Theorem2Pattern(s: int, t: int, n: nat, m: nat) returns (Z: seq<char>)
    requires s >= 1 && t >= 1
    ensures Z == Theorem2Word(s, t, n, m)
    ensures |Z| == (s + t) * Pow2(n) * Pow2(m)
  {
    var P := CreatePVector(s, t);
    var Q := MultiCopyVector(P, Pow2(n));
    var q := new char[|Q|](i requires 0 <= i < |Q| => Q[i]);
    assert q[..] == Q;
    ReplaceLastBWithC(q);
    Z := MultiCopyVector(q[..], Pow2(m));
    Theorem2WordCounts(s, t, n, m);
  }

  class LargeGapGrayCode {
    /** m_transitionSequences: slot w-1 holds the code of width w. */
    const transitionSequences: array<seq<int>>
    /** m_creationMethod: slot w-1 says how the code of width w was made. */
    const creationMethod: array<Provenance>

    ghost predicate Valid()
      reads this, transitionSequences, creationMethod
    {
      && transitionSequences.Length == MaxBitWidth
      && creationMethod.Length == MaxBitWidth
      && WellFormedTable(transitionSequences[..])
    }

    /** Slot k is filled with a code of width k+1. */
    ghost predicate Built(k: int)
      reads this, transitionSequences, creationMethod
      requires Valid() && 0 <= k < MaxBitWidth
    {
      |transitionSequences[k]| == Pow2(k + 1)
    }

    /** Seeds widths 1-4 and 6, then builds the other fifteen widths, each
        from codes already in the table. */
    constructor ()
      ensures Valid()
      ensures fresh(transitionSequences) && fresh(creationMethod)
      ensures forall k :: 0 <= k < MaxBitWidth ==> |transitionSequences[k]| == Pow2(k + 1)
      ensures transitionSequences[0] == [0, 0]
      ensures transitionSequences[1] == [0, 1, 0, 1]
      ensures transitionSequences[2] == [0, 1, 0, 2, 0, 1, 0, 2]
      ensures transitionSequences[3] == [0, 1, 2, 3, 2, 1, 0, 2, 0, 3, 0, 1, 3, 2, 3, 1]
      ensures transitionSequences[5] == Width6Seed()
      ensures creationMethod[0] == ByHand && creationMethod[1] == ByHand
      ensures creationMethod[2] == ByHand && creationMethod[3] == ByHand
      ensures creationMethod[5] == Backtrack
      ensures creationMethod[4] == FromTheorem2(2, 2, 1)
      ensures creationMethod[6] == FromTheorem1(5, 2) && creationMethod[7] == FromTheorem1(6, 2)
      ensures creationMethod[8] == FromTheorem1(7, 2) && creationMethod[9] == FromTheorem1(5, 5)
      ensures creationMethod[10] == FromTheorem1(9, 2) && creationMethod[11] == FromTheorem1(7, 5)
      ensures creationMethod[12] == FromTheorem1(8, 5) && creationMethod[13] == FromTheorem1(7, 7)
      ensures creationMethod[14] == FromTheorem1(10, 5) && creationMethod[15] == FromTheorem1(11, 5)
      ensures creationMethod[16] == FromTheorem1(10, 7) && creationMethod[17] == FromTheorem1(11, 7)
      ensures creationMethod[18] == FromTheorem1(14, 5) && creationMethod[19] == FromTheorem1(10, 10)
    {
      transitionSequences := new seq<int>[MaxBitWidth](_ => []);
      creationMethod := new Provenance[MaxBitWidth](_ => Unset);
      new;
      Seed(0, [0, 0], ByHand);
      Seed(1, [0, 1, 0, 1], ByHand);
      Seed(2, [0, 1, 0, 2, 0, 1, 0, 2], ByHand);
      Seed(3, [0, 1, 2, 3, 2, 1, 0, 2, 0, 3, 0, 1, 3, 2, 3, 1], ByHand);
      Width6SeedWellFormed();
      Seed(5, Width6Seed(), Backtrack);
      BuildFromSeeds();
      BuildMiddleWidths();
      BuildLargeWidths();
      EveryWidthBuilt();
    }

    /** Twenty filled slots, one fact per width, make the table complete. */
    lemma EveryWidthBuilt()
      requires Valid()
      requires Built(0) && Built(1) && Built(2) && Built(3) && Built(4)
      requires Built(5) && Built(6) && Built(7) && Built(8) && Built(9)
      requires Built(10) && Built(11) && Built(12) && Built(13) && Built(14)
      requires Built(15) && Built(16) && Built(17) && Built(18) && Built(19)
      ensures forall k :: 0 <= k < MaxBitWidth ==> |transitionSequences[k]| == Pow2(k + 1)
    {
      forall k | 0 <= k < MaxBitWidth
        ensures |transitionSequences[k]| == Pow2(k + 1)
      {
        assert k == 0 || k == 1 || k == 2 || k == 3 || k == 4 || k == 5 || k == 6 || k == 7 || k == 8 || k == 9
          || k == 10 || k == 11 || k == 12 || k == 13 || k == 14 || k == 15 || k == 16 || k == 17 || k == 18 || k == 19;
      }
    }

    /** Stores a hand-made or searched code of width k+1 in slot k. */
    method Seed(k: int, code: seq<int>, how: Provenance)
      requires Valid() && 0 <= k < MaxBitWidth && |code| == Pow2(k + 1) && InRange(code, 0, k + 1)
      modifies transitionSequences, creationMethod
      ensures Valid()
      ensures transitionSequences[..] == old(transitionSequences[..])[k := code]
      ensures creationMethod[k] == how
      ensures forall j :: 0 <= j < MaxBitWidth && j != k ==> creationMethod[j] == old(creationMethod[j])
    {
      StoreSlot(transitionSequences[..], k, code);
      ghost var table := transitionSequences[..][k := code];
      transitionSequences[k] := code;
      assert transitionSequences[..] == table;
      creationMethod[k] := how;
    }

    /** Widths 5, 7, 8 and 9, from the seeds: (2 + 2 + 1), (5 + 2), (6 + 2), (7 + 2). */
    method BuildFromSeeds()
      requires Valid()
      requires Built(0) && Built(1) && Built(2) && Built(3) && Built(5)
      modifies transitionSequences, creationMethod
      ensures Valid()
      ensures Built(0) && Built(1) && Built(2) && Built(3) && Built(4)
      ensures Built(5) && Built(6) && Built(7) && Built(8)
      ensures transitionSequences[0] == old(transitionSequences[0]) && transitionSequences[1] == old(transitionSequences[1])
      ensures transitionSequences[2] == old(transitionSequences[2]) && transitionSequences[3] == old(transitionSequences[3])
      ensures transitionSequences[5] == old(transitionSequences[5])
      ensures creationMethod[0] == old(creationMethod[0]) && creationMethod[1] == old(creationMethod[1]) && creationMethod[2] == old(creationMethod[2])
      ensures creationMethod[3] == old(creationMethod[3]) && creationMethod[5] == old(creationMethod[5])
      ensures creationMethod[4] == FromTheorem2(2, 2, 1) && creationMethod[6] == FromTheorem1(5, 2)
      ensures creationMethod[7] == FromTheorem1(6, 2) && creationMethod[8] == FromTheorem1(7, 2)
    {
      var ok := CreateCodeFromTheorem2(2, 2, 1, 1, 1);
      assert ok;
      ok := CreateCodeFromTheorem1(5, 2, 3, 1);
      assert ok;
      ok := CreateCodeFromTheorem1(6, 2, 3, 1);
      assert ok;
      ok := CreateCodeFromTheorem1(7, 2, 3, 1);
      assert ok;
    }

    /** Widths 10 to 14: (5 + 5), (9 + 2), (7 + 5), (8 + 5), (7 + 7). */
    method BuildMiddleWidths()
      requires Valid()
      requires Built(0) && Built(1) && Built(2) && Built(3) && Built(4)
      requires Built(5) && Built(6) && Built(7) && Built(8)
      modifies transitionSequences, creationMethod
      ensures Valid()
      ensures Built(0) && Built(1) && Built(2) && Built(3) && Built(4)
      ensures Built(5) && Built(6) && Built(7) && Built(8) && Built(9)
      ensures Built(10) && Built(11) && Built(12) && Built(13)
      ensures transitionSequences[0] == old(transitionSequences[0]) && transitionSequences[1] == old(transitionSequences[1])
      ensures transitionSequences[2] == old(transitionSequences[2]) && transitionSequences[3] == old(transitionSequences[3])
      ensures transitionSequences[5] == old(transitionSequences[5])
      ensures creationMethod[0] == old(creationMethod[0]) && creationMethod[1] == old(creationMethod[1]) && creationMethod[2] == old(creationMethod[2])
      ensures creationMethod[3] == old(creationMethod[3]) && creationMethod[4] == old(creationMethod[4]) && creationMethod[5] == old(creationMethod[5])
      ensures creationMethod[6] == old(creationMethod[6]) && creationMethod[7] == old(creationMethod[7]) && creationMethod[8] == old(creationMethod[8])
      ensures creationMethod[9] == FromTheorem1(5, 5) && creationMethod[10] == FromTheorem1(9, 2)
      ensures creationMethod[11] == FromTheorem1(7, 5) && creationMethod[12] == FromTheorem1(8, 5)
      ensures creationMethod[13] == FromTheorem1(7, 7)
    {
      var ok := CreateCodeFromTheorem1(5, 5, 17, 15);
      assert ok;
      ok := CreateCodeFromTheorem1(9, 2, 3, 1);
      assert ok;
      ok := CreateCodeFromTheorem1(7, 5, 17, 15);
      assert ok;
      ok := CreateCodeFromTheorem1(8, 5, 19, 13);
      assert ok;
      ok := CreateCodeFromTheorem1(7, 7, 65, 63);
      assert ok;
    }

    /** Widths 15 to 20: (10 + 5), (11 + 5), (10 + 7), (11 + 7), (14 + 5), (10 + 10). */
    method BuildLargeWidths()
      requires Valid()
      requires Built(0) && Built(1) && Built(2) && Built(3) && Built(4)
      requires Built(5) && Built(6) && Built(7) && Built(8) && Built(9)
      requires Built(10) && Built(11) && Built(12) && Built(13)
      modifies transitionSequences, creationMethod
      ensures Valid()
      ensures Built(0) && Built(1) && Built(2) && Built(3) && Built(4)
      ensures Built(5) && Built(6) && Built(7) && Built(8) && Built(9)
      ensures Built(10) && Built(11) && Built(12) && Built(13) && Built(14)
      ensures Built(15) && Built(16) && Built(17) && Built(18) && Built(19)
      ensures transitionSequences[0] == old(transitionSequences[0]) && transitionSequences[1] == old(transitionSequences[1])
      ensures transitionSequences[2] == old(transitionSequences[2]) && transitionSequences[3] == old(transitionSequences[3])
      ensures transitionSequences[5] == old(transitionSequences[5])
      ensures creationMethod[0] == old(creationMethod[0]) && creationMethod[1] == old(creationMethod[1]) && creationMethod[2] == old(creationMethod[2])
      ensures creationMethod[3] == old(creationMethod[3]) && creationMethod[4] == old(creationMethod[4]) && creationMethod[5] == old(creationMethod[5])
      ensures creationMethod[6] == old(creationMethod[6]) && creationMethod[7] == old(creationMethod[7]) && creationMethod[8] == old(creationMethod[8])
      ensures creationMethod[9] == old(creationMethod[9]) && creationMethod[10] == old(creationMethod[10]) && creationMethod[11] == old(creationMethod[11])
      ensures creationMethod[12] == old(creationMethod[12]) && creationMethod[13] == old(creationMethod[13])
      ensures creationMethod[14] == FromTheorem1(10, 5) && creationMethod[15] == FromTheorem1(11, 5)
      ensures creationMethod[16] == FromTheorem1(10, 7) && creationMethod[17] == FromTheorem1(11, 7)
      ensures creationMethod[18] == FromTheorem1(14, 5) && creationMethod[19] == FromTheorem1(10, 10)
    {
      var ok := CreateCodeFromTheorem1(10, 5, 21, 11);
      assert ok;
      ok := CreateCodeFromTheorem1(11, 5, 21, 11);
      assert ok;
      ok := CreateCodeFromTheorem1(10, 7, 73, 55);
      assert ok;
      ok := CreateCodeFromTheorem1(11, 7, 75, 53);
      assert ok;
      ok := CreateCodeFromTheorem1(14, 5, 23, 9);
      assert ok;
      ok := CreateCodeFromTheorem1(10, 10, 513, 511);
      assert ok;
    }

    /** getTransitionSequence: the stored code for widths up to 20, and the
        empty sequence above. */
    method GetTransitionSequence(bitWidth: int) returns (ts: seq<int>)
      requires Valid() && bitWidth >= 1
      ensures bitWidth <= MaxBitWidth ==> ts == transitionSequences[bitWidth - 1]
      ensures bitWidth > MaxBitWidth ==> ts == []
      ensures InRange(ts, 0, bitWidth) && (ts == [] || |ts| == Pow2(bitWidth))
    {
      if bitWidth <= MaxBitWidth {
        ts := transitionSequences[bitWidth - 1];
      } else {
        ts := [];
      }
    }

    /** getBinaryCode: the 2^w codewords of the stored code, the first all
        zero and each next one the previous with bit ts[i] flipped. */
    method GetBinaryCode(bitWidth: int) returns (code: seq<seq<bool>>)
      requires Valid() && 1 <= bitWidth <= MaxBitWidth
      requires transitionSequences[bitWidth - 1] != []
      ensures var ts := transitionSequences[bitWidth - 1];
        && |code| == Pow2(bitWidth)
        && FlipsInRange(ts, |ts|)
        && (forall i :: 0 <= i < |code| ==> code[i] == CodewordAt(ts, i))
        && (forall i :: 0 <= i < |code| ==> |code[i]| == Width)
        && (forall j :: 0 <= j < Width ==> !code[0][j])
        && (forall i :: 0 <= i < |code| - 1 ==> DiffersOnlyAt(code[i], code[i + 1], ts[i]))
    {
      var ts := GetTransitionSequence(bitWidth);
      var bs := AllZero();
      code := [];
      var i := 0;
      while i < Pow2(bitWidth)
        invariant 0 <= i <= Pow2(bitWidth)
        invariant code == CodewordList(ts, i) && bs == CodewordAt(ts, i)
      {
        code := code + [bs];
        bs := Flip(bs, ts[i]);
        i := i + 1;
      }
      CodewordListAt(ts, |ts|);
      CodewordSteps(ts, |ts|);
    }

    /** createTransitionSequenceTheorem1: walks Z, taking the next transition
        of A = code(n) for each 'a' and of B = code(m), shifted by n, for each 'b'. */
    method CreateTransitionSequenceTheorem1(n: int, m: int, Z: seq<char>) returns (tmp: seq<int>)
      requires Valid() && 1 <= n <= MaxBitWidth && 1 <= m <= MaxBitWidth
      requires transitionSequences[n - 1] != [] && transitionSequences[m - 1] != []
      ensures tmp == Merge2(transitionSequences[n - 1], transitionSequences[m - 1], n, Z)
    {
      var out := new int[|Z|](_ => 0);
      var A := transitionSequences[n - 1];
      var B := transitionSequences[m - 1];
      var idxA, idxB := 0, 0;
      for i := 0 to |Z|
        invariant idxA == Occurrences(Z[..i], 'a') && idxB == Occurrences(Z[..i], 'b')
        invariant forall j :: 0 <= j < i ==> out[j] == Emit2(A, B, n, Z, j)
        invariant forall j :: i <= j < |Z| ==> out[j] == 0
      {
        if Z[i] == 'a' {
          out[i] := A[idxA % |A|];
          idxA := idxA + 1;
        } else if Z[i] == 'b' {
          out[i] := B[idxB % |B|] + n;
          idxB := idxB + 1;
        }
        CursorStep(Z, i, 'a');
        CursorStep(Z, i, 'b');
      }
      tmp := out[..];
    }

    /** createTransitionSequenceTheorem2: as Theorem 1, and each 'c' takes the
        next transition of C = code(r), shifted by n+m. */
    method CreateTransitionSequenceTheorem2(n: int, m: int, r: int, Z: seq<char>) returns (tmp: seq<int>)
      requires Valid() && 1 <= n <= MaxBitWidth && 1 <= m <= MaxBitWidth && 1 <= r <= MaxBitWidth
      requires transitionSequences[n - 1] != [] && transitionSequences[m - 1] != []
      requires transitionSequences[r - 1] != []
      ensures tmp == Merge3(transitionSequences[n - 1], transitionSequences[m - 1], transitionSequences[r - 1], n, m, Z)
    {
      var out := new int[|Z|](_ => 0);
      var A := transitionSequences[n - 1];
      var B := transitionSequences[m - 1];
      var C := transitionSequences[r - 1];
      var idxA, idxB, idxC := 0, 0, 0;
      for i := 0 to |Z|
        invariant idxA == Occurrences(Z[..i], 'a') && idxB == Occurrences(Z[..i], 'b')
        invariant idxC == Occurrences(Z[..i], 'c')
        invariant forall j :: 0 <= j < i ==> out[j] == Emit3(A, B, C, n, m, Z, j)
        invariant forall j :: i <= j < |Z| ==> out[j] == 0
      {
        if Z[i] == 'a' {
          out[i] := A[idxA % |A|];
          idxA := idxA + 1;
        } else if Z[i] == 'b' {
          out[i] := B[idxB % |B|] + n;
          idxB := idxB + 1;
        } else if Z[i] == 'c' {
          out[i] := C[idxC % |C|] + n + m;
          idxC := idxC + 1;
        }
        CursorStep(Z, i, 'a');
        CursorStep(Z, i, 'b');
        CursorStep(Z, i, 'c');
      }
      tmp := out[..];
    }

    /** createCodeFromTheorem1: when the guard holds, stores in slot n+m-1 the
        interleaving of code(n) and code(m) along 2^n copies of P(s,t), with
        label "(n + m)"; otherwise reports failure and changes nothing. */
    method CreateCodeFromTheorem1(n: int, m: int, s: int, t: int) returns (ok: bool)
      requires Valid()
      requires Theorem1Guard(n, m, s, t) ==> transitionSequences[n - 1] != [] && transitionSequences[m - 1] != []
      modifies transitionSequences, creationMethod
      ensures Valid()
      ensures ok == Theorem1Guard(n, m, s, t)
      ensures !ok ==> transitionSequences[..] == old(transitionSequences[..])
      ensures ok ==> transitionSequences[..] == old(transitionSequences[..])[n + m - 1 := transitionSequences[n + m - 1]]
      ensures ok ==> Theorem1Merged(transitionSequences[n + m - 1], old(transitionSequences[n - 1]), old(transitionSequences[m - 1]), n, s, t)
      ensures ok ==> |transitionSequences[n + m - 1]| == Pow2(n + m)
      ensures forall k :: 0 <= k < MaxBitWidth && (!ok || k != n + m - 1) ==>
        |transitionSequences[k]| == |old(transitionSequences[k])| && creationMethod[k] == old(creationMethod[k])
      ensures ok ==> creationMethod[n + m - 1] == FromTheorem1(n, m)
      ensures ok ==> Text(creationMethod[n + m - 1]) == "(" + Decimal(n) + " + " + Decimal(m) + ")"
    {
      if Theorem1Guard(n, m, s, t) {
        var P := CreatePVector(s, t);
        var Z := MultiCopyVector(P, Pow2(n));
        var ts := CreateTransitionSequenceTheorem1(n, m, Z);
        assert WellFormedSlot(transitionSequences[..][n - 1], n) && WellFormedSlot(transitionSequences[..][m - 1], m);
        Theorem1Slot(transitionSequences[n - 1], transitionSequences[m - 1], n, m, s + t, Z);
        creationMethod[n + m - 1] := FromTheorem1(n, m);
        ghost var table := transitionSequences[..][n + m - 1 := ts];
        StoreSlot(transitionSequences[..], n + m - 1, ts);
        transitionSequences[n + m - 1] := ts;
        assert transitionSequences[..] == table;
        TheoremTexts(n, m, 0);
        assert Text(creationMethod[n + m - 1]) == "(" + Decimal(n) + " + " + Decimal(m) + ")";
        ok := true;
      } else {
        ok := false;
      }
    }

    /** createCodeFromTheorem2: when the guard holds, stores in slot n+m+r-1
        the interleaving of code(n), code(m) and code(r) along 2^m copies of Q,
        where Q is 2^n copies of P(s,t) with its last 'b' relabelled 'c', with
        label "(n + m + r)"; otherwise reports failure and changes nothing. */
    method CreateCodeFromTheorem2(n: int, m: int, r: int, s: int, t: int) returns (ok: bool)
      requires Valid()
      requires Theorem2Guard(n, m, r, s, t) ==>
        transitionSequences[n - 1] != [] && transitionSequences[m - 1] != [] && transitionSequences[r - 1] != []
      modifies transitionSequences, creationMethod
      ensures Valid()
      ensures ok == Theorem2Guard(n, m, r, s, t)
      ensures !ok ==> transitionSequences[..] == old(transitionSequences[..])
      ensures ok ==> transitionSequences[..] == old(transitionSequences[..])[n + m + r - 1 := transitionSequences[n + m + r - 1]]
      ensures ok ==> Theorem2Merged(transitionSequences[n + m + r - 1],
        old(transitionSequences[n - 1]), old(transitionSequences[m - 1]), old(transitionSequences[r - 1]), n, m, s, t)
      ensures ok ==> |transitionSequences[n + m + r - 1]| == Pow2(n + m + r)
      ensures forall k :: 0 <= k < MaxBitWidth && (!ok || k != n + m + r - 1) ==>
        |transitionSequences[k]| == |old(transitionSequences[k])| && creationMethod[k] == old(creationMethod[k])
      ensures ok ==> creationMethod[n + m + r - 1] == FromTheorem2(n, m, r)
      ensures ok ==> Text(creationMethod[n + m + r - 1]) == "(" + Decimal(n) + " + " + Decimal(m) + " + " + Decimal(r) + ")"
    {
      if Theorem2Guard(n, m, r, s, t) {
        var Z := Theorem2Pattern(s, t, n, m);
        var ts := CreateTransitionSequenceTheorem2(n, m, r, Z);
        assert WellFormedSlot(transitionSequences[..][n - 1], n) && WellFormedSlot(transitionSequences[..][m - 1], m);
        assert WellFormedSlot(transitionSequences[..][r - 1], r);
        Theorem2Slot(transitionSequences[n - 1], transitionSequences[m - 1], transitionSequences[r - 1], n, m, r, s + t, Z);
        creationMethod[n + m + r - 1] := FromTheorem2(n, m, r);
        ghost var table := transitionSequences[..][n + m + r - 1 := ts];
        StoreSlot(transitionSequences[..], n + m + r - 1, ts);
        transitionSequences[n + m + r - 1] := ts;
        assert transitionSequences[..] == table;
        TheoremTexts(n, m, r);
        assert Text(creationMethod[n + m + r - 1]) == "(" + Decimal(n) + " + " + Decimal(m) + " + " + Decimal(r) + ")";
        ok := true;
      } else {
        ok := false;
      }
    }

    /** computeRunLengths: the histogram of the gaps that the second of two
        passes over the stored code records, one per position. */
    method ComputeRunLengths(bitWidth: int) returns (numRunLengths: map<int, int>)
      requires Valid() && 1 <= bitWidth <= MaxBitWidth
      ensures numRunLengths == Histogram(Gaps(transitionSequences[bitWidth - 1]))
      ensures var t := transitionSequences[bitWidth - 1];
        CountBetween(numRunLengths, 1, 2 * |t| + 1) == |t|
    {
      var t := transitionSequences[bitWidth - 1];
      assert InRange(t, 0, bitWidth);
      var lastSeen := new int[bitWidth](_ => -1);
      numRunLengths := map[];
      var runThrough := 1;
      while runThrough <= 2
        invariant 1 <= runThrough <= 3
        invariant runThrough <= 2 ==> Scan(t, runThrough, 0, bitWidth) == ScanState(lastSeen[..], numRunLengths)
        invariant runThrough == 3 ==> Scan(t, 2, |t|, bitWidth).histogram == numRunLengths
      {
        var i := 0;
        while i < |t|
          invariant 0 <= i <= |t|
          invariant Scan(t, runThrough, i, bitWidth) == ScanState(lastSeen[..], numRunLengths)
        {
          var x := t[i];
          if lastSeen[x] == -1 {
            lastSeen[x] := i;
          } else {
            var runLength := runThrough * |t| + i - lastSeen[x];
            lastSeen[x] := runThrough * |t| + i;
            if runThrough == 2 {
              if runLength in numRunLengths {
                numRunLengths := numRunLengths[runLength := numRunLengths[runLength] + 1];
              } else {
                numRunLengths := numRunLengths[runLength := 1];
              }
            }
          }
          i := i + 1;
        }
        runThrough := runThrough + 1;
      }
      ScanComputesHistogram(t, bitWidth);
      RunLengthHistogram(t);
    }
  }

  /** The width-6 code found by backtracking. */
  function Width6Seed(): seq<int>
  {
    [0, 1, 2, 3, 4, 5, 0, 2, 4, 1, 3, 2, 0, 5, 4, 2] +
    [3, 1, 4, 0, 2, 5, 3, 4, 2, 1, 0, 4, 3, 5, 2, 4] +
    [0, 1, 2, 3, 4, 5, 0, 2, 4, 1, 3, 2, 0, 5, 4, 2] +
    [3, 1, 4, 0, 2, 5, 3, 4, 2, 1, 0, 4, 3, 5, 2, 4]
  }

  /** The width-6 seed is a well-formed slot: 64 transitions over bits 0..5. */
  lemma Width6SeedWellFormed()
    ensures |Width6Seed()| == Pow2(6) && InRange(Width6Seed(), 0, 6)
  {
    var a := [0, 1, 2, 3, 4, 5, 0, 2, 4, 1, 3, 2, 0, 5, 4, 2];
    var b := [3, 1, 4, 0, 2, 5, 3, 4, 2, 1, 0, 4, 3, 5, 2, 4];
    assert InRange(a, 0, 6) by {
      forall i | 0 <= i < 16
        ensures 0 <= a[i] < 6
      {
        if i < 8 { } else { }
      }
    }
    assert InRange(b, 0, 6) by {
      forall i | 0 <= i < 16
        ensures 0 <= b[i] < 6
      {
        if i < 8 { } else { }
      }
    }
    InRangeAppend(a, b, 0, 6);
    InRangeAppend(a + b, a, 0, 6);
    InRangeAppend(a + b + a, b, 0, 6);
  }
}
