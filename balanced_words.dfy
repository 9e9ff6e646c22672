/** The balanced-word generator: the pattern words over 'a', 'b' (and 'c') that
    decide, position by position, which component code supplies the next
    transition of a combined code. */
module BalancedWords {
  import opened Arith
  import opened Sequences

  /** The greedy rule of createPVector. The source compares the doubles
      bUsed/(aUsed+1) and t/s; for the positive integers involved that is the
      exact comparison bUsed*s >= t*(aUsed+1). */
  function NextSymbol(s: nat, t: nat, aUsed: nat, bUsed: nat): char
  {
    if bUsed * s >= t * (aUsed + 1) then 'a' else 'b'
  }

  /** The first len symbols the greedy rule produces for the ratio t/s. */
  function GreedyPrefix(s: nat, t: nat, len: nat): (p: seq<char>)
    ensures |p| == len
  {
    if len == 0 then []
    else
      var q := GreedyPrefix(s, t, len - 1);
      q + [NextSymbol(s, t, Occurrences(q, 'a'), Occurrences(q, 'b'))]
  }

  /** The balanced word P of length s+t. */
  function PWord(s: nat, t: nat): seq<char>
  {
    GreedyPrefix(s, t, s + t)
  }

  lemma {:induction false} GreedyPrefixIsPrefix(s: nat, t: nat, k: nat, len: nat)
    requires k <= len
    ensures GreedyPrefix(s, t, len)[..k] == GreedyPrefix(s, t, k)
  {
    if k < len {
      GreedyPrefixIsPrefix(s, t, k, len - 1);
      var q := GreedyPrefix(s, t, len - 1);
      assert GreedyPrefix(s, t, len)[..len - 1] == q;
    }
  }

  /** The greedy rule only ever emits 'a' or 'b'. */
  lemma {:induction false} GreedyPrefixSymbols(s: nat, t: nat, len: nat)
    ensures forall i :: 0 <= i < len ==> GreedyPrefix(s, t, len)[i] in "ab"
  {
    if len > 0 {
      GreedyPrefixSymbols(s, t, len - 1);
      GreedyPrefixIsPrefix(s, t, len - 1, len);
    }
  }

  /** While fewer than s+t symbols have been emitted, the greedy rule never
      emits more than s 'a's or t 'b's. */
  lemma {:induction false} GreedyPrefixCounts(s: nat, t: nat, len: nat)
    requires 1 <= s && 1 <= t && len <= s + t
    ensures Occurrences(GreedyPrefix(s, t, len), 'a') <= s
    ensures Occurrences(GreedyPrefix(s, t, len), 'b') <= t
    ensures Occurrences(GreedyPrefix(s, t, len), 'a') + Occurrences(GreedyPrefix(s, t, len), 'b') == len
  {
    if len > 0 {
      GreedyPrefixCounts(s, t, len - 1);
      var q := GreedyPrefix(s, t, len - 1);
      var a, b := Occurrences(q, 'a'), Occurrences(q, 'b');
      var c := NextSymbol(s, t, a, b);
      OccurrencesSnoc(q, c, 'a');
      OccurrencesSnoc(q, c, 'b');
      GreedyStep(s, t, a, b);
    }
  }

  /** The symbol the greedy rule emits is never one whose quota is used up. */
  lemma GreedyStep(s: nat, t: nat, a: nat, b: nat)
    requires 1 <= t && a <= s && b <= t && a + b < s + t
    ensures NextSymbol(s, t, a, b) == 'a' ==> a < s
    ensures NextSymbol(s, t, a, b) == 'b' ==> b < t
  {
    if b * s >= t * (a + 1) {
      GreedyStepA(s, t, a, b);
    } else {
      GreedyStepB(s, t, a, b);
    }
  }

  /** Emitting an 'a' needs b*s >= t*(a+1), which a == s and b <= t rule out. */
  lemma GreedyStepA(s: nat, t: nat, a: nat, b: nat)
    requires 1 <= t && a <= s && b <= t && b * s >= t * (a + 1)
    ensures a < s
  {
    if a >= s {
      MulLe(b, t, s);
    }
  }

  /** Emitting a 'b' needs b*s < t*(a+1), which b == t rules out while fewer
      than s+t symbols have been emitted. */
  lemma GreedyStepB(s: nat, t: nat, a: nat, b: nat)
    requires a <= s && b <= t && a + b < s + t && b * s < t * (a + 1)
    ensures b < t
  {
    if b >= t {
      if a + 1 <= s {
        MulLe(a + 1, s, t);
      }
    }
  }

  /** createPVector's promise: exactly s 'a's and t 'b's, and a 'b' first. */
  lemma PWordProperties(s: nat, t: nat)
    requires 1 <= s && 1 <= t
    ensures var p := PWord(s, t);
      && |p| == s + t
      && Occurrences(p, 'a') == s
      && Occurrences(p, 'b') == t
      && p[0] == 'b'
      && forall i :: 0 <= i < |p| ==> p[i] in "ab"
  {
    PWordCounts(s, t);
    PWordStartsWithB(s, t);
    GreedyPrefixSymbols(s, t, s + t);
  }

  lemma PWordCounts(s: nat, t: nat)
    requires 1 <= s && 1 <= t
    ensures Occurrences(PWord(s, t), 'a') == s && Occurrences(PWord(s, t), 'b') == t
  {
    GreedyPrefixCounts(s, t, s + t);
    QuotasFilled(Occurrences(PWord(s, t), 'a'), Occurrences(PWord(s, t), 'b'), s, t);
  }

  lemma PWordStartsWithB(s: nat, t: nat)
    requires 1 <= t
    ensures |PWord(s, t)| >= 1 && PWord(s, t)[0] == 'b'
  {
    var p := PWord(s, t);
    GreedyPrefixIsPrefix(s, t, 1, s + t);
    GreedyStartsWithB(s, t);
    assert p[0] == p[..1][0];
  }

  /** Counts within their quotas that add up to the total fill both quotas. */
  lemma QuotasFilled(a: nat, b: nat, s: nat, t: nat)
    requires a <= s && b <= t && a + b == s + t
    ensures a == s && b == t
  {
  }

  lemma GreedyStartsWithB(s: nat, t: nat)
    requires 1 <= t
    ensures GreedyPrefix(s, t, 1) == ['b']
  {
    assert GreedyPrefix(s, t, 0) == [];
    assert NextSymbol(s, t, 0, 0) == 'b';
  }

  /** isOddPositive: a positive value of the form 2k+1. */
  function IsOddPositive(value: int): (r: bool)
    ensures r <==> value > 0 && value == 2 * (value / 2) + 1
  {
    value > 0 && value % 2 == 1
  }

  /** createPVector: fills a zero-initialised word of length s+t by the greedy rule. */
  method CreatePVector(s: int, t: int) returns (p: seq<char>)
    requires s >= 1 && t >= 1
    ensures p == PWord(s, t)
  {
    p := seq(s + t, _ => 0 as char);
    var aUsed, bUsed := 0, 0;
    for i := 0 to s + t
      invariant |p| == s + t && GreedyState(s, t, p[..i], aUsed, bUsed)
    {
      ghost var a, b := aUsed, bUsed;
      var c: char;
      if bUsed * s >= t * (aUsed + 1) {
        c := 'a';
        aUsed := aUsed + 1;
      } else {
        c := 'b';
        bUsed := bUsed + 1;
      }
      GreedyPrefixStep(s, t, p[..i], a, b, c);
      UpdateExtendsPrefix(p, i, c);
      p := p[i := c];
    }
    assert p == p[..s + t];
  }

  /** After the greedy rule has produced q, a and b count its 'a's and 'b's. */
  ghost predicate GreedyState(s: nat, t: nat, q: seq<char>, a: nat, b: nat)
  {
    q == GreedyPrefix(s, t, |q|) && a == Occurrences(q, 'a') && b == Occurrences(q, 'b')
  }

  /** One step of the greedy rule extends the prefix by one symbol and bumps
      that symbol's count. */
  lemma GreedyPrefixStep(s: nat, t: nat, q: seq<char>, a: nat, b: nat, c: char)
    requires GreedyState(s, t, q, a, b) && c == NextSymbol(s, t, a, b)
    ensures GreedyState(s, t, q + [c], a + (if c == 'a' then 1 else 0), b + (if c == 'b' then 1 else 0))
  {
    OccurrencesSnoc(q, c, 'a');
    OccurrencesSnoc(q, c, 'b');
  }

  /** k copies of v, one after the other. */
  function Repeat<T>(v: seq<T>, k: nat): (r: seq<T>)
    ensures |r| == |v| * k
  {
    if k == 0 then [] else Repeat(v, k - 1) + v
  }

  /** Element i·|v|+j of k copies of v is v[j]. */
  lemma {:induction false} RepeatAt<T>(v: seq<T>, k: nat, i: nat, j: nat)
    requires i < k && j < |v|
    ensures i * |v| + j < |Repeat(v, k)|
    ensures Repeat(v, k)[i * |v| + j] == v[j]
  {
    CellInGrid(i, j, k, |v|);
    if i < k - 1 {
      RepeatAt(v, k - 1, i, j);
    } else {
      assert i * |v| == |Repeat(v, k - 1)|;
    }
  }

  /** Every symbol occurs k times as often in k copies of v. */
  lemma {:induction false} RepeatOccurrences<T>(v: seq<T>, k: nat, x: T)
    ensures Occurrences(Repeat(v, k), x) == k * Occurrences(v, x)
  {
    if k > 0 {
      RepeatOccurrences(v, k - 1, x);
      OccurrencesAppend(Repeat(v, k - 1), v, x);
      assert k * Occurrences(v, x) == (k - 1) * Occurrences(v, x) + Occurrences(v, x);
    }
  }

  /** multiCopyVector: concatenates numCopies copies of v. */
  method MultiCopyVector(v: seq<char>, numCopies: int) returns (r: seq<char>)
    requires numCopies >= 0
    ensures r == Repeat(v, numCopies)
    ensures |r| == |v| * numCopies
  {
    var n := |v|;
    var newVector := new char[n * numCopies];
    for i := 0 to numCopies
      invariant i * n <= newVector.Length
      invariant newVector[..i * n] == Repeat(v, i)
    {
      for j := 0 to n
        invariant i * n + j <= newVector.Length
        invariant newVector[..i * n + j] == Repeat(v, i) + v[..j]
      {
        CellInGrid(i, j, numCopies, n);
        newVector[i * n + j] := v[j];
        assert newVector[..i * n + j + 1] == newVector[..i * n + j] + [v[j]];
        assert v[..j + 1] == v[..j] + [v[j]];
      }
      assert (i + 1) * n == i * n + n;
      assert v[..n] == v;
    }
    r := newVector[..];
    assert r == newVector[..numCopies * n];
  }

  /** The word with its last 'b' relabelled to 'c'; unchanged when it has no 'b'. */
  function ReplacedLastB(w: seq<char>): seq<char>
  {
    var k := LastIndexOf(w, 'b');
    if k < 0 then w else w[k := 'c']
  }

  /** replaceLastBWithC's promise: exactly the highest-index 'b' becomes 'c',
      every other position is kept, and a word without 'b' is unchanged. */
  lemma ReplacedLastBProperties(w: seq<char>)
    ensures var r := ReplacedLastB(w);
      && |r| == |w|
      && ('b' !in w ==> r == w)
      && ('b' in w ==>
            var k := LastIndexOf(w, 'b');
            && 0 <= k && w[k] == 'b' && r[k] == 'c'
            && (forall j :: k < j < |w| ==> w[j] != 'b')
            && (forall j :: 0 <= j < |w| && j != k ==> r[j] == w[j])
            && Occurrences(r, 'c') == Occurrences(w, 'c') + 1
            && Occurrences(r, 'b') == Occurrences(w, 'b') - 1)
  {
    var k := LastIndexOf(w, 'b');
    if 'b' in w {
      var i :| 0 <= i < |w| && w[i] == 'b';
      assert k >= i;
      assert multiset(w[k := 'c']) == multiset(w) - multiset{'b'} + multiset{'c'};
    } else {
      assert k < 0;
    }
  }

  /** replaceLastBWithC: scans from the end and relabels the first 'b' met. */
  method ReplaceLastBWithC(v: array<char>)
    modifies v
    ensures v[..] == ReplacedLastB(old(v[..]))
  {
    var k := v.Length - 1;
    while k >= 0
      invariant -1 <= k < v.Length
      invariant v[..] == old(v[..])
      invariant forall j :: k < j < v.Length ==> v[j] != 'b'
    {
      if v[k] == 'b' {
        v[k] := 'c';
        break;
      }
      k := k - 1;
    }
  }

  /** The pattern word of Theorem 1: 2^n copies of P. */
  function Theorem1Word(s: nat, t: nat, n: nat): seq<char>
  {
    Repeat(PWord(s, t), Pow2(n))
  }

  /** The pattern word of Theorem 2: 2^m copies of Q, where Q is 2^n copies of
      P with its last 'b' relabelled 'c'. */
  function Theorem2Word(s: nat, t: nat, n: nat, m: nat): seq<char>
  {
    Repeat(ReplacedLastB(Repeat(PWord(s, t), Pow2(n))), Pow2(m))
  }

  /** Theorem 1 takes s·2^n transitions from A and t·2^n from B. */
  lemma Theorem1WordCounts(s: nat, t: nat, n: nat)
    requires 1 <= s && 1 <= t
    ensures var z := Theorem1Word(s, t, n);
      && |z| == (s + t) * Pow2(n)
      && Occurrences(z, 'a') == s * Pow2(n)
      && Occurrences(z, 'b') == t * Pow2(n)
  {
    PWordProperties(s, t);
    RepeatOccurrences(PWord(s, t), Pow2(n), 'a');
    RepeatOccurrences(PWord(s, t), Pow2(n), 'b');
  }

  /** Theorem 2 takes s·2^(n+m) transitions from A, (t·2^n - 1)·2^m from B and
      exactly 2^m from C: one per copy of Q. */
  lemma Theorem2WordCounts(s: nat, t: nat, n: nat, m: nat)
    requires 1 <= s && 1 <= t
    ensures var z := Theorem2Word(s, t, n, m);
      && |z| == (s + t) * Pow2(n) * Pow2(m)
      && Occurrences(z, 'a') == s * Pow2(n) * Pow2(m)
      && Occurrences(z, 'b') == (t * Pow2(n) - 1) * Pow2(m)
      && Occurrences(z, 'c') == Pow2(m)
  {
    var w := ReplacedLastB(Repeat(PWord(s, t), Pow2(n)));
    RelabelledCopiesCounts(s, t, n);
    ScaledCounts(w, Pow2(m), (s + t) * Pow2(n), s * Pow2(n), t * Pow2(n) - 1, 1);
  }

  /** Symbol counts of k copies, for the three symbols of the pattern words. */
  lemma CopiesCounts(w: seq<char>, k: nat)
    ensures |Repeat(w, k)| == |w| * k
    ensures Occurrences(Repeat(w, k), 'a') == Occurrences(w, 'a') * k
    ensures Occurrences(Repeat(w, k), 'b') == Occurrences(w, 'b') * k
    ensures Occurrences(Repeat(w, k), 'c') == Occurrences(w, 'c') * k
  {
    RepeatOccurrences(w, k, 'a');
    RepeatOccurrences(w, k, 'b');
    RepeatOccurrences(w, k, 'c');
  }

  lemma ScaledCounts(w: seq<char>, k: nat, len: nat, a: nat, b: nat, c: nat)
    requires |w| == len && Occurrences(w, 'a') == a && Occurrences(w, 'b') == b && Occurrences(w, 'c') == c
    ensures |Repeat(w, k)| == len * k
    ensures Occurrences(Repeat(w, k), 'a') == a * k
    ensures Occurrences(Repeat(w, k), 'b') == b * k
    ensures Occurrences(Repeat(w, k), 'c') == c * k
  {
    CopiesCounts(w, k);
  }

  /** Q of Theorem 2: 2^n copies of P with one 'b' turned into 'c'. */
  lemma RelabelledCopiesCounts(s: nat, t: nat, n: nat)
    requires 1 <= s && 1 <= t
    ensures var w := ReplacedLastB(Repeat(PWord(s, t), Pow2(n)));
      && |w| == (s + t) * Pow2(n)
      && Occurrences(w, 'a') == s * Pow2(n)
      && Occurrences(w, 'b') == t * Pow2(n) - 1
      && Occurrences(w, 'c') == 1
  {
    NoCInPWord(s, t);
    var p, k := PWord(s, t), Pow2(n);
    RelabelledCopies(p, k, s + t, s, t);
    var w := ReplacedLastB(Repeat(p, k));
    assert |w| == (s + t) * k;
  }

  lemma NoCInPWord(s: nat, t: nat)
    requires 1 <= s && 1 <= t
    ensures |PWord(s, t)| == s + t
    ensures Occurrences(PWord(s, t), 'a') == s && Occurrences(PWord(s, t), 'b') == t
    ensures Occurrences(PWord(s, t), 'c') == 0
  {
    PWordProperties(s, t);
    assert 'c' !in PWord(s, t);
  }

  lemma RelabelledCopies(p: seq<char>, k: nat, len: nat, a: nat, b: nat)
    requires k >= 1 && b >= 1
    requires |p| == len && Occurrences(p, 'a') == a && Occurrences(p, 'b') == b && Occurrences(p, 'c') == 0
    ensures var w := ReplacedLastB(Repeat(p, k));
      && |w| == len * k
      && Occurrences(w, 'a') == a * k
      && Occurrences(w, 'b') == b * k - 1
      && Occurrences(w, 'c') == 1
  {
    var q := Repeat(p, k);
    ScaledCounts(p, k, len, a, b, 0);
    MulLe(1, b, k);
    RelabelCounts(q);
  }

  /** Relabelling keeps the 'a's, removes one 'b' and adds one 'c'. */
  lemma RelabelCounts(q: seq<char>)
    requires Occurrences(q, 'b') > 0
    ensures |ReplacedLastB(q)| == |q|
    ensures Occurrences(ReplacedLastB(q), 'a') == Occurrences(q, 'a')
    ensures Occurrences(ReplacedLastB(q), 'b') == Occurrences(q, 'b') - 1
    ensures Occurrences(ReplacedLastB(q), 'c') == Occurrences(q, 'c') + 1
  {
    LastIndexOfFound(q, 'b');
    var k := LastIndexOf(q, 'b');
    assert multiset(q[k := 'c']) == multiset(q) - multiset{'b'} + multiset{'c'};
  }
}
