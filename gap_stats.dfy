/** The statistics engine: the cyclic gap (run-length) histogram of a
    transition sequence, and its smallest and largest gap. */
module GapStats {
  import opened Arith
  import opened Sequences

  /** The gap that computeRunLengths records for position i in its second pass:
      the distance back to the previous occurrence of t[i], reading t as a
      cycle. A value that occurs only once in t is recorded as 2·|t|, because
      the first pass stores the first sighting of a value at offset i rather
      than at offset |t|+i. */
  function GapAt(t: seq<int>, i: nat): int
    requires i < |t|
  {
    var x := t[i];
    if Occurrences(t[..i], x) > 0 then i - LastIndexOf(t[..i], x)
    else if Occurrences(t, x) == 1 then 2 * |t|
    else |t| + i - LastIndexOf(t, x)
  }

  /** The gaps of all positions, in the order the second pass meets them. */
  function Gaps(t: seq<int>): (g: seq<int>)
    ensures |g| == |t|
  {
    seq(|t|, i requires 0 <= i < |t| => GapAt(t, i))
  }

  /** The histogram built by counting the gaps of g one by one. */
  function Histogram(g: seq<int>): map<int, int>
  {
    if g == [] then map[]
    else
      var h := Histogram(g[..|g| - 1]);
      CountOne(h, g[|g| - 1])
  }

  /** The histogram with one more occurrence of x: `runLengths[x]++` on a std::map. */
  function CountOne(h: map<int, int>, x: int): map<int, int>
  {
    h[x := if x in h then h[x] + 1 else 1]
  }

  /** The sum of the counts of the keys lo, lo+1, ..., hi-1 of a histogram. */
  function CountBetween(h: map<int, int>, lo: int, hi: int): int
    decreases hi - lo
  {
    if hi <= lo then 0
    else CountBetween(h, lo, hi - 1) + (if hi - 1 in h then h[hi - 1] else 0)
  }

  /** Changing the count of key x changes the sum over a range holding x by
      the same amount, and leaves the sum over other ranges alone. */
  lemma {:induction false} CountBetweenUpdate(h: map<int, int>, x: int, v: int, lo: int, hi: int)
    ensures CountBetween(h[x := v], lo, hi) ==
      CountBetween(h, lo, hi) + (if lo <= x < hi then v - (if x in h then h[x] else 0) else 0)
    decreases hi - lo
  {
    if lo < hi {
      CountBetweenUpdate(h, x, v, lo, hi - 1);
    }
  }

  /** The histogram has a key exactly for each gap value, counting how often it occurs. */
  lemma {:induction false} HistogramCounts(g: seq<int>)
    ensures forall k :: k in Histogram(g) <==> k in g
    ensures forall k :: k in Histogram(g) ==> Histogram(g)[k] == Occurrences(g, k)
  {
    if g != [] {
      var p := g[..|g| - 1];
      var x := g[|g| - 1];
      HistogramCounts(p);
      assert g == p + [x];
      forall k
        ensures Occurrences(g, k) == Occurrences(p, k) + (if k == x then 1 else 0)
      {
        OccurrencesSnoc(p, x, k);
      }
      forall k | k !in p
        ensures Occurrences(p, k) == 0
      {
      }
    }
  }

  /** When every gap lies in [lo,hi), the counts of the histogram of g over
      that range add up to |g|: one count per gap. */
  lemma {:induction false} HistogramTotal(g: seq<int>, lo: int, hi: int)
    requires forall i :: 0 <= i < |g| ==> lo <= g[i] < hi
    ensures CountBetween(Histogram(g), lo, hi) == |g|
  {
    if g == [] {
      CountBetweenEmpty(lo, hi);
    } else {
      var p := g[..|g| - 1];
      var x := g[|g| - 1];
      var h := Histogram(p);
      HistogramTotal(p, lo, hi);
      CountBetweenUpdate(h, x, if x in h then h[x] + 1 else 1, lo, hi);
    }
  }

  lemma {:induction false} CountBetweenEmpty(lo: int, hi: int)
    ensures CountBetween(map[], lo, hi) == 0
    decreases hi - lo
  {
    if lo < hi {
      CountBetweenEmpty(lo, hi - 1);
    }
  }

  /** When t[i] occurs at least twice in t, its gap is the cyclic distance d back
      to the previous occurrence of the same value: 1 <= d <= |t|-1, the value
      at (i-d) mod |t| is t[i], and no position strictly between holds t[i]. */
  lemma GapIsCyclicDistance(t: seq<int>, i: nat)
    requires i < |t| && Occurrences(t, t[i]) >= 2
    ensures 1 <= GapAt(t, i) <= |t| - 1
    ensures t[(i - GapAt(t, i)) % |t|] == t[i]
    ensures forall j :: 0 <= j < |t| && 0 < (i - j) % |t| < GapAt(t, i) ==> t[j] != t[i]
  {
    if Occurrences(t[..i], t[i]) > 0 {
      GapWithinPass(t, i);
    } else {
      GapAcrossWrap(t, i);
    }
  }

  /** The previous occurrence lies before i in the same pass. */
  lemma GapWithinPass(t: seq<int>, i: nat)
    requires i < |t| && Occurrences(t[..i], t[i]) > 0
    ensures 1 <= GapAt(t, i) <= i
    ensures t[(i - GapAt(t, i)) % |t|] == t[i]
    ensures forall j :: 0 <= j < |t| && 0 < (i - j) % |t| < GapAt(t, i) ==> t[j] != t[i]
  {
    var x, n, p := t[i], |t|, t[..i];
    LastIndexOfFound(p, x);
    var k := LastIndexOf(p, x);
    var g := GapAt(t, i);
    assert g == i - k && p[k] == x;
    ModInWindow(i - g, n);
    forall j | 0 <= j < n && 0 < (i - j) % n < g
      ensures t[j] != x
    {
      ModInWindow(i - j, n);
      assert j < i;
      assert p[j] == t[j];
    }
  }

  /** No earlier occurrence in this pass: the previous one is the last
      occurrence in t, met in the pass before. */
  lemma GapAcrossWrap(t: seq<int>, i: nat)
    requires i < |t| && Occurrences(t[..i], t[i]) == 0 && Occurrences(t, t[i]) >= 2
    ensures i + 1 <= GapAt(t, i) <= |t| - 1
    ensures t[(i - GapAt(t, i)) % |t|] == t[i]
    ensures forall j :: 0 <= j < |t| && 0 < (i - j) % |t| < GapAt(t, i) ==> t[j] != t[i]
  {
    var x, n, p := t[i], |t|, t[..i];
    LastIndexOfFound(t, x);
    var last := LastIndexOf(t, x);
    if last == i {
      LastAfterOccurrence(t, i);
    }
    var g := GapAt(t, i);
    assert g == n + i - last;
    ModInWindow(i - g, n);
    forall j | 0 <= j < n && 0 < (i - j) % n < g
      ensures t[j] != x
    {
      ModInWindow(i - j, n);
      if j < i {
        assert p[j] == t[j];
        assert x !in multiset(p);
      }
    }
  }

  /** A value met for the first time at i, and never after i, occurs once. */
  lemma LastAfterOccurrence(t: seq<int>, i: nat)
    requires i < |t| && Occurrences(t[..i], t[i]) == 0 && LastIndexOf(t, t[i]) == i
    ensures Occurrences(t, t[i]) == 1
  {
    var x, pre, post := t[i], t[..i], t[i + 1..];
    assert t == pre + [x] + post;
    forall j | 0 <= j < |post|
      ensures post[j] != x
    {
      assert post[j] == t[i + 1 + j];
    }
    NoneOccur(post, x);
    OccurrencesAppend(pre + [x], post, x);
    OccurrencesSnoc(pre, x, x);
  }

  /** A value that occurs only once in t is recorded with gap 2·|t|. */
  lemma GapOfSingleOccurrence(t: seq<int>, i: nat)
    requires i < |t| && Occurrences(t, t[i]) == 1
    ensures GapAt(t, i) == 2 * |t|
  {
    var x := t[i];
    assert t == t[..i] + t[i..];
    OccurrencesAppend(t[..i], t[i..], x);
    assert t[i..][0] == x;
    assert Occurrences(t[i..], x) >= 1;
  }

  /** Every recorded gap is between 1 and 2·|t|. */
  lemma GapBounds(t: seq<int>, i: nat)
    requires i < |t|
    ensures 1 <= GapAt(t, i) <= 2 * |t|
  {
    assert t[i] in multiset(t);
    if Occurrences(t, t[i]) >= 2 {
      GapIsCyclicDistance(t, i);
    } else {
      GapOfSingleOccurrence(t, i);
    }
  }

  /** transitionLastSeen[x] after the first pass has processed t[..i]. The first
      sighting is stored at offset i, later ones at offset |t|+i. */
  ghost function SeenInFirstPass(t: seq<int>, i: nat, x: int): int
    requires i <= |t|
  {
    var p := t[..i];
    if Occurrences(p, x) == 0 then -1
    else if Occurrences(p, x) == 1 then LastIndexOf(p, x)
    else |t| + LastIndexOf(p, x)
  }

  /** transitionLastSeen[x] after the second pass has processed t[..i]; values
      not yet met in this pass keep what the first pass left. */
  ghost function SeenInSecondPass(t: seq<int>, i: nat, x: int): int
    requires i <= |t|
  {
    var p := t[..i];
    if Occurrences(p, x) > 0 then 2 * |t| + LastIndexOf(p, x)
    else SeenInFirstPass(t, |t|, x)
  }

  /** transitionLastSeen[x] after pass `pass` (1 or 2) has processed t[..i]. */
  ghost function LastSeen(t: seq<int>, pass: int, i: nat, x: int): int
    requires i <= |t|
  {
    if pass == 1 then SeenInFirstPass(t, i, x) else SeenInSecondPass(t, i, x)
  }

  /** The histogram after pass `pass` has processed t[..i]: only the second
      pass records gaps. */
  function Recorded(t: seq<int>, pass: int, i: nat): map<int, int>
    requires i <= |t|
  {
    if pass == 1 then map[] else Histogram(Gaps(t)[..i])
  }

  lemma FirstPassStep(t: seq<int>, i: nat)
    requires i < |t|
    ensures forall x :: x != t[i] ==> SeenInFirstPass(t, i + 1, x) == SeenInFirstPass(t, i, x)
    ensures SeenInFirstPass(t, i, t[i]) == -1 ==> SeenInFirstPass(t, i + 1, t[i]) == i
    ensures SeenInFirstPass(t, i, t[i]) != -1 ==> SeenInFirstPass(t, i + 1, t[i]) == |t| + i
  {
    var p := t[..i];
    assert t[..i + 1] == p + [t[i]];
    forall x
      ensures Occurrences(t[..i + 1], x) == Occurrences(p, x) + (if x == t[i] then 1 else 0)
      ensures LastIndexOf(t[..i + 1], x) == if x == t[i] then i else LastIndexOf(p, x)
    {
      OccurrencesSnoc(p, t[i], x);
      LastIndexOfSnoc(p, t[i], x);
    }
    if Occurrences(p, t[i]) > 0 {
      LastIndexOfFound(p, t[i]);
    }
  }

  lemma SecondPassStep(t: seq<int>, i: nat)
    requires i < |t|
    ensures forall x :: x != t[i] ==> SeenInSecondPass(t, i + 1, x) == SeenInSecondPass(t, i, x)
    ensures SeenInSecondPass(t, i + 1, t[i]) == 2 * |t| + i
    ensures SeenInSecondPass(t, i, t[i]) != -1
    ensures 2 * |t| + i - SeenInSecondPass(t, i, t[i]) == GapAt(t, i)
  {
    var p, x := t[..i], t[i];
    assert t[..i + 1] == p + [x];
    forall y
      ensures Occurrences(t[..i + 1], y) == Occurrences(p, y) + (if y == x then 1 else 0)
      ensures LastIndexOf(t[..i + 1], y) == if y == x then i else LastIndexOf(p, y)
    {
      OccurrencesSnoc(p, x, y);
      LastIndexOfSnoc(p, x, y);
    }
    if Occurrences(p, x) > 0 {
      LastIndexOfFound(p, x);
    } else {
      assert t[..|t|] == t;
      assert x in multiset(t);
      LastIndexOfFound(t, x);
      if Occurrences(t, x) == 1 {
        LastIndexOfSingle(t, i);
      }
    }
  }

  lemma PassBoundaries(t: seq<int>, x: int)
    ensures SeenInFirstPass(t, 0, x) == -1
    ensures SeenInSecondPass(t, 0, x) == SeenInFirstPass(t, |t|, x)
  {
    assert t[..0] == [];
  }

  /** One step of either pass at position i, in the terms the scan uses:
      every other entry of transitionLastSeen stays, the entry of t[i] becomes
      i on a first sighting and pass·|t|+i otherwise, and in the second pass
      the distance between the two offsets is the gap of position i, which is
      counted into the histogram. */
  lemma PassStep(t: seq<int>, pass: int, i: nat)
    requires pass == 1 || pass == 2
    requires i < |t|
    ensures forall x :: x != t[i] ==> LastSeen(t, pass, i + 1, x) == LastSeen(t, pass, i, x)
    ensures LastSeen(t, pass, i, t[i]) == -1 ==> pass == 1 && LastSeen(t, pass, i + 1, t[i]) == i
    ensures LastSeen(t, pass, i, t[i]) != -1 ==> LastSeen(t, pass, i + 1, t[i]) == pass * |t| + i
    ensures pass == 1 ==> Recorded(t, pass, i + 1) == map[]
    ensures pass == 2 ==>
      var h, g := Recorded(t, pass, i), pass * |t| + i - LastSeen(t, pass, i, t[i]);
      Recorded(t, pass, i + 1) == CountOne(h, g)
  {
    if pass == 1 {
      FirstPassStep(t, i);
    } else {
      SecondPassStep(t, i);
      SecondPassRecords(t, i);
    }
  }

  /** The whole transitionLastSeen vector after pass `pass` has processed t[..i]. */
  ghost function LastSeenTable(t: seq<int>, pass: int, i: nat, width: nat): (r: seq<int>)
    requires i <= |t|
    ensures |r| == width
  {
    seq(width, x => LastSeen(t, pass, i, x))
  }

  /** PassStep, stated for the whole vector. */
  lemma TableStep(t: seq<int>, pass: int, i: nat, width: nat)
    requires pass == 1 || pass == 2
    requires i < |t| && 0 <= t[i] < width
    ensures LastSeenTable(t, pass, i, width)[t[i]] == -1 ==>
      pass == 1 && LastSeenTable(t, pass, i + 1, width) == LastSeenTable(t, pass, i, width)[t[i] := i]
    ensures LastSeenTable(t, pass, i, width)[t[i]] != -1 ==>
      LastSeenTable(t, pass, i + 1, width) == LastSeenTable(t, pass, i, width)[t[i] := pass * |t| + i]
  {
    PassStep(t, pass, i);
    var before, after := LastSeenTable(t, pass, i, width), LastSeenTable(t, pass, i + 1, width);
    assert before[t[i]] == LastSeen(t, pass, i, t[i]);
    assert after[t[i]] == LastSeen(t, pass, i + 1, t[i]);
    forall x | 0 <= x < width && x != t[i]
      ensures after[x] == before[x]
    {
      assert after[x] == LastSeen(t, pass, i + 1, x);
      assert before[x] == LastSeen(t, pass, i, x);
    }
    SingleUpdate(before, after, t[i]);
  }

  /** PassStep's histogram update, stated with the vector the scan holds. */
  lemma RecordedStep(t: seq<int>, pass: int, i: nat, width: nat)
    requires pass == 1 || pass == 2
    requires i < |t| && 0 <= t[i] < width
    ensures pass == 1 ==> Recorded(t, pass, i) == map[] && Recorded(t, pass, i + 1) == map[]
    ensures pass == 2 ==>
      Recorded(t, pass, i + 1) == CountOne(Recorded(t, pass, i), pass * |t| + i - LastSeenTable(t, pass, i, width)[t[i]])
  {
    if pass == 2 {
      SecondPassStep(t, i);
      SecondPassRecords(t, i);
      assert LastSeenTable(t, 2, i, width)[t[i]] == SeenInSecondPass(t, i, t[i]);
    }
  }

  /** Two vectors that differ at most at position x: the second is the first
      with x overwritten. */
  lemma SingleUpdate(before: seq<int>, after: seq<int>, x: int)
    requires |before| == |after| && 0 <= x < |before|
    requires forall y :: 0 <= y < |after| && y != x ==> after[y] == before[y]
    ensures after == before[x := after[x]]
  {
  }

  /** The first pass starts from a vector of -1, and the second pass starts
      from what the first pass left. */
  lemma TableBoundaries(t: seq<int>, width: nat)
    ensures LastSeenTable(t, 1, 0, width) == seq(width, _ => -1)
    ensures LastSeenTable(t, 2, 0, width) == LastSeenTable(t, 1, |t|, width)
  {
    forall x | 0 <= x < width
      ensures LastSeen(t, 1, 0, x) == -1
      ensures LastSeen(t, 2, 0, x) == LastSeen(t, 1, |t|, x)
    {
      PassBoundaries(t, x);
    }
  }

  /** The second pass counts the gap of position i into the histogram. */
  lemma SecondPassRecords(t: seq<int>, i: nat)
    requires i < |t|
    ensures var h, g := Recorded(t, 2, i), GapAt(t, i);
      Recorded(t, 2, i + 1) == CountOne(h, g)
  {
    var gs := Gaps(t);
    assert gs[..i + 1][..i] == gs[..i];
  }

  /** The second pass starts from the empty histogram and ends with all gaps counted. */
  lemma RecordedBoundaries(t: seq<int>)
    ensures Recorded(t, 2, 0) == map[]
    ensures Recorded(t, 2, |t|) == Histogram(Gaps(t))
  {
    assert Gaps(t)[..0] == [];
    assert Gaps(t)[..|t|] == Gaps(t);
  }

  /** computeMinGap: the smallest gap and its count, provided it is below the
      sentinel 999; otherwise 999 and the caller's count left as it was. */
  method ComputeMinGap(runLengths: map<int, int>, minCountIn: int) returns (minGap: int, minCount: int)
    ensures (forall k :: k in runLengths ==> k >= 999) ==> minGap == 999 && minCount == minCountIn
    ensures (exists k :: k in runLengths && k < 999) ==>
      && minGap in runLengths
      && minCount == runLengths[minGap]
      && forall k :: k in runLengths ==> minGap <= k
  {
    minGap, minCount := 999, minCountIn;
    var rest := runLengths.Keys;
    while rest != {}
      invariant rest <= runLengths.Keys
      invariant forall k, j :: k in runLengths && k !in rest && j in rest ==> k < j
      invariant
        || (minGap == 999 && minCount == minCountIn &&
            forall k :: k in runLengths && k !in rest ==> k >= 999)
        || (minGap < 999 && minGap in runLengths && minGap !in rest && minCount == runLengths[minGap] &&
            forall k :: k in runLengths && k !in rest ==> minGap <= k)
      decreases |rest|
    {
      HasLeast(rest);
      var k :| k in rest && forall j :: j in rest ==> k <= j;
      if k < minGap {
        minGap := k;
        minCount := runLengths[k];
      }
      rest := rest - {k};
    }
  }

  /** computeMaxGap: the largest gap and its count, provided it is above 0;
      otherwise 0 and the caller's count left as it was. */
  method ComputeMaxGap(runLengths: map<int, int>, maxCountIn: int) returns (maxGap: int, maxCount: int)
    ensures (forall k :: k in runLengths ==> k <= 0) ==> maxGap == 0 && maxCount == maxCountIn
    ensures (exists k :: k in runLengths && k > 0) ==>
      && maxGap in runLengths
      && maxCount == runLengths[maxGap]
      && forall k :: k in runLengths ==> k <= maxGap
  {
    maxGap, maxCount := 0, maxCountIn;
    var rest := runLengths.Keys;
    while rest != {}
      invariant rest <= runLengths.Keys
      invariant forall k, j :: k in runLengths && k !in rest && j in rest ==> k < j
      invariant
        || (maxGap == 0 && maxCount == maxCountIn &&
            forall k :: k in runLengths && k !in rest ==> k <= 0)
        || (maxGap > 0 && maxGap in runLengths && maxGap !in rest && maxCount == runLengths[maxGap] &&
            forall k :: k in runLengths && k !in rest ==> k <= maxGap)
      decreases |rest|
    {
      HasLeast(rest);
      var k :| k in rest && forall j :: j in rest ==> k <= j;
      if k > maxGap {
        maxGap := k;
        maxCount := runLengths[k];
      }
      rest := rest - {k};
    }
  }

  /** A non-empty finite set of integers has a least element: the key a
      std::map hands out first. */
  lemma {:induction false} HasLeast(s: set<int>)
    requires s != {}
    ensures exists m :: m in s && forall j :: j in s ==> m <= j
    decreases |s|
  {
    var x := PickElement(s);
    if s == {x} {
      assert forall j :: j in s ==> x <= j;
    } else {
      var r := s - {x};
      HasLeast(r);
      var m :| m in r && forall j :: j in r ==> m <= j;
      var least := if x < m then x else m;
      forall j | j in s
        ensures least <= j
      {
        if j != x {
          assert j in r;
        }
      }
      assert least in s;
    }
  }

  /** computeRunLengths' histogram: its counts add up to |t|, one per position
      of the second pass; every recorded gap lies in [1, 2·|t|]; and when every
      value of t occurs at least twice, every gap is a true cyclic distance in
      [1, |t|-1]. */
  lemma RunLengthHistogram(t: seq<int>)
    ensures CountBetween(Histogram(Gaps(t)), 1, 2 * |t| + 1) == |t|
    ensures forall k :: k in Histogram(Gaps(t)) ==> 1 <= k <= 2 * |t|
    ensures (forall i :: 0 <= i < |t| ==> Occurrences(t, t[i]) >= 2) ==>
      forall k :: k in Histogram(Gaps(t)) ==> 1 <= k <= |t| - 1
  {
    var g := Gaps(t);
    forall i | 0 <= i < |g|
      ensures 1 <= g[i] <= 2 * |t|
      ensures Occurrences(t, t[i]) >= 2 ==> g[i] <= |t| - 1
    {
      GapBounds(t, i);
      if Occurrences(t, t[i]) >= 2 {
        GapIsCyclicDistance(t, i);
      }
    }
    HistogramTotal(g, 1, 2 * |t| + 1);
    HistogramCounts(g);
  }

  /** The state of computeRunLengths between two steps: the transitionLastSeen
      vector and the histogram built so far. */
  datatype ScanState = ScanState(lastSeen: seq<int>, histogram: map<int, int>)

  /** One step of pass `pass` at position i, as the loop body performs it. */
  function ScanStep(st: ScanState, t: seq<int>, pass: int, i: nat): (r: ScanState)
    requires i < |t| && 0 <= t[i] < |st.lastSeen|
    ensures |r.lastSeen| == |st.lastSeen|
  {
    var x := t[i];
    if st.lastSeen[x] == -1 then ScanState(st.lastSeen[x := i], st.histogram)
    else
      var runLength := pass * |t| + i - st.lastSeen[x];
      var h := st.histogram;
      ScanState(st.lastSeen[x := pass * |t| + i],
                if pass == 2 then CountOne(h, runLength) else h)
  }

  /** The state after pass `pass` (1 or 2) has processed t[..i], starting from
      a vector of -1 and an empty histogram. */
  function Scan(t: seq<int>, pass: int, i: nat, width: nat): (r: ScanState)
    requires pass == 1 || pass == 2
    requires i <= |t| && InRange(t, 0, width)
    ensures |r.lastSeen| == width
    decreases pass, i
  {
    if i == 0 then
      if pass == 1 then ScanState(seq(width, _ => -1), map[]) else Scan(t, 1, |t|, width)
    else
      ScanStep(Scan(t, pass, i - 1, width), t, pass, i - 1)
  }

  /** The scan's state is the one the offsets predict: transitionLastSeen
      holds LastSeen and the histogram holds the gaps of the positions
      counted so far. */
  lemma {:induction false} ScanAgrees(t: seq<int>, pass: int, i: nat, width: nat)
    requires pass == 1 || pass == 2
    requires i <= |t| && InRange(t, 0, width)
    ensures Scan(t, pass, i, width) == ScanState(LastSeenTable(t, pass, i, width), Recorded(t, pass, i))
    decreases pass, i
  {
    if i == 0 {
      if pass == 2 {
        ScanAgrees(t, 1, |t|, width);
      }
      ScanAgreesAtStart(t, pass, width);
    } else {
      ScanAgrees(t, pass, i - 1, width);
      ScanAgreesStep(t, pass, i - 1, width);
    }
  }

  /** Each pass starts in the predicted state: the first from a vector of -1
      and no gaps, the second from where the first pass ended. */
  lemma ScanAgreesAtStart(t: seq<int>, pass: int, width: nat)
    requires pass == 1 || pass == 2
    requires InRange(t, 0, width)
    requires pass == 2 ==> Scan(t, 1, |t|, width) == ScanState(LastSeenTable(t, 1, |t|, width), Recorded(t, 1, |t|))
    ensures Scan(t, pass, 0, width) == ScanState(LastSeenTable(t, pass, 0, width), Recorded(t, pass, 0))
  {
    TableBoundaries(t, width);
    RecordedBoundaries(t);
  }

  /** One scan step takes the predicted state after t[..i] to the predicted
      state after t[..i+1]. */
  lemma ScanAgreesStep(t: seq<int>, pass: int, i: nat, width: nat)
    requires pass == 1 || pass == 2
    requires i < |t| && 0 <= t[i] < width
    ensures ScanStep(ScanState(LastSeenTable(t, pass, i, width), Recorded(t, pass, i)), t, pass, i)
      == ScanState(LastSeenTable(t, pass, i + 1, width), Recorded(t, pass, i + 1))
  {
    TableStep(t, pass, i, width);
    RecordedStep(t, pass, i, width);
    ScanStepMatches(LastSeenTable(t, pass, i, width), Recorded(t, pass, i), t, pass, i,
                    LastSeenTable(t, pass, i + 1, width), Recorded(t, pass, i + 1));
  }

  /** A scan step from (before, h) lands on the state that TableStep predicts. */
  lemma ScanStepMatches(before: seq<int>, h: map<int, int>, t: seq<int>, pass: int, i: nat,
                        after: seq<int>, recorded: map<int, int>)
    requires pass == 1 || pass == 2
    requires i < |t| && 0 <= t[i] < |before|
    requires before[t[i]] == -1 ==> pass == 1 && after == before[t[i] := i]
    requires before[t[i]] != -1 ==> after == before[t[i] := pass * |t| + i]
    requires pass == 1 ==> h == map[] && recorded == map[]
    requires pass == 2 ==> recorded == CountOne(h, pass * |t| + i - before[t[i]])
    ensures ScanStep(ScanState(before, h), t, pass, i) == ScanState(after, recorded)
  {
  }

  /** computeRunLengths' result: after both passes the histogram is that of
      the gaps of all positions. */
  lemma ScanComputesHistogram(t: seq<int>, width: nat)
    requires InRange(t, 0, width)
    ensures Scan(t, 2, |t|, width).histogram == Histogram(Gaps(t))
  {
    ScanAgrees(t, 2, |t|, width);
    RecordedBoundaries(t);
  }
}
