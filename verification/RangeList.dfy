/** The list of invalid byte ranges of a file (rangelist.c), as a set of offsets. */
module RangeList {

  /** RL_INFINITY: an `end` with no bound above. */
  const INFINITY: int := -1

  datatype Range = Range(start: int, end: int)

  datatype Overlap =
    NoOverlap | Matching | OverlapContainsRange | OverlapIsContained | OverlapStartsBefore | OverlapEndsAfter

  predicate IsRange(r: Range) {
    0 <= r.start && (r.end == INFINITY || r.start <= r.end)
  }

  predicate In(r: Range, x: int) {
    r.start <= x && (r.end == INFINITY || x <= r.end)
  }

  ghost predicate Has(s: seq<Range>, x: int) {
    exists i | 0 <= i < |s| :: In(s[i], x)
  }

  ghost function Offsets(s: seq<Range>): iset<int> {
    iset x | Has(s, x)
  }

  ghost function RangeOffsets(r: Range): iset<int> {
    iset x | In(r, x)
  }

  /** The first range ends, and at least one offset lies between it and the second. */
  predicate Apart(r: Range, t: Range) {
    r.end != INFINITY && r.end + 1 < t.start
  }

  /** Sorted, disjoint, and with a gap between neighbours. */
  ghost predicate WellFormed(s: seq<Range>) {
    && (forall i | 0 <= i < |s| :: IsRange(s[i]))
    && (forall i, j {:trigger s[i], s[j]} | 0 <= i < j < |s| :: Apart(s[i], s[j]))
  }

  predicate Meets(r: Range, q: Range) {
    (r.end == INFINITY || q.start <= r.end) && (q.end == INFINITY || r.start <= q.end)
  }

  lemma MeetsIsIntersection(r: Range, q: Range)
    requires IsRange(r) && IsRange(q)
    ensures Meets(r, q) <==> RangeOffsets(r) * RangeOffsets(q) != iset{}
  {
    if Meets(r, q) {
      var x := if r.start <= q.start then q.start else r.start;
      assert x in RangeOffsets(r) * RangeOffsets(q);
    }
  }

  /** The case the scan reports for an entry that meets the range. */
  ghost function Case(r: Range, q: Range): Overlap
    requires Meets(r, q)
  {
    if RangeOffsets(r) == RangeOffsets(q) then Matching
    else if RangeOffsets(q) <= RangeOffsets(r) && q.end != INFINITY then OverlapContainsRange
    else if RangeOffsets(r) <= RangeOffsets(q) then OverlapIsContained
    else if r.start < q.start then OverlapStartsBefore
    else OverlapEndsAfter
  }

  /** Inclusion of ranges, read off their ends. */
  predicate Within(a: Range, b: Range) {
    b.start <= a.start && (b.end == INFINITY || (a.end != INFINITY && a.end <= b.end))
  }

  lemma WithinIsInclusion(a: Range, b: Range)
    requires IsRange(a) && IsRange(b)
    ensures Within(a, b) <==> RangeOffsets(a) <= RangeOffsets(b)
  {
    if RangeOffsets(a) <= RangeOffsets(b) {
      assert a.start in RangeOffsets(b);
      if b.end != INFINITY {
        var x := if a.end != INFINITY then a.end else (if a.start <= b.end then b.end + 1 else a.start);
        assert x in RangeOffsets(a);
        assert x in RangeOffsets(b);
      }
    }
  }

  lemma CaseByEnds(r: Range, q: Range)
    requires IsRange(r) && IsRange(q) && Meets(r, q)
    ensures Case(r, q) ==
            if r == q then Matching
            else if Within(q, r) && q.end != INFINITY then OverlapContainsRange
            else if Within(r, q) then OverlapIsContained
            else if r.start < q.start then OverlapStartsBefore
            else OverlapEndsAfter
  {
    WithinIsInclusion(r, q);
    WithinIsInclusion(q, r);
    assert RangeOffsets(r) == RangeOffsets(q) <==> Within(r, q) && Within(q, r);
  }

  /**
   * An entry containing the range is reported as such, unless both run to infinity and the entry
   * starts first: then it is reported as merely starting before the range.
   */
  lemma ContainmentReported(r: Range, q: Range)
    requires IsRange(r) && IsRange(q) && Meets(r, q) && RangeOffsets(q) < RangeOffsets(r)
    ensures Case(r, q) == OverlapContainsRange <==> q.end != INFINITY
    ensures q.end == INFINITY ==> Case(r, q) == OverlapStartsBefore
  {
    WithinIsInclusion(q, r);
    WithinIsInclusion(r, q);
  }

  lemma ContainmentMissed()
    ensures Case(Range(0, INFINITY), Range(1, INFINITY)) == OverlapStartsBefore
    ensures RangeOffsets(Range(1, INFINITY)) < RangeOffsets(Range(0, INFINITY))
  {
    CaseByEnds(Range(0, INFINITY), Range(1, INFINITY));
    WithinIsInclusion(Range(1, INFINITY), Range(0, INFINITY));
    WithinIsInclusion(Range(0, INFINITY), Range(1, INFINITY));
  }

  lemma HasConcat(a: seq<Range>, b: seq<Range>, x: int)
    ensures Has(a + b, x) <==> Has(a, x) || Has(b, x)
  {
    if Has(a, x) {
      var i :| 0 <= i < |a| && In(a[i], x);
      assert (a + b)[i] == a[i];
    }
    if Has(b, x) {
      var i :| 0 <= i < |b| && In(b[i], x);
      assert (a + b)[|a| + i] == b[i];
    }
  }

  /** Replacing the run of entries [k, k + n) by `mid` changes membership only there. */
  lemma HasSplice(s: seq<Range>, k: nat, n: nat, mid: seq<Range>, x: int)
    requires k + n <= |s|
    ensures Has(s, x) <==> Has(s[..k], x) || Has(s[k..k + n], x) || Has(s[k + n..], x)
    ensures Has(s[..k] + mid + s[k + n..], x) <==> Has(s[..k], x) || Has(mid, x) || Has(s[k + n..], x)
  {
    assert s == s[..k] + s[k..k + n] + s[k + n..];
    HasConcat(s[..k] + s[k..k + n], s[k + n..], x);
    HasConcat(s[..k], s[k..k + n], x);
    HasConcat(s[..k] + mid, s[k + n..], x);
    HasConcat(s[..k], mid, x);
  }

  /** What rl_remove leaves of an entry that meets the range. */
  function Remaining(r: Range, q: Range, ov: Overlap): seq<Range> {
    match ov
    case OverlapContainsRange =>
      if r.start == q.start then [Range(q.end + 1, r.end)]
      else if r.end == q.end then [Range(r.start, q.start - 1)]
      else [Range(r.start, q.start - 1), Range(q.end + 1, r.end)]
    case OverlapStartsBefore => [Range(r.start, q.start - 1)]
    case OverlapEndsAfter => [Range(if q.end == INFINITY then INFINITY else q.end + 1, r.end)]
    case _ => []
  }

  lemma RemainingTrims(r: Range, q: Range)
    requires IsRange(r) && IsRange(q) && Meets(r, q)
    ensures Trims(Remaining(r, q, Case(r, q)), r, q)
  {
    CaseByEnds(r, q);
    var rest := Remaining(r, q, Case(r, q));
    forall x | In(r, x) && !In(q, x) ensures Has(rest, x) {
      assert In(rest[0], x) || In(rest[|rest| - 1], x);
    }
  }

  /** Trimming entry `k` of a list to its part outside `q`. */
  ghost predicate Trims(mid: seq<Range>, r: Range, q: Range) {
    && |mid| <= 2
    && WellFormed(mid)
    && (forall m | 0 <= m < |mid| :: Within(mid[m], r) && !Meets(mid[m], q))
    && (forall x | In(r, x) && !In(q, x) :: Has(mid, x))
  }

  lemma TrimEntry(s: seq<Range>, k: nat, mid: seq<Range>, q: Range)
    requires WellFormed(s) && IsRange(q) && k < |s| && Trims(mid, s[k], q)
    ensures WellFormed(s[..k] + mid + s[k + 1..])
    ensures forall x | !In(q, x) :: Has(s[..k] + mid + s[k + 1..], x) <==> Has(s, x)
  {
    var t := s[..k] + mid + s[k + 1..];
    forall x | !In(q, x) ensures Has(t, x) <==> Has(s, x) {
      HasSplice(s, k, 1, mid, x);
      assert Has(s[k..k + 1], x) <==> In(s[k], x) by {
        assert s[k..k + 1][0] == s[k];
      }
    }
  }

  /** The range reaches no further than an entry that has its end. */
  lemma ClearBeyond(s: seq<Range>, k: nat, q: Range, i: nat)
    requires WellFormed(s) && k < i < |s| && EndsNoLater(q.end, s[k].end)
    ensures !Meets(s[i], q)
  {
  }

  /** Once entry `k` is trimmed, nothing up to it meets the range, and nothing at all if the range ends with it. */
  lemma TrimClears(s: seq<Range>, k: nat, mid: seq<Range>, q: Range)
    requires WellFormed(s) && k < |s| && Trims(mid, s[k], q)
    requires forall i | 0 <= i < k :: !Meets(s[i], q)
    ensures var t := s[..k] + mid + s[k + 1..];
            && (forall i | 0 <= i < k + |mid| :: !Meets(t[i], q))
            && (EndsNoLater(q.end, s[k].end) || k == |s| - 1 ==> forall i | 0 <= i < |t| :: !Meets(t[i], q))
  {
    var t := s[..k] + mid + s[k + 1..];
    if EndsNoLater(q.end, s[k].end) {
      forall i | k + |mid| <= i < |t| ensures !Meets(t[i], q) {
        assert t[i] == s[i - |mid| + 1];
        ClearBeyond(s, k, q, i - |mid| + 1);
      }
    }
  }

  // Adding.  The collapse loops take over the neighbour's bound without comparing it.

  function CollapseForwards(s: seq<Range>, k: nat): (t: seq<Range>)
    requires k < |s|
    ensures k < |t|
    decreases |s|
  {
    if k == |s| - 1 then s
    else if s[k].end != INFINITY && s[k].end < s[k + 1].start - 1 then s
    else CollapseForwards(s[..k] + [Range(s[k].start, s[k + 1].end)] + s[k + 2..], k)
  }

  function CollapseBackwards(s: seq<Range>, k: nat): (t: seq<Range>)
    requires k < |s|
    decreases k
  {
    if k == 0 then s
    else if s[k - 1].end < s[k].start - 1 then s
    else CollapseBackwards(s[..k - 1] + [Range(s[k - 1].start, s[k].end)] + s[k + 1..], k - 1)
  }

  /** What rl_add makes of a list when the scan stopped at entry `k` with result `ov`. */
  function Added(s: seq<Range>, q: Range, ov: Overlap, k: nat): (t: seq<Range>)
    requires s != [] ==> k < |s|
    requires s == [] ==> ov == NoOverlap
  {
    match ov
    case NoOverlap =>
      if s == [] then [q]
      else CollapseBackwards(CollapseForwards(s[..k + 1] + [q] + s[k + 1..], k + 1), k + 1)
    case Matching => s
    case OverlapContainsRange => s
    case OverlapIsContained => CollapseBackwards(CollapseForwards(s[k := q], k), k)
    case OverlapStartsBefore => CollapseForwards(s[k := Range(s[k].start, q.end)], k)
    case OverlapEndsAfter => CollapseBackwards(s[k := Range(q.start, s[k].end)], k)
  }

  /** The scan's answer, as a relation. */
  ghost predicate Scanned(s: seq<Range>, q: Range, ov: Overlap, k: nat) {
    && (s == [] ==> ov == NoOverlap)
    && (s != [] ==> k < |s|)
    && (ov != NoOverlap ==>
          Meets(s[k], q) && ov == Case(s[k], q) && forall i | 0 <= i < k :: !Meets(s[i], q))
    && (ov == NoOverlap ==> forall i | 0 <= i < |s| :: !Meets(s[i], q))
    && (ov == NoOverlap && s != [] ==> k == |s| - 1 || (q.end != INFINITY && q.end < s[k].start))
    && (ov == NoOverlap && s != [] ==>
          forall i | 0 <= i < k :: !(q.end != INFINITY && q.end < s[i].start))
  }

  /** What adding a range is for. */
  ghost predicate AddsRange(s: seq<Range>, q: Range, t: seq<Range>) {
    WellFormed(t) && Offsets(t) == Offsets(s) + RangeOffsets(q)
  }

  predicate EndsNoLater(e: int, f: int) {
    f == INFINITY || (e != INFINITY && e <= f)
  }

  predicate NotBefore(r: Range, q: Range) {
    r.end == INFINITY || q.start <= r.end
  }

  /** Entry `k` is the first that is not wholly before the range. */
  ghost predicate FirstReached(s: seq<Range>, q: Range, k: int) {
    0 <= k < |s| && NotBefore(s[k], q) && forall i | 0 <= i < k :: !NotBefore(s[i], q)
  }

  /**
   * Entry `k` meets the range, and either it reaches as far as the range does, or the entry after it
   * is out of touch with the range or reaches as far itself.
   */
  predicate WorksAt(s: seq<Range>, q: Range, k: int)
    requires 0 <= k < |s|
  {
    && Meets(s[k], q)
    && (|| EndsNoLater(q.end, s[k].end)
        || k + 1 == |s|
        || (q.end != INFINITY && q.end + 1 < s[k + 1].start)
        || EndsNoLater(q.end, s[k + 1].end))
  }

  /** When rl_add does what it is for: at the first entry not wholly before the range, if there is one. */
  ghost predicate AddWorks(s: seq<Range>, q: Range) {
    forall k {:trigger FirstReached(s, q, k)} | FirstReached(s, q, k) :: WorksAt(s, q, k)
  }

  lemma FirstUnique(s: seq<Range>, q: Range, j: nat, k: nat)
    requires FirstReached(s, q, j) && FirstReached(s, q, k)
    ensures j == k
  {
  }

  lemma AddWorksAt(s: seq<Range>, q: Range, k: nat)
    requires FirstReached(s, q, k)
    ensures AddWorks(s, q) <==> WorksAt(s, q, k)
  {
    forall j | FirstReached(s, q, j) ensures j == k {
      FirstUnique(s, q, j, k);
    }
  }

  lemma FirstMet(s: seq<Range>, q: Range, k: nat)
    requires WellFormed(s) && IsRange(q) && k < |s|
    requires Meets(s[k], q) && forall i | 0 <= i < k :: !Meets(s[i], q)
    ensures FirstReached(s, q, k)
  {
    forall i | 0 <= i < k ensures !NotBefore(s[i], q) {
      assert s[i].end + 1 < s[k].start;
    }
  }

  /** Entries of two lists, the second of which starts behind the end of the first. */
  lemma CrossGap(x: seq<Range>, y: seq<Range>, a: nat, b: nat)
    requires WellFormed(x) && WellFormed(y) && a < |x| && b < |y|
    requires x[|x| - 1].end != INFINITY && x[|x| - 1].end + 1 < y[0].start
    ensures Apart(x[a], y[b])
  {
    assert IsRange(x[|x| - 1]) && IsRange(y[0]);
    if a < |x| - 1 {
      Gaps(x, a, |x| - 1);
    }
    if 0 < b {
      Gaps(y, 0, b);
    }
  }

  lemma Gaps(s: seq<Range>, i: nat, j: nat)
    requires WellFormed(s) && i < j < |s|
    ensures Apart(s[i], s[j])
  {
  }

  lemma ConcatGap(x: seq<Range>, y: seq<Range>, a: nat, b: nat)
    requires WellFormed(x) && WellFormed(y) && a < b < |x| + |y|
    requires x != [] && y != [] ==> x[|x| - 1].end != INFINITY && x[|x| - 1].end + 1 < y[0].start
    ensures Apart((x + y)[a], (x + y)[b])
  {
    if b < |x| {
      Gaps(x, a, b);
    } else if |x| <= a {
      Gaps(y, a - |x|, b - |x|);
    } else {
      CrossGap(x, y, a, b - |x|);
    }
  }

  lemma ConcatWellFormed(x: seq<Range>, y: seq<Range>)
    requires WellFormed(x) && WellFormed(y)
    requires x != [] && y != [] ==> x[|x| - 1].end != INFINITY && x[|x| - 1].end + 1 < y[0].start
    ensures WellFormed(x + y)
  {
    var t := x + y;
    forall i | 0 <= i < |t| ensures IsRange(t[i]) {
      assert t[i] == if i < |x| then x[i] else y[i - |x|];
    }
    forall a, b | 0 <= a < b < |t| ensures Apart(t[a], t[b]) {
      ConcatGap(x, y, a, b);
    }
  }

  lemma TailWellFormed(s: seq<Range>, m: nat)
    requires WellFormed(s) && m <= |s|
    ensures WellFormed(s[m..])
  {
    var t := s[m..];
    forall i, j | 0 <= i < j < |t| ensures Apart(t[i], t[j]) {
      assert t[i] == s[m + i] && t[j] == s[m + j];
      assert Apart(s[m + i], s[m + j]);
    }
  }

  lemma FuseWellFormed(s: seq<Range>, j: nat, m: nat, r: Range)
    requires WellFormed(s) && IsRange(r) && j <= m <= |s|
    requires 0 < j ==> s[j - 1].end != INFINITY && s[j - 1].end + 1 < r.start
    requires m < |s| ==> r.end != INFINITY && r.end + 1 < s[m].start
    ensures WellFormed(s[..j] + [r] + s[m..])
  {
    TailWellFormed(s, m);
    ConcatWellFormed(s[..j], [r]);
    ConcatWellFormed(s[..j] + [r], s[m..]);
  }

  /** Entries [j, m) and the range fuse into `r`, clear of the rest. */
  lemma Fuse(s: seq<Range>, q: Range, j: nat, m: nat, r: Range)
    requires WellFormed(s) && IsRange(q) && IsRange(r) && j <= m <= |s|
    requires forall x :: In(r, x) <==> In(q, x) || Has(s[j..m], x)
    requires 0 < j ==> s[j - 1].end != INFINITY && s[j - 1].end + 1 < r.start
    requires m < |s| ==> r.end != INFINITY && r.end + 1 < s[m].start
    ensures AddsRange(s, q, s[..j] + [r] + s[m..])
  {
    FuseWellFormed(s, j, m, r);
    forall x ensures Has(s[..j] + [r] + s[m..], x) <==> Has(s, x) || In(q, x) {
      HasSplice(s, j, m - j, [r], x);
      assert Has([r], x) <==> In(r, x) by {
        assert [r][0] == r;
      }
    }
  }

  function Hull(a: Range, b: Range): Range {
    Range(if a.start < b.start then a.start else b.start, if EndsNoLater(a.end, b.end) then b.end else a.end)
  }

  predicate Touching(a: Range, b: Range) {
    (a.end == INFINITY || b.start <= a.end + 1) && (b.end == INFINITY || a.start <= b.end + 1)
  }

  lemma HullCovers(a: Range, b: Range, x: int)
    requires IsRange(a) && IsRange(b) && Touching(a, b)
    ensures In(Hull(a, b), x) <==> In(a, x) || In(b, x)
  {
  }

  lemma FuseOne(s: seq<Range>, q: Range, j: nat)
    requires WellFormed(s) && IsRange(q) && j < |s| && Touching(q, s[j])
    requires 0 < j ==> s[j - 1].end + 1 < q.start
    requires j + 1 < |s| ==> q.end != INFINITY && q.end + 1 < s[j + 1].start
    ensures AddsRange(s, q, s[..j] + [Hull(q, s[j])] + s[j + 1..])
  {
    if 0 < j { Gap(s, j - 1); }
    if j + 1 < |s| { Gap(s, j); }
    forall x ensures In(Hull(q, s[j]), x) <==> In(q, x) || Has(s[j..j + 1], x) {
      HullCovers(q, s[j], x);
      assert s[j..j + 1] == [s[j]] && [s[j]][0] == s[j];
    }
    Fuse(s, q, j, j + 1, Hull(q, s[j]));
  }

  lemma FuseTwo(s: seq<Range>, q: Range, j: nat)
    requires WellFormed(s) && IsRange(q) && j + 1 < |s| && Touching(q, s[j]) && Touching(q, s[j + 1])
    requires 0 < j ==> s[j - 1].end + 1 < q.start
    requires j + 2 < |s| ==> q.end != INFINITY && q.end + 1 < s[j + 2].start
    ensures AddsRange(s, q, s[..j] + [Hull(Hull(q, s[j]), s[j + 1])] + s[j + 2..])
  {
    if 0 < j { Gap(s, j - 1); }
    Gap(s, j);
    if j + 2 < |s| { Gap(s, j + 1); }
    var h := Hull(q, s[j]);
    forall x ensures In(Hull(h, s[j + 1]), x) <==> In(q, x) || Has(s[j..j + 2], x) {
      HullCovers(q, s[j], x);
      HullCovers(h, s[j + 1], x);
      assert s[j..j + 2] == [s[j]] + [s[j + 1]];
      HasConcat([s[j]], [s[j + 1]], x);
      assert [s[j]][0] == s[j] && [s[j + 1]][0] == s[j + 1];
    }
    Fuse(s, q, j, j + 2, Hull(h, s[j + 1]));
  }

  lemma FuseThree(s: seq<Range>, q: Range, j: nat)
    requires WellFormed(s) && IsRange(q) && j + 2 < |s|
    requires Touching(q, s[j]) && Touching(q, s[j + 1]) && Touching(q, s[j + 2])
    requires 0 < j ==> s[j - 1].end + 1 < q.start
    requires j + 3 < |s| ==> q.end != INFINITY && q.end + 1 < s[j + 3].start
    ensures AddsRange(s, q, s[..j] + [Hull(Hull(Hull(q, s[j]), s[j + 1]), s[j + 2])] + s[j + 3..])
  {
    if 0 < j { Gap(s, j - 1); }
    Gap(s, j);
    Gap(s, j + 1);
    if j + 3 < |s| { Gap(s, j + 2); }
    var h := Hull(q, s[j]);
    var h2 := Hull(h, s[j + 1]);
    forall x ensures In(Hull(h2, s[j + 2]), x) <==> In(q, x) || Has(s[j..j + 3], x) {
      HullCovers(q, s[j], x);
      HullCovers(h, s[j + 1], x);
      HullCovers(h2, s[j + 2], x);
      assert s[j..j + 3] == [s[j]] + [s[j + 1]] + [s[j + 2]];
      HasConcat([s[j]], [s[j + 1]], x);
      HasConcat([s[j]] + [s[j + 1]], [s[j + 2]], x);
      assert [s[j]][0] == s[j] && [s[j + 1]][0] == s[j + 1] && [s[j + 2]][0] == s[j + 2];
    }
    Fuse(s, q, j, j + 3, Hull(h2, s[j + 2]));
  }

  lemma Gap(s: seq<Range>, i: nat)
    requires WellFormed(s) && i + 1 < |s|
    ensures s[i].end != INFINITY && s[i].end + 1 < s[i + 1].start
  {
    Gaps(s, i, i + 1);
  }

  ghost predicate InTouch(r: Range, next: Range) {
    r.end == INFINITY || next.start - 1 <= r.end
  }

  /** On an otherwise well-formed list the forward loop absorbs at most one entry. */
  lemma ForwardsOnce(s: seq<Range>, k: nat, r: Range)
    requires WellFormed(s) && k < |s|
    ensures CollapseForwards(s[k := r], k) ==
            if k + 1 < |s| && InTouch(r, s[k + 1]) then s[..k] + [Range(r.start, s[k + 1].end)] + s[k + 2..]
            else s[..k] + [r] + s[k + 1..]
  {
    assert s[k := r] == s[..k] + [r] + s[k + 1..];
    if k + 1 < |s| && InTouch(r, s[k + 1]) {
      var u := s[..k] + [Range(r.start, s[k + 1].end)] + s[k + 2..];
      assert s[k := r][..k] + [Range(r.start, s[k + 1].end)] + s[k := r][k + 2..] == u;
      assert CollapseForwards(u, k) == u;
    }
  }

  /** Likewise the backward loop. */
  lemma BackwardsOnce(s: seq<Range>, k: nat, r: Range, tail: seq<Range>)
    requires WellFormed(s) && k <= |s|
    ensures CollapseBackwards(s[..k] + [r] + tail, k) ==
            if 0 < k && r.start - 1 <= s[k - 1].end then s[..k - 1] + [Range(s[k - 1].start, r.end)] + tail
            else s[..k] + [r] + tail
  {
    var u := s[..k] + [r] + tail;
    if 0 < k && r.start - 1 <= s[k - 1].end {
      var v := s[..k - 1] + [Range(s[k - 1].start, r.end)] + tail;
      assert u[..k - 1] + [Range(u[k - 1].start, u[k].end)] + u[k + 1..] == v;
      assert CollapseBackwards(v, k - 1) == v;
    }
  }

  lemma AddAtTail(s: seq<Range>, q: Range)
    requires WellFormed(s) && IsRange(q) && s != []
    requires s[|s| - 1].end != INFINITY && s[|s| - 1].end < q.start
    ensures AddsRange(s, q, Added(s, q, NoOverlap, |s| - 1))
  {
    var n := |s|;
    assert s[..n] + [q] + s[n..] == s[..n] + [q] + [];
    BackwardsOnce(s, n, q, []);
    assert s[n..] == [];
    if q.start - 1 <= s[n - 1].end {
      if 1 < n { Gap(s, n - 2); }
      FuseOne(s, q, n - 1);
    } else {
      Fuse(s, q, n, n, q);
    }
  }

  /** An entry beyond the range stops the scan, and the new entry lands on the wrong side of it. */
  lemma AddBeforeEntry(s: seq<Range>, q: Range, k: nat)
    requires WellFormed(s) && IsRange(q) && k < |s|
    requires q.end != INFINITY && q.end < s[k].start
    ensures !WellFormed(Added(s, q, NoOverlap, k))
  {
    var u := s[..k + 1] + [q] + s[k + 1..];
    assert CollapseForwards(u, k + 1) == u;
    BackwardsOnce(s, k + 1, q, s[k + 1..]);
    var t := Added(s, q, NoOverlap, k);
    if q.start - 1 <= s[k].end {
      assert t[k] == Range(s[k].start, q.end);
      assert !IsRange(t[k]);
    } else {
      assert t[k] == s[k];
      assert t[k].end == INFINITY && k + 1 < |t|;
    }
  }

  /** The case in which only the lower bound of an entry moves down. */
  lemma AddEndsAfter(s: seq<Range>, q: Range, k: nat)
    requires WellFormed(s) && IsRange(q) && FirstReached(s, q, k) && Meets(s[k], q)
    requires q.start <= s[k].start && EndsNoLater(q.end, s[k].end)
    ensures AddsRange(s, q, Added(s, q, OverlapEndsAfter, k))
  {
    var r := Range(q.start, s[k].end);
    assert s[k := r] == s[..k] + [r] + s[k + 1..];
    BackwardsOnce(s, k, r, s[k + 1..]);
    if 0 < k && r.start - 1 <= s[k - 1].end {
      EndsAfterTwo(s, q, k);
    } else {
      EndsAfterOne(s, q, k);
    }
  }

  lemma EndsAfterOne(s: seq<Range>, q: Range, k: nat)
    requires WellFormed(s) && IsRange(q) && k < |s| && Meets(s[k], q)
    requires q.start <= s[k].start && EndsNoLater(q.end, s[k].end)
    requires 0 < k ==> s[k - 1].end < q.start - 1
    ensures AddsRange(s, q, s[..k] + [Range(q.start, s[k].end)] + s[k + 1..])
  {
    if k + 1 < |s| { Gap(s, k); }
    assert Hull(q, s[k]) == Range(q.start, s[k].end);
    FuseOne(s, q, k);
  }

  lemma EndsAfterTwo(s: seq<Range>, q: Range, k: nat)
    requires WellFormed(s) && IsRange(q) && FirstReached(s, q, k) && Meets(s[k], q)
    requires q.start <= s[k].start && EndsNoLater(q.end, s[k].end)
    requires 0 < k && q.start - 1 <= s[k - 1].end
    ensures AddsRange(s, q, s[..k - 1] + [Range(s[k - 1].start, s[k].end)] + s[k + 1..])
  {
    if 1 < k { Gap(s, k - 2); }
    Gap(s, k - 1);
    if k + 1 < |s| { Gap(s, k); }
    assert !NotBefore(s[k - 1], q) && IsRange(s[k - 1]);
    assert Hull(Hull(q, s[k - 1]), s[k]) == Range(s[k - 1].start, s[k].end);
    FuseTwo(s, q, k - 1);
  }

  /** Widening entry `k` to `r`, which covers it and the range. */
  ghost predicate Widens(s: seq<Range>, q: Range, k: nat, r: Range)
    requires k < |s|
  {
    && Meets(s[k], q)
    && FirstReached(s, q, k)
    && r == Range(if s[k].start < q.start then s[k].start else q.start, q.end)
    && EndsNoLater(s[k].end, q.end)
  }

  lemma WidenClear(s: seq<Range>, q: Range, k: nat, r: Range)
    requires WellFormed(s) && IsRange(q) && k < |s| && Widens(s, q, k, r)
    requires k + 1 < |s| ==> !InTouch(r, s[k + 1])
    ensures AddsRange(s, q, CollapseBackwards(CollapseForwards(s[k := r], k), k))
  {
    ForwardsOnce(s, k, r);
    BackwardsOnce(s, k, r, s[k + 1..]);
    if 0 < k && r.start - 1 <= s[k - 1].end {
      WidenBack(s, q, k, r);
    } else {
      assert IsRange(s[k]) && Hull(q, s[k]) == r;
      FuseOne(s, q, k);
    }
  }

  lemma WidenBack(s: seq<Range>, q: Range, k: nat, r: Range)
    requires WellFormed(s) && IsRange(q) && k < |s| && Widens(s, q, k, r)
    requires k + 1 < |s| ==> !InTouch(r, s[k + 1])
    requires 0 < k && r.start - 1 <= s[k - 1].end
    ensures AddsRange(s, q, s[..k - 1] + [Range(s[k - 1].start, r.end)] + s[k + 1..])
  {
    Gap(s, k - 1);
    if 1 < k { Gap(s, k - 2); }
    assert !NotBefore(s[k - 1], q) && IsRange(s[k - 1]) && IsRange(s[k]);
    assert Hull(Hull(q, s[k - 1]), s[k]) == Range(s[k - 1].start, q.end);
    FuseTwo(s, q, k - 1);
  }

  lemma WidenTouching(s: seq<Range>, q: Range, k: nat, r: Range)
    requires WellFormed(s) && IsRange(q) && k + 1 < |s| && Widens(s, q, k, r)
    requires InTouch(r, s[k + 1]) && EndsNoLater(q.end, s[k + 1].end)
    ensures AddsRange(s, q, CollapseBackwards(CollapseForwards(s[k := r], k), k))
  {
    ForwardsOnce(s, k, r);
    BackwardsOnce(s, k, Range(r.start, s[k + 1].end), s[k + 2..]);
    if 0 < k && r.start - 1 <= s[k - 1].end {
      WidenThree(s, q, k, r);
    } else {
      WidenTwo(s, q, k, r);
    }
  }

  lemma WidenTwo(s: seq<Range>, q: Range, k: nat, r: Range)
    requires WellFormed(s) && IsRange(q) && k + 1 < |s| && Widens(s, q, k, r)
    requires InTouch(r, s[k + 1]) && EndsNoLater(q.end, s[k + 1].end)
    requires 0 < k ==> s[k - 1].end < r.start - 1
    ensures AddsRange(s, q, s[..k] + [Range(r.start, s[k + 1].end)] + s[k + 2..])
  {
    Gap(s, k);
    if k + 2 < |s| { Gap(s, k + 1); }
    assert Hull(Hull(q, s[k]), s[k + 1]) == Range(r.start, s[k + 1].end);
    FuseTwo(s, q, k);
  }

  lemma WidenThree(s: seq<Range>, q: Range, k: nat, r: Range)
    requires WellFormed(s) && IsRange(q) && 0 < k && k + 1 < |s| && Widens(s, q, k, r)
    requires InTouch(r, s[k + 1]) && EndsNoLater(q.end, s[k + 1].end)
    requires r.start - 1 <= s[k - 1].end
    ensures AddsRange(s, q, s[..k - 1] + [Range(s[k - 1].start, s[k + 1].end)] + s[k + 2..])
  {
    Gap(s, k);
    Gap(s, k - 1);
    if k + 2 < |s| { Gap(s, k + 1); }
    if 1 < k { Gap(s, k - 2); }
    assert IsRange(s[k - 1]) && IsRange(s[k]) && IsRange(s[k + 1]);
    assert Hull(Hull(Hull(q, s[k - 1]), s[k]), s[k + 1]) == Range(s[k - 1].start, s[k + 1].end);
    FuseThree(s, q, k - 1);
  }

  /** Taking over the bound of a shorter neighbour loses the offset just behind that neighbour. */
  lemma WidenTruncates(s: seq<Range>, q: Range, k: nat, r: Range)
    requires WellFormed(s) && IsRange(q) && k + 1 < |s| && Widens(s, q, k, r)
    requires InTouch(r, s[k + 1]) && !EndsNoLater(q.end, s[k + 1].end)
    ensures !AddsRange(s, q, CollapseBackwards(CollapseForwards(s[k := r], k), k))
  {
    var wide := Range(r.start, s[k + 1].end);
    var x := s[k + 1].end + 1;
    ForwardsOnce(s, k, r);
    BackwardsOnce(s, k, wide, s[k + 2..]);
    Gap(s, k);
    NoneAbove(s[..k], x);
    NoneBelow(s, k + 2, x);
    LostAt(s, q, s[..k], wide, s[k + 2..], x);
    if 0 < k {
      NoneAbove(s[..k - 1], x);
      LostAt(s, q, s[..k - 1], Range(s[k - 1].start, s[k + 1].end), s[k + 2..], x);
    }
  }

  lemma LostAt(s: seq<Range>, q: Range, left: seq<Range>, r: Range, right: seq<Range>, x: int)
    requires In(q, x) && !Has(left, x) && !In(r, x) && !Has(right, x)
    ensures !AddsRange(s, q, left + [r] + right)
  {
    HasConcat(left + [r], right, x);
    HasConcat(left, [r], x);
    assert x in RangeOffsets(q) && x !in Offsets(left + [r] + right);
  }

  lemma NoneAbove(s: seq<Range>, x: int)
    requires forall i | 0 <= i < |s| :: s[i].end != INFINITY && s[i].end < x
    ensures !Has(s, x)
  {
  }

  lemma NoneBelow(s: seq<Range>, m: nat, x: int)
    requires WellFormed(s) && 0 < m
    requires m <= |s| && s[m - 1].end != INFINITY && x <= s[m - 1].end + 1
    ensures !Has(s[m..], x)
  {
    forall i | 0 <= i < |s[m..]| ensures !In(s[m..][i], x) {
      assert s[m..][i] == s[m + i];
    }
  }

  /** rl_add adds the range exactly when AddWorks says so. */
  lemma AddIff(s: seq<Range>, q: Range, ov: Overlap, k: nat)
    requires WellFormed(s) && IsRange(q) && Scanned(s, q, ov, k)
    ensures AddsRange(s, q, Added(s, q, ov, k)) <==> AddWorks(s, q)
  {
    if ov == NoOverlap {
      if s == [] {
        Fuse(s, q, 0, 0, q);
        assert [] + [q] + s[0..] == [q];
      } else if q.end != INFINITY && q.end < s[k].start {
        AddBeforeEntry(s, q, k);
        AddWorksAt(s, q, k);
      } else {
        AddAtTail(s, q);
      }
    } else {
      AddToEntry(s, q, ov, k);
    }
  }

  lemma AddToEntry(s: seq<Range>, q: Range, ov: Overlap, k: nat)
    requires WellFormed(s) && IsRange(q) && Scanned(s, q, ov, k) && ov != NoOverlap
    ensures AddsRange(s, q, Added(s, q, ov, k)) <==> AddWorks(s, q)
  {
    CaseByEnds(s[k], q);
    FirstMet(s, q, k);
    AddWorksAt(s, q, k);
    match ov {
      case Matching =>
        AddNothing(s, q, k);
      case OverlapContainsRange =>
        AddNothing(s, q, k);
      case OverlapIsContained =>
        WidenIff(s, q, k, q);
      case OverlapStartsBefore =>
        WidenIff(s, q, k, Range(s[k].start, q.end));
        WidenForwards(s, q, k, Range(s[k].start, q.end));
      case OverlapEndsAfter =>
        AddEndsAfter(s, q, k);
    }
  }

  lemma AddNothing(s: seq<Range>, q: Range, k: nat)
    requires WellFormed(s) && IsRange(q) && k < |s| && Within(q, s[k])
    ensures AddsRange(s, q, s)
  {
    forall x | In(q, x) ensures Has(s, x) {
      assert In(s[k], x);
    }
  }

  /** Where the entry keeps its start, there is nothing to collapse backwards. */
  lemma WidenForwards(s: seq<Range>, q: Range, k: nat, r: Range)
    requires WellFormed(s) && IsRange(q) && k < |s| && Widens(s, q, k, r) && s[k].start < q.start
    ensures CollapseBackwards(CollapseForwards(s[k := r], k), k) == CollapseForwards(s[k := r], k)
  {
    ForwardsOnce(s, k, r);
    if 0 < k {
      Gap(s, k - 1);
    }
  }

  lemma WidenIff(s: seq<Range>, q: Range, k: nat, r: Range)
    requires WellFormed(s) && IsRange(q) && k < |s| && Widens(s, q, k, r)
    ensures AddsRange(s, q, CollapseBackwards(CollapseForwards(s[k := r], k), k)) <==> AddWorks(s, q)
  {
    AddWorksAt(s, q, k);
    if k + 1 == |s| || !InTouch(r, s[k + 1]) {
      WidenClear(s, q, k, r);
    } else {
      Gap(s, k);
      if EndsNoLater(q.end, s[k + 1].end) {
        WidenTouching(s, q, k, r);
      } else {
        WidenTruncates(s, q, k, r);
      }
    }
  }

  /** Adding at or behind the start of the last entry always works. */
  lemma TailAddWorks(s: seq<Range>, q: Range)
    requires WellFormed(s) && IsRange(q)
    requires s != [] ==> s[|s| - 1].start <= q.start
    ensures AddWorks(s, q)
  {
    assert forall k | 0 <= k < |s| - 1 :: s[k].end + 1 < s[|s| - 1].start;
  }

  /** Both together. */
  lemma AddOutcome(s: seq<Range>, q: Range, ov: Overlap, k: nat)
    requires WellFormed(s) && IsRange(q) && Scanned(s, q, ov, k)
    ensures AddsRange(s, q, Added(s, q, ov, k)) <==> AddWorks(s, q)
    ensures s == [] || s[|s| - 1].start <= q.start ==> AddWorks(s, q)
  {
    AddIff(s, q, ov, k);
    if s == [] || s[|s| - 1].start <= q.start {
      TailAddWorks(s, q);
    }
  }

  /** The two ways of failing: a range before an entry, and a range across two short entries. */
  lemma AddCanFail()
    ensures var s := [Range(10, 20)];
            WellFormed(s) && !AddWorks(s, Range(1, 2))
    ensures var s := [Range(10, 20), Range(30, 40)];
            WellFormed(s) && !AddWorks(s, Range(5, 50))
  {
    var s, q := [Range(10, 20), Range(30, 40)], Range(5, 50);
    assert s[0] == Range(10, 20) && s[1] == Range(30, 40);
    AddWorksAt(s, q, 0);
    AddWorksAt([Range(10, 20)], Range(1, 2), 0);
  }

  datatype Op = AddOp(range: Range) | RemoveOp(range: Range)

  /** The set of offsets after some operations. */
  ghost function Performed(offsets: iset<int>, ops: seq<Op>): iset<int> {
    if ops == [] then offsets
    else
      var before, op := Performed(offsets, ops[..|ops| - 1]), ops[|ops| - 1];
      if op.AddOp? then before + RangeOffsets(op.range) else before - RangeOffsets(op.range)
  }

  class RangeListHead {
    var ranges: seq<Range>

    constructor ()
      ensures ranges == [] && WellFormed(ranges)
    {
      ranges := [];
    }

    /** rl_scan_from: the first entry at or after `from` that meets the range, and how. */
    method ScanFrom(start: int, end: int, from: nat) returns (ov: Overlap, k: nat)
      requires WellFormed(ranges) && IsRange(Range(start, end))
      requires from < |ranges|
      ensures from <= k < |ranges|
      ensures forall i | from <= i < k :: !Meets(ranges[i], Range(start, end))
      ensures ov == NoOverlap <==> forall i | from <= i < |ranges| :: !Meets(ranges[i], Range(start, end))
      ensures ov == NoOverlap ==> k == |ranges| - 1 || (end != INFINITY && end < ranges[k].start)
      ensures ov == NoOverlap ==> forall i | from <= i < k :: !(end != INFINITY && end < ranges[i].start)
      ensures ov != NoOverlap ==> Meets(ranges[k], Range(start, end)) && ov == Case(ranges[k], Range(start, end))
    {
      k := from;
      while true
        invariant from <= k < |ranges|
        invariant forall i | from <= i < k :: !Meets(ranges[i], Range(start, end))
        invariant forall i | from <= i < k :: !(end != INFINITY && end < ranges[i].start)
        decreases |ranges| - k
      {
        var range := ranges[k];
        if (range.end != INFINITY && start > range.end) || (end != INFINITY && range.start > end) {
          if end != INFINITY && range.start > end {
            return NoOverlap, k;
          }
          if k == |ranges| - 1 {
            return NoOverlap, k;
          }
          k := k + 1;
          continue;
        }
        CaseByEnds(range, Range(start, end));
        if range.start == start && range.end == end {
          return Matching, k;
        }
        if range.start <= start && end != INFINITY && (range.end >= end || range.end == INFINITY) {
          return OverlapContainsRange, k;
        }
        if start <= range.start && (end == INFINITY || (range.end != INFINITY && end >= range.end)) {
          return OverlapIsContained, k;
        }
        if range.start < start && (range.end >= start || range.end == INFINITY) {
          return OverlapStartsBefore, k;
        }
        // The last test of the source cannot fail, so the scan never spins on one entry.
        assert range.start > start && end != INFINITY && (range.end > end || range.end == INFINITY);
        return OverlapEndsAfter, k;
      }
    }

    /** rl_scan: the same from the head of the list, which may be empty. */
    method Scan(start: int, end: int) returns (ov: Overlap, k: nat)
      requires WellFormed(ranges) && IsRange(Range(start, end))
      ensures ov == NoOverlap <==> Offsets(ranges) * RangeOffsets(Range(start, end)) == iset{}
      ensures Scanned(ranges, Range(start, end), ov, k)
    {
      if ranges == [] {
        return NoOverlap, 0;
      }
      ov, k := ScanFrom(start, end, 0);
      forall i | 0 <= i < |ranges| {
        MeetsIsIntersection(ranges[i], Range(start, end));
      }
      if ov != NoOverlap {
        ghost var x :| x in RangeOffsets(ranges[k]) * RangeOffsets(Range(start, end));
        assert Has(ranges, x);
      }
    }

    /**
     * One turn of the loop of rl_remove: entry `k` is dropped, shrunk or split, and the scan goes on
     * behind it only where the range may reach further.
     */
    method RemoveOverlap(start: int, end: int, ov: Overlap, k: nat) returns (next: nat, more: bool)
      requires WellFormed(ranges) && IsRange(Range(start, end))
      requires k < |ranges| && Meets(ranges[k], Range(start, end)) && ov == Case(ranges[k], Range(start, end))
      requires forall i | 0 <= i < k :: !Meets(ranges[i], Range(start, end))
      modifies this
      ensures WellFormed(ranges)
      ensures forall x | !In(Range(start, end), x) :: Has(ranges, x) <==> old(Has(ranges, x))
      ensures next <= |ranges|
      ensures more ==> next < |ranges| && |ranges| - next < old(|ranges|) - k
      ensures forall i | 0 <= i < (if more then next else |ranges|) :: !Meets(ranges[i], Range(start, end))
    {
      ghost var q := Range(start, end);
      var overlap := ranges[k];
      CaseByEnds(overlap, q);
      var rest: seq<Range> := [];
      next, more := k, false;
      match ov {
        case Matching =>
        case OverlapContainsRange =>
          if overlap.start == start {
            rest := [Range(end + 1, overlap.end)];
          } else if overlap.end == end {
            rest := [Range(overlap.start, start - 1)];
          } else {
            rest := [Range(overlap.start, start - 1), Range(end + 1, overlap.end)];
          }
        case OverlapIsContained =>
          more := k != |ranges| - 1;
        case OverlapStartsBefore =>
          rest := [Range(overlap.start, start - 1)];
          next, more := k + 1, k != |ranges| - 1;
        case OverlapEndsAfter =>
          rest := [Range(if end == INFINITY then INFINITY else end + 1, overlap.end)];
      }
      RemainingTrims(overlap, q);
      TrimEntry(ranges, k, rest, q);
      TrimClears(ranges, k, rest, q);
      ranges := ranges[..k] + rest + ranges[k + 1..];
    }

    /** rl_remove: exactly the set difference, on any well-formed list. */
    method Remove(start: int, end: int)
      requires WellFormed(ranges) && IsRange(Range(start, end))
      modifies this
      ensures WellFormed(ranges)
      ensures Offsets(ranges) == old(Offsets(ranges)) - RangeOffsets(Range(start, end))
    {
      if ranges == [] {
        return;
      }
      ghost var q := Range(start, end);
      var range := 0;
      var moretotest := true;
      while moretotest
        invariant WellFormed(ranges)
        invariant forall x | !In(q, x) :: Has(ranges, x) <==> old(Has(ranges, x))
        invariant 0 <= range <= |ranges|
        invariant forall i | 0 <= i < range :: !Meets(ranges[i], q)
        invariant moretotest ==> range < |ranges|
        invariant !moretotest ==> forall i | 0 <= i < |ranges| :: !Meets(ranges[i], q)
        decreases moretotest, |ranges| - range
      {
        var ov, k := ScanFrom(start, end, range);
        if ov == NoOverlap {
          break;
        }
        range, moretotest := RemoveOverlap(start, end, ov, k);
      }
    }

    method CollapseForwardsAt(k: nat)
      requires k < |ranges|
      modifies this
      ensures ranges == CollapseForwards(old(ranges), k)
    {
      while k != |ranges| - 1
        invariant k < |ranges|
        invariant CollapseForwards(ranges, k) == CollapseForwards(old(ranges), k)
        decreases |ranges|
      {
        var range, next := ranges[k], ranges[k + 1];
        if range.end != INFINITY && range.end < next.start - 1 {
          return;
        }
        ranges := ranges[..k] + [Range(range.start, next.end)] + ranges[k + 2..];
      }
    }

    method CollapseBackwardsAt(entry: nat)
      requires entry < |ranges|
      modifies this
      ensures ranges == CollapseBackwards(old(ranges), entry)
    {
      var k := entry;
      while k != 0
        invariant 0 <= k < |ranges|
        invariant CollapseBackwards(ranges, k) == CollapseBackwards(old(ranges), entry)
      {
        var prev, range := ranges[k - 1], ranges[k];
        if prev.end < range.start - 1 {
          return;
        }
        ranges := ranges[..k - 1] + [Range(prev.start, range.end)] + ranges[k + 1..];
        k := k - 1;
      }
    }

    /** The six cases of rl_add. */
    method AddOverlap(q: Range, ov: Overlap, k: nat)
      requires ranges != [] ==> k < |ranges|
      requires ranges == [] ==> ov == NoOverlap
      modifies this
      ensures ranges == Added(old(ranges), q, ov, k)
    {
      match ov {
        case NoOverlap =>
          if ranges != [] {
            ranges := ranges[..k + 1] + [q] + ranges[k + 1..];
            CollapseForwardsAt(k + 1);
            CollapseBackwardsAt(k + 1);
          } else {
            ranges := [q];
          }
        case Matching =>
        case OverlapContainsRange =>
        case OverlapIsContained =>
          ranges := ranges[k := q];
          CollapseForwardsAt(k);
          CollapseBackwardsAt(k);
        case OverlapStartsBefore =>
          ranges := ranges[k := ranges[k].(end := q.end)];
          CollapseForwardsAt(k);
        case OverlapEndsAfter =>
          ranges := ranges[k := ranges[k].(start := q.start)];
          CollapseBackwardsAt(k);
      }
    }

    /** rl_add: the union, exactly when AddWorks; in particular for every addition at the tail. */
    method Add(start: int, end: int)
      requires WellFormed(ranges) && IsRange(Range(start, end))
      modifies this
      ensures AddsRange(old(ranges), Range(start, end), ranges) <==> AddWorks(old(ranges), Range(start, end))
      ensures old(ranges == [] || ranges[|ranges| - 1].start <= start) ==>
                AddsRange(old(ranges), Range(start, end), ranges)
    {
      var q := Range(start, end);
      var ov, k := Scan(start, end);
      AddOutcome(ranges, q, ov, k);
      AddOverlap(q, ov, k);
    }

    /** Whether adding a range will work, as a caller can tell beforehand. */
    method CanAdd(q: Range) returns (can: bool)
      ensures can <==> AddWorks(ranges, q)
    {
      var k := 0;
      while k < |ranges| && !NotBefore(ranges[k], q)
        invariant 0 <= k <= |ranges|
        invariant forall i | 0 <= i < k :: !NotBefore(ranges[i], q)
      {
        k := k + 1;
      }
      if k < |ranges| {
        AddWorksAt(ranges, q, k);
        can := WorksAt(ranges, q, k);
      } else {
        can := true;
      }
    }

    /**
     * Any number of removals and of additions that work: the list stays well formed and denotes exactly
     * the set they describe. The run ends early only at an addition that does not work, which is never
     * one at the tail.
     */
    method Run(ops: seq<Op>) returns (n: nat)
      requires WellFormed(ranges) && forall op | op in ops :: IsRange(op.range)
      modifies this
      ensures WellFormed(ranges) && n <= |ops|
      ensures Offsets(ranges) == Performed(old(Offsets(ranges)), ops[..n])
      ensures n < |ops| ==> ops[n].AddOp? && !AddWorks(ranges, ops[n].range)
      ensures n < |ops| ==> ranges != [] && ops[n].range.start < ranges[|ranges| - 1].start
    {
      n := 0;
      while n < |ops|
        invariant n <= |ops| && WellFormed(ranges)
        invariant Offsets(ranges) == Performed(old(Offsets(ranges)), ops[..n])
      {
        var op := ops[n];
        assert ops[..n + 1][..n] == ops[..n];
        if op.RemoveOp? {
          Remove(op.range.start, op.range.end);
        } else {
          var can := CanAdd(op.range);
          if !can {
            if ranges == [] || ranges[|ranges| - 1].start <= op.range.start {
              TailAddWorks(ranges, op.range);
            }
            return;
          }
          Add(op.range.start, op.range.end);
        }
        n := n + 1;
      }
    }

    /** hfs_update: the size to record on disk is the first invalid offset, if there is one. */
    method SizeToRecord(size: nat) returns (diskSize: nat)
      requires WellFormed(ranges)
      ensures forall x | 0 <= x < diskSize :: x !in Offsets(ranges)
      ensures if Offsets(ranges) == iset{} then diskSize == size else diskSize in Offsets(ranges)
    {
      diskSize := if ranges != [] then ranges[0].start else size;
      if ranges != [] {
        assert In(ranges[0], diskSize);
        assert diskSize in Offsets(ranges);
      }
    }
  }
}
