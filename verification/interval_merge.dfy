/** The interval merge of add-by-geo.py: one left-to-right scan over the
    ranges (sorted by start) that folds each range into the last
    accumulated one when it overlaps or touches it. */
module IntervalMerge {
  import opened Py

  /** A closed range of integer-encoded addresses, `(start, end)`. */
  datatype Range = Range(start: int, end: int)

  predicate WellFormed(r: Range) { r.start <= r.end }

  predicate InRange(r: Range, x: int) { r.start <= x <= r.end }

  predicate AllWellFormed(rs: seq<Range>) {
    forall i :: 0 <= i < |rs| ==> WellFormed(rs[i])
  }

  predicate SortedByStart(rs: seq<Range>) {
    forall i, j :: 0 <= i < j < |rs| ==> rs[i].start <= rs[j].start
  }

  /** Every address some range of `rs` holds. */
  ghost predicate Covers(rs: seq<Range>, x: int) {
    exists i :: 0 <= i < |rs| && InRange(rs[i], x)
  }

  /** Well-formed ranges no two of which overlap or touch: a later range
      starts at least two past the end of an earlier one. */
  predicate Separated(rs: seq<Range>) {
    && AllWellFormed(rs)
    && forall i, j :: 0 <= i < j < |rs| ==> rs[i].end + 1 < rs[j].start
  }

  function Last(rs: seq<Range>): Range
    requires rs != []
  {
    rs[|rs| - 1]
  }

  /** One iteration of the scan: fold `r` into the last accumulated range
      when it starts at most one past that range's end, else append it. */
  function Step(acc: seq<Range>, r: Range): seq<Range>
    requires acc != []
  {
    var last := Last(acc);
    if r.start <= last.end + 1 then acc[..|acc| - 1] + [Range(last.start, Max(r.end, last.end))]
    else acc + [r]
  }

  /** The accumulator, seeded with `first`, after the scan has visited the
      ranges of `visited` in order. */
  function Scan(first: Range, visited: seq<Range>): (acc: seq<Range>)
    ensures 1 <= |acc| <= |visited| + 1
    decreases |visited|
  {
    if visited == [] then [first]
    else Step(Scan(first, visited[..|visited| - 1]), visited[|visited| - 1])
  }

  /** The merge: the accumulator starts as the first range, and the scan
      then visits every range, the first one included. */
  function Merge(rs: seq<Range>): seq<Range> {
    if rs == [] then [] else Scan(rs[0], rs)
  }

  /** The scan written as the loop it is: an index running over all the
      ranges and a list whose last element is replaced or extended. */
  method MergeScan(ipRanges: seq<Range>) returns (resa: seq<Range>)
    ensures resa == Merge(ipRanges)
    ensures ipRanges == [] <==> resa == []
    ensures SortedByStart(ipRanges) && AllWellFormed(ipRanges) ==>
              && Separated(resa)
              && |resa| <= |ipRanges|
              && forall x :: Covers(resa, x) <==> Covers(ipRanges, x)
  {
    if |ipRanges| == 0 {
      return [];
    }
    resa := [ipRanges[0]];
    var i := 0;
    while i < |ipRanges|
      invariant 0 <= i <= |ipRanges|
      invariant resa == Scan(ipRanges[0], ipRanges[..i])
    {
      var r := ipRanges[i];
      var last := resa[|resa| - 1];
      if r.start <= last.end + 1 {
        resa := resa[..|resa| - 1] + [Range(last.start, Max(r.end, last.end))];
      } else {
        resa := resa + [r];
      }
      assert ipRanges[..i + 1][..i] == ipRanges[..i];
      i := i + 1;
    }
    assert ipRanges[..i] == ipRanges;
    if SortedByStart(ipRanges) && AllWellFormed(ipRanges) {
      MergeSeparated(ipRanges);
      MergeNoLonger(ipRanges);
      MergeCovers(ipRanges);
    }
  }

  lemma CoversSnoc(s: seq<Range>, r: Range)
    ensures forall x :: Covers(s + [r], x) <==> Covers(s, x) || InRange(r, x)
  {
    forall x
      ensures Covers(s + [r], x) <==> Covers(s, x) || InRange(r, x)
    {
      if Covers(s, x) {
        var i :| 0 <= i < |s| && InRange(s[i], x);
        assert (s + [r])[i] == s[i];
      }
      if InRange(r, x) {
        assert (s + [r])[|s|] == r;
      }
      if Covers(s + [r], x) {
        var i :| 0 <= i < |s + [r]| && InRange((s + [r])[i], x);
        if i < |s| {
          assert s[i] == (s + [r])[i];
        }
      }
    }
  }

  /** Folding `r` into the last range covers exactly the union of the two:
      `r` starts no earlier than the last range and at most one past its end. */
  lemma StepCovers(acc: seq<Range>, r: Range)
    requires acc != [] && WellFormed(Last(acc)) && WellFormed(r)
    requires Last(acc).start <= r.start
    ensures forall x :: Covers(Step(acc, r), x) <==> Covers(acc, x) || InRange(r, x)
  {
    var last := Last(acc);
    if r.start <= last.end + 1 {
      var init := acc[..|acc| - 1];
      var m := Range(last.start, Max(r.end, last.end));
      assert acc == init + [last];
      CoversSnoc(init, last);
      CoversSnoc(init, m);
      assert forall x :: InRange(m, x) <==> InRange(last, x) || InRange(r, x);
    } else {
      CoversSnoc(acc, r);
    }
  }

  lemma ScanUnfold(rs: seq<Range>, i: nat)
    requires 1 <= i <= |rs|
    ensures Scan(rs[0], rs[..i]) == Step(Scan(rs[0], rs[..i - 1]), rs[i - 1])
  {
    assert rs[..i][..i - 1] == rs[..i - 1];
  }

  /** What holds after the scan has visited the first `i` ranges of a
      sorted, well-formed input. */
  lemma {:induction false} ScanInvariant(rs: seq<Range>, i: nat)
    requires rs != [] && SortedByStart(rs) && AllWellFormed(rs)
    requires i <= |rs|
    ensures Separated(Scan(rs[0], rs[..i]))
    ensures forall k :: i <= k < |rs| ==> Last(Scan(rs[0], rs[..i])).start <= rs[k].start
    ensures |Scan(rs[0], rs[..i])| <= Max(i, 1)
  {
    if i == 0 {
      assert rs[..0] == [];
    } else {
      ScanInvariant(rs, i - 1);
      ScanUnfold(rs, i);
      var acc := Scan(rs[0], rs[..i - 1]);
      var r := rs[i - 1];
      if i == 1 {
        // revisiting the first range leaves the accumulator unchanged
        assert rs[..0] == [];
        assert acc == [rs[0]];
      }
      StepSeparated(acc, r);
    }
  }

  /** After visiting the first `i` ranges the accumulator covers the first
      range and every visited one, and nothing else. */
  lemma {:induction false} ScanCovers(rs: seq<Range>, i: nat)
    requires rs != [] && SortedByStart(rs) && AllWellFormed(rs)
    requires i <= |rs|
    ensures forall x :: Covers(Scan(rs[0], rs[..i]), x) <==> InRange(rs[0], x) || Covers(rs[..i], x)
  {
    if i == 0 {
      assert rs[..0] == [];
      CoversSnoc([], rs[0]);
    } else {
      ScanCovers(rs, i - 1);
      ScanInvariant(rs, i - 1);
      ScanUnfold(rs, i);
      var acc := Scan(rs[0], rs[..i - 1]);
      StepCovers(acc, rs[i - 1]);
      assert rs[..i] == rs[..i - 1] + [rs[i - 1]];
      CoversSnoc(rs[..i - 1], rs[i - 1]);
    }
  }

  lemma StepSeparated(acc: seq<Range>, r: Range)
    requires acc != [] && Separated(acc) && WellFormed(r)
    requires Last(acc).start <= r.start
    ensures Separated(Step(acc, r))
    ensures Last(Step(acc, r)).start == if r.start <= Last(acc).end + 1 then Last(acc).start else r.start
  {
    var last := Last(acc);
    var out := Step(acc, r);
    if r.start > last.end + 1 {
      forall k | 0 <= k < |acc|
        ensures acc[k].end + 1 < r.start
      {
        if k < |acc| - 1 {
          assert acc[k].end + 1 < last.start;
        }
      }
    }
  }

  /** The merge of sorted well-formed ranges is separated, hence sorted,
      and consecutive outputs are at least two apart. */
  lemma MergeSeparated(rs: seq<Range>)
    requires SortedByStart(rs) && AllWellFormed(rs)
    ensures Separated(Merge(rs))
    ensures SortedByStart(Merge(rs))
    ensures forall k :: 0 <= k < |Merge(rs)| - 1 ==> Merge(rs)[k + 1].start > Merge(rs)[k].end + 1
  {
    if rs != [] {
      ScanInvariant(rs, |rs|);
      assert rs[..|rs|] == rs;
    }
  }

  /** The merge covers exactly the addresses the input ranges cover. */
  lemma MergeCovers(rs: seq<Range>)
    requires SortedByStart(rs) && AllWellFormed(rs)
    ensures forall x :: Covers(Merge(rs), x) <==> Covers(rs, x)
  {
    if rs != [] {
      ScanCovers(rs, |rs|);
      assert rs[..|rs|] == rs;
      assert forall x :: InRange(rs[0], x) ==> Covers(rs, x);
    }
  }

  /** The merge never has more ranges than its input. */
  lemma MergeNoLonger(rs: seq<Range>)
    requires SortedByStart(rs) && AllWellFormed(rs)
    ensures |Merge(rs)| <= |rs|
  {
    if rs != [] {
      ScanInvariant(rs, |rs|);
      assert rs[..|rs|] == rs;
    }
  }

  /** Ranges that are already separated come out of the merge unchanged. */
  lemma {:induction false} ScanSeparated(rs: seq<Range>, i: nat)
    requires rs != [] && Separated(rs) && i <= |rs|
    ensures Scan(rs[0], rs[..i]) == rs[..Max(i, 1)]
  {
    if i == 0 {
      assert rs[..0] == [];
    } else {
      ScanSeparated(rs, i - 1);
      ScanUnfold(rs, i);
      if i == 1 {
        assert rs[..0] == [] && rs[..1] == [rs[0]];
        assert WellFormed(rs[0]);
      } else {
        var acc := rs[..i - 1];
        assert Last(acc) == rs[i - 2];
        assert rs[i - 2].end + 1 < rs[i - 1].start;
        assert rs[..i] == acc + [rs[i - 1]];
      }
    }
  }

  lemma MergeOfSeparated(rs: seq<Range>)
    requires Separated(rs)
    ensures Merge(rs) == rs
  {
    if rs != [] {
      ScanSeparated(rs, |rs|);
      assert rs[..|rs|] == rs;
    }
  }

  /** Merging a merged list changes nothing. */
  lemma MergeIdempotent(rs: seq<Range>)
    requires SortedByStart(rs) && AllWellFormed(rs)
    ensures Merge(Merge(rs)) == Merge(rs)
  {
    MergeSeparated(rs);
    MergeOfSeparated(Merge(rs));
  }

  /** Touching ranges are joined: (1,10) and (11,20) become (1,20). */
  lemma MergeJoinsAdjacent()
    ensures Merge([Range(1, 10), Range(11, 20)]) == [Range(1, 20)]
  {
    var rs := [Range(1, 10), Range(11, 20)];
    assert rs[..2] == rs;
    ScanUnfold(rs, 2);
    ScanUnfold(rs, 1);
    assert rs[..0] == [];
    assert Scan(rs[0], rs[..1]) == [Range(1, 10)];
  }

  /** A first range whose start lies more than one past its end is not
      folded into itself when the scan revisits it, so it is emitted twice. */
  lemma MergeRepeatsInvertedFirst()
    ensures Merge([Range(5, 1)]) == [Range(5, 1), Range(5, 1)]
  {
    var r := Range(5, 1);
    assert [r][..0] == [];
    assert Scan(r, []) == [r];
    assert Scan(r, [r]) == Step([r], r);
  }
}
