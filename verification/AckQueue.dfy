/** Which sequence numbers arrived: what an endpoint reports back as ACK ranges and NACKs. */
module AckQueues {
  import opened Frames

  type Range = (nat, nat)

  /** The numbers a range names, in order. */
  function Numbers(range: Range): (s: seq<nat>)
    ensures |s| == if range.0 <= range.1 then range.1 - range.0 + 1 else 0
    ensures forall i :: 0 <= i < |s| ==> s[i] == range.0 + i
    decreases range.1
  {
    if range.0 > range.1 then []
    else if range.0 == range.1 then [range.0]
    else Numbers((range.0, range.1 - 1)) + [range.1]
  }

  /** The numbers a list of ranges names, in order. */
  function Covered(ranges: seq<Range>): seq<nat> {
    if ranges == [] then [] else Covered(ranges[..|ranges| - 1]) + Numbers(ranges[|ranges| - 1])
  }

  /** The members of `s` from `lo` up to `hi`, in order. */
  function Listing(s: set<nat>, lo: nat, hi: nat): seq<nat> {
    if hi <= lo then [] else Listing(s, lo, hi - 1) + (if hi - 1 in s then [hi - 1] else [])
  }

  /** The numbers from `lo` up to `hi` that `s` lacks, in order. */
  function Gaps(s: set<nat>, lo: nat, hi: nat): seq<nat> {
    if hi <= lo then [] else Gaps(s, lo, hi - 1) + (if hi - 1 in s then [] else [hi - 1])
  }

  /** A scan comes upon `num`: the last range grows, or a new one begins. */
  function Extend(r: seq<Range>, num: nat): seq<Range> {
    if r == [] then [(num, num)]
    else if r[|r| - 1].1 + 1 == num then r[|r| - 1 := (r[|r| - 1].0, num)]
    else r + [(num, num)]
  }

  /** The ranges that a scan of `lo` up to `hi` collects. */
  function Ranges(s: set<nat>, lo: nat, hi: nat): seq<Range> {
    if hi <= lo then []
    else if hi - 1 in s then Extend(Ranges(s, lo, hi - 1), hi - 1)
    else Ranges(s, lo, hi - 1)
  }

  datatype AckState = AckState(lowest: nat, highest: nat, store: set<nat>) {
    function Add(sequence: nat): AckState {
      if lowest <= sequence && sequence !in store then
        AckState(lowest, if highest <= sequence then sequence + 1 else highest, store + {sequence})
      else
        this
    }

    /** What `Clear` returns, and what it leaves. */
    function Acks(): seq<Range> {
      Ranges(store, lowest, highest)
    }

    function Nacks(): seq<nat> {
      Gaps(store, lowest, highest)
    }

    function Cleared(): AckState {
      AckState(highest, highest, set s | s in store && !(lowest <= s < highest))
    }

    ghost predicate Valid() {
      lowest <= highest && forall s :: s in store ==> lowest <= s < highest
    }
  }

  const EmptyAcks := AckState(0, 0, {})

  class ACKQueue {
    var lowest: nat
    var highest: nat
    var storeSeq: set<nat>

    function Model(): AckState
      reads this
    {
      AckState(lowest, highest, storeSeq)
    }

    constructor ()
      ensures Model() == EmptyAcks
    {
      lowest, highest, storeSeq := 0, 0, {};
    }

    method Add(sequence: nat)
      modifies this
      ensures Model() == old(Model()).Add(sequence)
    {
      if lowest <= sequence && sequence !in storeSeq {
        if highest <= sequence {
          highest := sequence + 1;
        }
        storeSeq := storeSeq + {sequence};
      }
    }

    method Clear() returns (received: seq<Range>, missing: seq<nat>)
      requires Model().Valid()
      modifies this
      ensures received == old(Model()).Acks() && missing == old(Model()).Nacks()
      ensures Model() == old(Model()).Cleared() && Model().Valid()
    {
      received, missing := [], [];
      for i := lowest to highest
        invariant lowest == old(lowest) && highest == old(highest)
        invariant received == Ranges(old(storeSeq), lowest, i)
        invariant missing == Gaps(old(storeSeq), lowest, i)
        invariant storeSeq == set s | s in old(storeSeq) && !(lowest <= s < i)
      {
        if i in storeSeq {
          storeSeq := storeSeq - {i};
          if received == [] {
            received := [(i, i)];
          } else if received[|received| - 1].1 + 1 == i {
            received := received[|received| - 1 := (received[|received| - 1].0, i)];
          } else {
            received := received + [(i, i)];
          }
        } else {
          missing := missing + [i];
        }
      }
      lowest := highest;
    }
  }

  /** Ranges are sorted, and neighbours leave at least one number between them, so no
      two could be merged. */
  ghost predicate Separated(r: seq<Range>) {
    && (forall i :: 0 <= i < |r| ==> r[i].0 <= r[i].1)
    && (forall i, j :: 0 <= i < j < |r| ==> r[i].1 + 1 < r[j].0)
  }

  ghost predicate Names(r: seq<Range>, x: nat) {
    exists i :: 0 <= i < |r| && r[i].0 <= x <= r[i].1
  }

  ghost predicate Scanned(r: seq<Range>, lo: nat, hi: nat) {
    Separated(r) && forall i :: 0 <= i < |r| ==> lo <= r[i].0 && r[i].1 < hi
  }

  lemma ExtendIsScanned(r: seq<Range>, lo: nat, num: nat)
    requires Scanned(r, lo, num) && lo <= num
    ensures Scanned(r, lo, num + 1) && Scanned(Extend(r, num), lo, num + 1)
  {
  }

  lemma {:induction false} RangesAreSeparated(s: set<nat>, lo: nat, hi: nat)
    ensures Scanned(Ranges(s, lo, hi), lo, hi)
  {
    if lo < hi {
      RangesAreSeparated(s, lo, hi - 1);
      ExtendIsScanned(Ranges(s, lo, hi - 1), lo, hi - 1);
    }
  }

  /** A scan reports precisely the stored numbers, in sorted, disjoint, maximal ranges. */
  lemma {:induction false} RangesAreExact(s: set<nat>, lo: nat, hi: nat)
    ensures Separated(Ranges(s, lo, hi))
    ensures forall x: nat :: Names(Ranges(s, lo, hi), x) <==> lo <= x < hi && x in s
  {
    RangesAreSeparated(s, lo, hi);
    CoveredRanges(s, lo, hi);
    ListingIsSorted(s, lo, hi);
    forall x: nat
      ensures Names(Ranges(s, lo, hi), x) <==> lo <= x < hi && x in s
    {
      NamesIsCovered(Ranges(s, lo, hi), x);
    }
  }

  lemma NumbersHas(range: Range, x: nat)
    ensures x in Numbers(range) <==> range.0 <= x <= range.1
  {
    if range.0 <= x <= range.1 { assert Numbers(range)[x - range.0] == x; }
  }

  lemma {:induction false} NamesIsCovered(r: seq<Range>, x: nat)
    ensures Names(r, x) <==> x in Covered(r)
  {
    if r == [] { return; }
    var q, last := r[..|r| - 1], r[|r| - 1];
    NamesIsCovered(q, x);
    NumbersHas(last, x);
    assert x in Covered(r) <==> x in Covered(q) || x in Numbers(last);
    NamesSnoc(q, last, x);
    assert r == q + [last];
  }

  lemma NamesSnoc(q: seq<Range>, last: Range, x: nat)
    ensures Names(q + [last], x) <==> Names(q, x) || last.0 <= x <= last.1
  {
    var r := q + [last];
    assert r[|q|] == last;
    if Names(q, x) {
      var i :| 0 <= i < |q| && q[i].0 <= x <= q[i].1;
      assert r[i].0 <= x <= r[i].1;
    }
  }

  ghost predicate SameNames(p: seq<Range>, r: seq<Range>) {
    forall x: nat :: Names(p, x) <==> Names(r, x)
  }

  /** No other list of separated ranges names the same numbers. */
  lemma {:induction false} RangesAreUnique(p: seq<Range>, r: seq<Range>)
    requires Separated(p) && Separated(r) && SameNames(p, r)
    ensures p == r
    decreases |p|
  {
    SameEmpty(p, r);
    if p != [] {
      SameLast(p, r);
      RangesAreUnique(p[..|p| - 1], r[..|r| - 1]);
      assert p == p[..|p| - 1] + [p[|p| - 1]] && r == r[..|r| - 1] + [r[|r| - 1]];
    }
  }

  lemma SameEmpty(p: seq<Range>, r: seq<Range>)
    requires Separated(p) && Separated(r) && SameNames(p, r)
    ensures p == [] <==> r == []
  {
    if p != [] { assert Names(p, p[0].0); }
    if r != [] { assert Names(r, r[0].0); }
  }

  lemma SameLast(p: seq<Range>, r: seq<Range>)
    requires p != [] && r != [] && Separated(p) && Separated(r) && SameNames(p, r)
    ensures p[|p| - 1] == r[|r| - 1] && SameNames(p[..|p| - 1], r[..|r| - 1])
  {
    LastNamed(p, r);
    LastNamed(r, p);
    var p', r' := p[..|p| - 1], r[..|r| - 1];
    forall x: nat
      ensures Names(p', x) <==> Names(r', x)
    {
      NamedBeforeLast(p, x);
      NamedBeforeLast(r, x);
    }
  }

  lemma LastNamed(p: seq<Range>, r: seq<Range>)
    requires p != [] && r != [] && Separated(p) && Separated(r) && SameNames(p, r)
    ensures p[|p| - 1].1 <= r[|r| - 1].1
    ensures p[|p| - 1].1 == r[|r| - 1].1 ==> p[|p| - 1].0 >= r[|r| - 1].0
  {
    var a, b := p[|p| - 1], r[|r| - 1];
    assert Names(p, a.1);
    var i :| 0 <= i < |r| && r[i].0 <= a.1 <= r[i].1;
    if 0 < b.0 { assert !Names(r, b.0 - 1); }
  }

  lemma NamedBeforeLast(p: seq<Range>, x: nat)
    requires p != [] && Separated(p)
    ensures Names(p[..|p| - 1], x) <==> Names(p, x) && x < p[|p| - 1].0
  {
  }

  lemma CoveredUpdate(q: seq<Range>, r: Range)
    requires q != []
    ensures Covered(q[|q| - 1 := r]) == Covered(q[..|q| - 1]) + Numbers(r)
  {
    assert q[|q| - 1 := r][..|q| - 1] == q[..|q| - 1];
  }

  /** The last range grows by one number. */
  lemma CoveredGrows(q: seq<Range>, first: nat, last: nat)
    requires q != [] && q[|q| - 1] == (first, last) && first <= last
    ensures Covered(q[|q| - 1 := (first, last + 1)]) == Covered(q) + [last + 1]
  {
    CoveredUpdate(q, (first, last + 1));
    assert Numbers((first, last + 1)) == Numbers((first, last)) + [last + 1];
    Regrouped(Covered(q[..|q| - 1]), Numbers((first, last)), [last + 1]);
  }

  lemma CoveredBegins(q: seq<Range>, num: nat)
    ensures Covered(q + [(num, num)]) == Covered(q) + [num]
  {
    assert (q + [(num, num)])[..|q|] == q;
  }

  lemma ExtendIs(q: seq<Range>, num: nat, e: seq<Range>)
    requires e == Extend(q, num)
    ensures if q != [] && q[|q| - 1].1 + 1 == num then e == q[|q| - 1 := (q[|q| - 1].0, num)]
            else e == q + [(num, num)]
  {
  }

  lemma CoveredUpTo(s: set<nat>, lo: nat, hi: nat)
    requires lo <= hi && Covered(Ranges(s, lo, hi)) == Listing(s, lo, hi)
    ensures Covered(Ranges(s, lo, hi + 1)) == Listing(s, lo, hi + 1)
  {
    var q := Ranges(s, lo, hi);
    if hi in s {
      RangesAreSeparated(s, lo, hi);
      ExtendIs(q, hi, Extend(q, hi));
      if q != [] && q[|q| - 1].1 + 1 == hi {
        CoveredGrows(q, q[|q| - 1].0, q[|q| - 1].1);
      } else {
        CoveredBegins(q, hi);
      }
    } else {
      assert Listing(s, lo, hi) + [] == Listing(s, lo, hi);
    }
  }

  /** Read out again, the ranges list the stored numbers in ascending order. */
  lemma {:induction false} CoveredRanges(s: set<nat>, lo: nat, hi: nat)
    ensures Covered(Ranges(s, lo, hi)) == Listing(s, lo, hi)
  {
    if lo < hi {
      CoveredRanges(s, lo, hi - 1);
      CoveredUpTo(s, lo, hi - 1);
    }
  }

  ghost predicate Ascending(s: seq<nat>) {
    forall i, j :: 0 <= i < j < |s| ==> s[i] < s[j]
  }

  lemma AscendingJoin(a: seq<nat>, b: seq<nat>, m: nat)
    requires Ascending(a) && Ascending(b)
    requires (forall x: nat :: x in a ==> x < m) && (forall x: nat :: x in b ==> m <= x)
    ensures Ascending(a + b)
  {
    forall i, j | 0 <= i < j < |a + b|
      ensures (a + b)[i] < (a + b)[j]
    {
      if i < |a| <= j { assert a[i] in a && b[j - |a|] in b; }
    }
  }

  lemma {:induction false} ListingHas(s: set<nat>, lo: nat, hi: nat, x: nat)
    ensures x in Listing(s, lo, hi) <==> lo <= x < hi && x in s
  {
    if lo < hi { ListingHas(s, lo, hi - 1, x); }
  }

  lemma {:induction false} GapsHave(s: set<nat>, lo: nat, hi: nat, x: nat)
    ensures x in Gaps(s, lo, hi) <==> lo <= x < hi && x !in s
  {
    if lo < hi { GapsHave(s, lo, hi - 1, x); }
  }

  /** At most one more number, above all before it. */
  lemma AscendingSnoc(a: seq<nat>, more: seq<nat>, n: nat)
    requires Ascending(a) && (forall x: nat :: x in a ==> x < n) && (more == [] || more == [n])
    ensures Ascending(a + more)
  {
    AscendingJoin(a, more, n);
  }

  lemma {:induction false} ListingAscends(s: set<nat>, lo: nat, hi: nat)
    ensures Ascending(Listing(s, lo, hi))
  {
    if lo < hi {
      var before := Listing(s, lo, hi - 1);
      ListingAscends(s, lo, hi - 1);
      forall x: nat | x in before
        ensures x < hi - 1
      {
        ListingHas(s, lo, hi - 1, x);
      }
      AscendingSnoc(before, if hi - 1 in s then [hi - 1] else [], hi - 1);
    }
  }

  lemma ListingIsSorted(s: set<nat>, lo: nat, hi: nat)
    ensures Ascending(Listing(s, lo, hi))
    ensures forall x: nat :: x in Listing(s, lo, hi) <==> lo <= x < hi && x in s
  {
    ListingAscends(s, lo, hi);
    forall x: nat
      ensures x in Listing(s, lo, hi) <==> lo <= x < hi && x in s
    {
      ListingHas(s, lo, hi, x);
    }
  }

  lemma {:induction false} GapsAscend(s: set<nat>, lo: nat, hi: nat)
    ensures Ascending(Gaps(s, lo, hi))
  {
    if lo < hi {
      var before := Gaps(s, lo, hi - 1);
      GapsAscend(s, lo, hi - 1);
      forall x: nat | x in before
        ensures x < hi - 1
      {
        GapsHave(s, lo, hi - 1, x);
      }
      AscendingSnoc(before, if hi - 1 in s then [] else [hi - 1], hi - 1);
    }
  }

  lemma GapsAreSorted(s: set<nat>, lo: nat, hi: nat)
    ensures Ascending(Gaps(s, lo, hi))
    ensures forall x: nat :: x in Gaps(s, lo, hi) <==> lo <= x < hi && x !in s
  {
    GapsAscend(s, lo, hi);
    forall x: nat
      ensures x in Gaps(s, lo, hi) <==> lo <= x < hi && x !in s
    {
      GapsHave(s, lo, hi, x);
    }
  }

  /** One call on the queue. */
  datatype Op = Arrive(sequence: nat) | Report

  /** The queue and everything it has reported so far, number by number. */
  datatype Account = Account(state: AckState, acked: seq<nat>, nacked: seq<nat>)

  function Run(ops: seq<Op>): Account {
    if ops == [] then Account(EmptyAcks, [], [])
    else
      var a := Run(ops[..|ops| - 1]);
      match ops[|ops| - 1]
      case Arrive(sequence) => a.(state := a.state.Add(sequence))
      case Report => Account(a.state.Cleared(), a.acked + Covered(a.state.Acks()), a.nacked + a.state.Nacks())
  }

  /** What is below the lower end has been reported exactly once, and nothing else has. */
  ghost predicate Balanced(a: Account) {
    && a.state.Valid()
    && Ascending(a.acked) && Ascending(a.nacked)
    && (forall x: nat :: x in a.acked || x in a.nacked <==> x < a.state.lowest)
    && (forall x: nat :: x in a.acked ==> x !in a.nacked)
  }

  lemma AckedGrow(a: Account)
    requires Balanced(a)
    ensures var acked := a.acked + Covered(a.state.Acks());
            && Ascending(acked)
            && (forall x: nat :: x in acked <==> x in a.acked || x in a.state.store)
  {
    var s := a.state;
    CoveredRanges(s.store, s.lowest, s.highest);
    ListingIsSorted(s.store, s.lowest, s.highest);
    AscendingJoin(a.acked, Listing(s.store, s.lowest, s.highest), s.lowest);
  }

  lemma NackedGrow(a: Account)
    requires Balanced(a)
    ensures var nacked := a.nacked + a.state.Nacks();
            && Ascending(nacked)
            && (forall x: nat :: x in nacked <==>
                  x in a.nacked || (a.state.lowest <= x < a.state.highest && x !in a.state.store))
  {
    var s := a.state;
    GapsAreSorted(s.store, s.lowest, s.highest);
    AscendingJoin(a.nacked, Gaps(s.store, s.lowest, s.highest), s.lowest);
  }

  lemma ReportBalances(a: Account)
    requires Balanced(a)
    ensures Balanced(Account(a.state.Cleared(), a.acked + Covered(a.state.Acks()), a.nacked + a.state.Nacks()))
  {
    AckedGrow(a);
    NackedGrow(a);
  }

  /** Exact accounting over every run: each number below the last report's upper end has
      been reported exactly once, either as an ACK or as a NACK, and no other number has. */
  lemma {:induction false} EveryNumberIsReportedOnce(ops: seq<Op>)
    ensures Balanced(Run(ops))
  {
    if ops != [] {
      EveryNumberIsReportedOnce(ops[..|ops| - 1]);
      ReportBalances(Run(ops[..|ops| - 1]));
    }
  }

  /** And what is reported as an ACK, or waits for it, has arrived. */
  lemma {:induction false} AckedHaveArrived(ops: seq<Op>, x: nat)
    requires x in Run(ops).acked || x in Run(ops).state.store
    ensures Arrive(x) in ops
  {
    var front, last := ops[..|ops| - 1], ops[|ops| - 1];
    EveryNumberIsReportedOnce(front);
    AckedGrow(Run(front));
    assert ops == front + [last];
    if last != Arrive(x) { AckedHaveArrived(front, x); }
  }

  /** Call `n` is the arrival of `x`, and no report has accounted for `x` before it. */
  ghost predicate InTime(ops: seq<Op>, n: nat, x: nat) {
    n < |ops| && ops[n] == Arrive(x) && Run(ops[..n]).state.lowest <= x
  }

  lemma InTimeSnoc(front: seq<Op>, last: Op, x: nat)
    ensures (exists n :: InTime(front + [last], n, x)) <==>
      (exists n :: InTime(front, n, x)) || (last == Arrive(x) && Run(front).state.lowest <= x)
  {
    var ops := front + [last];
    forall n: nat | n < |front|
      ensures InTime(ops, n, x) <==> InTime(front, n, x)
    {
      assert ops[..n] == front[..n];
    }
    assert ops[..|front|] == front;
    assert InTime(ops, |front|, x) <==> last == Arrive(x) && Run(front).state.lowest <= x;
  }

  ghost predicate Kept(a: Account, x: nat) {
    x in a.acked || x in a.state.store
  }

  lemma KeptSnoc(front: seq<Op>, last: Op, x: nat)
    ensures Kept(Run(front + [last]), x) <==>
      Kept(Run(front), x) || (last == Arrive(x) && Run(front).state.lowest <= x)
  {
    assert (front + [last])[..|front|] == front;
    EveryNumberIsReportedOnce(front);
    AckedGrow(Run(front));
  }

  /** Exactly what is reported as an ACK, or waits for it: whatever arrived before a report
      had accounted for it, in whatever order and however often. */
  lemma {:induction false} ArrivalIsKeptIff(ops: seq<Op>, x: nat)
    ensures x in Run(ops).acked || x in Run(ops).state.store <==> exists n :: InTime(ops, n, x)
  {
    if ops != [] {
      var front, last := ops[..|ops| - 1], ops[|ops| - 1];
      assert ops == front + [last];
      ArrivalIsKeptIff(front, x);
      InTimeSnoc(front, last, x);
      KeptSnoc(front, last, x);
    }
  }
}
