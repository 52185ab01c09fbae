/**
 * The global snap coordinator of the page: from the registered pinned triggers
 * and the maximum scroll it builds normalised ranges (`setupGlobalSnap`), and for
 * a scroll fraction it resolves the fraction the page settles on (`snapTo`).
 */
module GlobalSnap {
  import opened Wrappers
  import opened PinnedTriggers

  /** Tolerance added on each side of a pinned window before snapping engages. */
  const Padding: real := 0.02

  /** A pinned trigger's window as fractions of the maximum scroll, with its midpoint. */
  datatype Range = Range(start: real, end: real, center: real)

  /** A trigger's end offset, or its start when it has none (`st.end ?? st.start`). */
  function EndOrStart(t: Trigger): real {
    match t.end
    case Some(e) => e
    case None => t.start
  }

  /** The centre lies inside the window. */
  predicate WellFormed(r: Range) {
    r.start <= r.center <= r.end
  }

  /** A trigger's window divided by the maximum scroll. */
  function Normalize(t: Trigger, maxScroll: real): (r: Range)
    requires maxScroll != 0.0
    ensures r.start * maxScroll == t.start
    ensures r.end * maxScroll == EndOrStart(t)
    ensures r.center == (r.start + r.end) / 2.0
    ensures maxScroll > 0.0 && t.start <= EndOrStart(t) ==> WellFormed(r)
  {
    var e := EndOrStart(t);
    Range(t.start / maxScroll, e / maxScroll, (t.start + (e - t.start) * 0.5) / maxScroll)
  }

  /** The ranges the snap rule works on, or None when no rule is installed
      (`!maxScroll || pinned.length === 0`). */
  function Setup(ts: seq<Trigger>, maxScroll: real): (o: Option<seq<Range>>)
    ensures o.None? <==> maxScroll == 0.0 || forall t :: t in ts ==> !t.pin
    ensures o.Some? ==> |o.value| == |PinnedByStart(ts)| > 0
    ensures o.Some? ==> forall i :: 0 <= i < |o.value| ==>
      o.value[i] == Normalize(PinnedByStart(ts)[i], maxScroll)
  {
    var pinned := PinnedByStart(ts);
    PinnedMembers(ts);
    assert |multiset(pinned)| == |multiset(Pinned(ts))|;
    assert |pinned| > 0 ==> Pinned(ts)[0] in Pinned(ts);
    if maxScroll == 0.0 || |pinned| == 0 then None
    else Some(seq(|pinned|, i requires 0 <= i < |pinned| => Normalize(pinned[i], maxScroll)))
  }

  /** `value` lies in the range's window widened by `Padding` on each side (bounds inclusive). */
  predicate InWindow(r: Range, value: real) {
    r.start - Padding <= value <= r.end + Padding
  }

  /** Some range's padded window holds `value` (`pinnedRanges.some(...)`). */
  predicate InPinned(rs: seq<Range>, value: real) {
    exists i :: 0 <= i < |rs| && InWindow(rs[i], value)
  }

  /** `Math.abs(a - b)`. */
  function Dist(a: real, b: real): real {
    if a >= b then a - b else b - a
  }

  /** One step of the `reduce`: take the range's centre only when it is strictly closer. */
  function Closer(closest: real, r: Range, value: real): real {
    if Dist(r.center, value) < Dist(closest, value) then r.center else closest
  }

  /** The `reduce` over the ranges, as a left fold from `closest`. */
  function NearestFold(closest: real, rs: seq<Range>, value: real): real
    decreases |rs|
  {
    if rs == [] then closest else NearestFold(Closer(closest, rs[0], value), rs[1..], value)
  }

  /** Index `i` holds a centre nearest to `value`, and no earlier range is as near. */
  predicate FirstNearest(rs: seq<Range>, value: real, i: int) {
    && 0 <= i < |rs|
    && (forall j :: 0 <= j < |rs| ==> Dist(rs[i].center, value) <= Dist(rs[j].center, value))
    && (forall j :: 0 <= j < i ==> Dist(rs[i].center, value) < Dist(rs[j].center, value))
  }

  /** The fold ends on a value at least as near as its seed and as every centre;
      it keeps the seed when the seed is already nearest, and otherwise ends on the
      centre of the first range strictly nearer than all ranges before it. */
  lemma {:induction false} NearestFoldSpec(closest: real, rs: seq<Range>, value: real)
    ensures var r := NearestFold(closest, rs, value);
      && Dist(r, value) <= Dist(closest, value)
      && (forall j :: 0 <= j < |rs| ==> Dist(r, value) <= Dist(rs[j].center, value))
      && ((forall j :: 0 <= j < |rs| ==> Dist(closest, value) <= Dist(rs[j].center, value)) ==> r == closest)
      && (r == closest || exists i :: (0 <= i < |rs| && r == rs[i].center
                                          && Dist(r, value) < Dist(closest, value)
                                          && forall j :: 0 <= j < i ==> Dist(r, value) < Dist(rs[j].center, value)))
    decreases |rs|
  {
    if rs != [] {
      var next := Closer(closest, rs[0], value);
      var tail := rs[1..];
      NearestFoldSpec(next, tail, value);
      var r := NearestFold(closest, rs, value);
      assert r == NearestFold(next, tail, value);
      forall j | 0 <= j < |rs|
        ensures Dist(r, value) <= Dist(rs[j].center, value)
      {
        if j > 0 { assert rs[j] == tail[j - 1]; }
      }
      if forall j :: 0 <= j < |rs| ==> Dist(closest, value) <= Dist(rs[j].center, value) {
        assert next == closest;
      }
      if r != closest {
        if r == next {
          assert r == rs[0].center;
        } else {
          var i' :| 0 <= i' < |tail| && r == tail[i'].center
            && Dist(r, value) < Dist(next, value)
            && forall j :: 0 <= j < i' ==> Dist(r, value) < Dist(tail[j].center, value);
          forall j | 0 <= j < i' + 1
            ensures Dist(r, value) < Dist(rs[j].center, value)
          {
            if j > 0 { assert rs[j] == tail[j - 1]; }
          }
          assert r == rs[i' + 1].center;
        }
      }
    }
  }

  /** The snap target for the scroll fraction `value` (`snapTo`): `value` itself
      when no padded window holds it, otherwise the centre of the first range whose
      centre is nearest to `value`, over all ranges. */
  function SnapTo(rs: seq<Range>, value: real): (r: real)
    ensures !InPinned(rs, value) ==> r == value
    ensures InPinned(rs, value) ==> exists i :: FirstNearest(rs, value, i) && r == rs[i].center
  {
    if !InPinned(rs, value) then value
    else
      var seed := if |rs| > 0 then rs[0].center else 0.0;
      NearestFoldSpec(seed, rs, value);
      var r := NearestFold(seed, rs, value);
      assert r == seed ==> FirstNearest(rs, value, 0);
      r
  }

  lemma DivMonotone(a: real, b: real, m: real)
    requires a <= b && m > 0.0
    ensures a / m <= b / m
  {
    assert b / m - a / m == (b - a) / m;
  }

  /** With a positive maximum scroll the ranges are in ascending order of start. */
  lemma SetupRangesAscending(ts: seq<Trigger>, maxScroll: real)
    requires maxScroll > 0.0 && Setup(ts, maxScroll).Some?
    ensures var rs := Setup(ts, maxScroll).value;
      forall i, j :: 0 <= i < j < |rs| ==> rs[i].start <= rs[j].start
  {
    var rs := Setup(ts, maxScroll).value;
    var ps := PinnedByStart(ts);
    forall i, j | 0 <= i < j < |rs|
      ensures rs[i].start <= rs[j].start
    {
      assert ps[i].start <= ps[j].start;
      DivMonotone(ps[i].start, ps[j].start, maxScroll);
    }
  }

  /** Every range is the normalisation of a registered trigger marked `pin`, and the
      triggers behind the ranges are exactly the pinned ones, each once. */
  lemma SetupRangesFromPinned(ts: seq<Trigger>, maxScroll: real)
    requires Setup(ts, maxScroll).Some?
    ensures var rs := Setup(ts, maxScroll).value;
      forall i :: 0 <= i < |rs| ==>
        exists t :: t in ts && t.pin && rs[i] == Normalize(t, maxScroll)
    ensures multiset(PinnedByStart(ts)) == multiset(Pinned(ts))
  {
    var rs := Setup(ts, maxScroll).value;
    var ps := PinnedByStart(ts);
    forall i | 0 <= i < |rs|
      ensures exists t :: t in ts && t.pin && rs[i] == Normalize(t, maxScroll)
    {
      PinnedMembers(ts);
      assert ps[i] in multiset(ps);
      assert ps[i] in Pinned(ts);
    }
  }

  /** With a positive maximum scroll and no trigger ending before it starts, every
      range has its centre inside its window. */
  lemma SetupWellFormed(ts: seq<Trigger>, maxScroll: real)
    requires maxScroll > 0.0 && Setup(ts, maxScroll).Some?
    requires forall t :: t in ts && t.pin ==> t.start <= EndOrStart(t)
    ensures forall r :: r in Setup(ts, maxScroll).value ==> WellFormed(r)
  {
    var rs := Setup(ts, maxScroll).value;
    var ps := PinnedByStart(ts);
    forall r | r in rs
      ensures WellFormed(r)
    {
      var i :| 0 <= i < |rs| && rs[i] == r;
      PinnedMembers(ts);
      assert ps[i] in multiset(ps);
      assert ps[i] in Pinned(ts);
    }
  }

  /** A centre whose window holds it is its own snap target. */
  lemma CenterSnapsToItself(rs: seq<Range>, i: int)
    requires 0 <= i < |rs| && WellFormed(rs[i])
    ensures SnapTo(rs, rs[i].center) == rs[i].center
  {
    var c := rs[i].center;
    assert InWindow(rs[i], c);
    assert InPinned(rs, c);
    var r := SnapTo(rs, c);
    assert exists k :: FirstNearest(rs, c, k) && r == rs[k].center;
    var k :| FirstNearest(rs, c, k) && r == rs[k].center;
    assert Dist(rs[k].center, c) <= Dist(rs[i].center, c);
  }

  /** Snapping a snap target again leaves it where it is. */
  lemma SnapToIdempotent(rs: seq<Range>, value: real)
    requires forall r :: r in rs ==> WellFormed(r)
    ensures SnapTo(rs, SnapTo(rs, value)) == SnapTo(rs, value)
  {
    if InPinned(rs, value) {
      var c := SnapTo(rs, value);
      assert exists i :: FirstNearest(rs, value, i) && c == rs[i].center;
      var i :| FirstNearest(rs, value, i) && c == rs[i].center;
      assert rs[i] in rs;
      CenterSnapsToItself(rs, i);
    }
  }

  /** The installed rule is idempotent whenever the coordinator installs one over a
      positive maximum scroll and no pinned trigger ends before it starts. */
  lemma InstalledSnapIdempotent(ts: seq<Trigger>, maxScroll: real, value: real)
    requires maxScroll > 0.0 && Setup(ts, maxScroll).Some?
    requires forall t :: t in ts && t.pin ==> t.start <= EndOrStart(t)
    ensures var rs := Setup(ts, maxScroll).value;
      SnapTo(rs, SnapTo(rs, value)) == SnapTo(rs, value)
  {
    SetupWellFormed(ts, maxScroll);
    SnapToIdempotent(Setup(ts, maxScroll).value, value);
  }
}
