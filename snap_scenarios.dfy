/**
 * Worked examples of the snap coordinator on concrete pages.
 */
module SnapScenarios {
  import opened Wrappers
  import opened PinnedTriggers
  import opened GlobalSnap

  /** Three consecutive pinned sections of 1300, 1400 and 1300 pixels. */
  const First := Trigger(true, 0.0, Some(1300.0))
  const Second := Trigger(true, 1300.0, Some(2700.0))
  const Third := Trigger(true, 2700.0, Some(4000.0))
  /** A trigger that only reveals content and does not pin. */
  const Reveal := Trigger(false, 100.0, None)

  /** The sections registered out of order and beside the unpinned trigger. */
  function ThreeSections(): seq<Trigger> {
    [Second, Reveal, First, Third]
  }

  /** The snap targets of the three sections on a page that scrolls 4000 pixels. */
  function ThreeRanges(): seq<Range> {
    [Range(0.0, 0.325, 0.1625), Range(0.325, 0.675, 0.5), Range(0.675, 1.0, 0.8375)]
  }

  /** The coordinator keeps the pinned triggers in registration order... */
  lemma ThreeSectionsPinned()
    ensures Pinned(ThreeSections()) == [Second, First, Third]
  {
    var ts := ThreeSections();
    assert ts[1..] == [Reveal, First, Third];
    assert ts[1..][1..] == [First, Third];
    assert ts[1..][1..][1..] == [Third];
    assert Pinned([Third]) == [Third];
    assert Pinned([First, Third]) == [First, Third];
    assert Pinned([Reveal, First, Third]) == [First, Third];
  }

  /** ...and sorts them by start. */
  lemma ThreeSectionsSorted()
    ensures PinnedByStart(ThreeSections()) == [First, Second, Third]
  {
    ThreeSectionsPinned();
    assert SortByStart([Third]) == [Third];
    assert [First, Third][1..] == [Third];
    assert Insert(First, [Third]) == [First, Third];
    assert SortByStart([First, Third]) == [First, Third];
    assert [Third][1..] == [];
    assert Insert(Second, [Third]) == [Second, Third];
    assert Insert(Second, [First, Third]) == [First, Second, Third];
    assert [Second, First, Third][1..] == [First, Third];
  }

  /** The unpinned trigger is dropped and the snap targets are 0.1625, 0.5 and 0.8375. */
  lemma ThreeSectionsSetup(ts: seq<Trigger>, maxScroll: real)
    requires ts == ThreeSections() && maxScroll == 4000.0
    ensures Setup(ts, maxScroll) == Some(ThreeRanges())
  {
    var ps, rs := [First, Second, Third], ThreeRanges();
    assert PinnedByStart(ts) == ps by { ThreeSectionsSorted(); }
    assert |ps| == |rs| == 3;
    assert forall i :: 0 <= i < |rs| ==> rs[i] == Normalize(ps[i], maxScroll) by {
      assert Normalize(First, maxScroll) == rs[0];
      assert Normalize(Second, maxScroll) == rs[1];
      assert Normalize(Third, maxScroll) == rs[2];
    }
    SetupIs(ts, maxScroll, ps, rs);
  }

  lemma SetupIs(ts: seq<Trigger>, maxScroll: real, ps: seq<Trigger>, rs: seq<Range>)
    requires maxScroll != 0.0 && PinnedByStart(ts) == ps && |ps| == |rs| > 0
    requires forall i :: 0 <= i < |rs| ==> rs[i] == Normalize(ps[i], maxScroll)
    ensures Setup(ts, maxScroll) == Some(rs)
  {
    assert ps[0] in multiset(ps);
    assert ps[0] in Pinned(ts);
    PinnedMembers(ts);
    var o := Setup(ts, maxScroll);
    assert o.Some? && |o.value| == |rs|;
    assert forall i :: 0 <= i < |rs| ==> o.value[i] == rs[i];
    assert o.value == rs;
  }

  lemma SameThree(a: seq<Range>, b: seq<Range>)
    requires |a| == |b| == 3 && a[0] == b[0] && a[1] == b[1] && a[2] == b[2]
    ensures a == b
  {
  }

  /** A fraction between the first two centres settles on the nearer one, a fraction
      past the last window's end but within its padding settles on the last centre,
      a centre stays where it is, and a fraction beyond every padded window is left alone. */
  lemma ThreeSectionsSnap(rs: seq<Range>)
    requires rs == ThreeRanges()
    ensures SnapTo(rs, 0.30) == 0.1625
    ensures SnapTo(rs, 0.95) == 0.8375
    ensures SnapTo(rs, 0.5) == 0.5
    ensures SnapTo(rs, 1.03) == 1.03
  {
    assert InWindow(rs[0], 0.30);
    assert InWindow(rs[2], 0.95);
    assert InWindow(rs[1], 0.5);
  }

  /** The nearest centre is taken over all ranges, not only over those whose padded
      window holds the fraction: here 0.41 lies only in the first window, yet it
      settles on the second range's centre, whose window does not hold it. */
  lemma NearestCentreMayLieOutsideTheWindow()
    ensures var rs := [Range(0.0, 0.4, 0.2), Range(0.44, 0.46, 0.45)];
      && InWindow(rs[0], 0.41) && !InWindow(rs[1], 0.41)
      && SnapTo(rs, 0.41) == 0.45
  {
    var rs := [Range(0.0, 0.4, 0.2), Range(0.44, 0.46, 0.45)];
    assert InWindow(rs[0], 0.41);
  }
}
