/**
 * The scroll triggers the snap coordinator reads from the animation engine's
 * registry, the filter that keeps the pinned ones, and the stable sort by start
 * offset that orders them (`filter(st => st.vars.pin).sort((a, b) => a.start - b.start)`).
 */
module PinnedTriggers {
  import opened Wrappers

  /** A registered scroll trigger: whether it pins its section, and its start and
      (possibly absent) end offsets in scroll pixels. */
  datatype Trigger = Trigger(pin: bool, start: real, end: Option<real>)

  /** The triggers marked `pin`, in registration order. */
  function Pinned(ts: seq<Trigger>): seq<Trigger> {
    if ts == [] then []
    else (if ts[0].pin then [ts[0]] else []) + Pinned(ts[1..])
  }

  /** The filter keeps every pinned trigger as often as it is registered, and nothing else. */
  lemma {:induction false} PinnedCounts(ts: seq<Trigger>)
    ensures forall t :: multiset(Pinned(ts))[t] == if t.pin then multiset(ts)[t] else 0
  {
    if ts != [] {
      PinnedCounts(ts[1..]);
      assert ts == [ts[0]] + ts[1..];
    }
  }

  /** The same, as membership. */
  lemma PinnedMembers(ts: seq<Trigger>)
    ensures forall t :: t in Pinned(ts) <==> t in ts && t.pin
  {
    PinnedCounts(ts);
    forall t ensures t in Pinned(ts) <==> t in ts && t.pin {
      assert t in Pinned(ts) <==> t in multiset(Pinned(ts));
      assert t in ts <==> t in multiset(ts);
    }
  }

  /** The triggers whose start offset is `k`, in their order in `ts`. */
  function WithStart(ts: seq<Trigger>, k: real): seq<Trigger>
  {
    if ts == [] then []
    else (if ts[0].start == k then [ts[0]] else []) + WithStart(ts[1..], k)
  }

  lemma {:induction false} WithStartMembers(ts: seq<Trigger>, k: real, t: Trigger)
    ensures t in WithStart(ts, k) <==> t in ts && t.start == k
  {
    if ts != [] {
      WithStartMembers(ts[1..], k, t);
      assert ts == [ts[0]] + ts[1..];
    }
  }

  /** Ascending by start offset, the order the comparator `a.start - b.start` asks for. */
  predicate SortedByStart(s: seq<Trigger>) {
    forall i, j :: 0 <= i < j < |s| ==> s[i].start <= s[j].start
  }

  /** Inserts `x` before the first element whose start is not smaller than its own. */
  function Insert(x: Trigger, s: seq<Trigger>): seq<Trigger>
  {
    if s == [] || x.start <= s[0].start then [x] + s
    else [s[0]] + Insert(x, s[1..])
  }

  /** Inserting adds exactly `x`. */
  lemma {:induction false} InsertPermutes(x: Trigger, s: seq<Trigger>)
    ensures multiset(Insert(x, s)) == multiset(s) + multiset{x}
  {
    if s != [] && s[0].start < x.start {
      InsertPermutes(x, s[1..]);
      assert s == [s[0]] + s[1..];
    }
  }

  lemma SortedCons(h: Trigger, s: seq<Trigger>)
    requires SortedByStart(s)
    requires forall t :: t in s ==> h.start <= t.start
    ensures SortedByStart([h] + s)
  {
    forall i, j | 0 <= i < j < |[h] + s|
      ensures ([h] + s)[i].start <= ([h] + s)[j].start
    {
      if i > 0 {
        assert ([h] + s)[i] == s[i - 1] && ([h] + s)[j] == s[j - 1];
      } else {
        assert ([h] + s)[j] == s[j - 1];
        assert s[j - 1] in s;
      }
    }
  }

  /** Inserting into a sorted sequence keeps it sorted. */
  lemma {:induction false} InsertSorted(x: Trigger, s: seq<Trigger>)
    requires SortedByStart(s)
    ensures SortedByStart(Insert(x, s))
  {
    if s == [] || x.start <= s[0].start {
      assert forall t :: t in s ==> x.start <= t.start by {
        forall t | t in s ensures x.start <= t.start {
          var i :| 0 <= i < |s| && s[i] == t;
          assert s[0].start <= s[i].start;
        }
      }
      SortedCons(x, s);
    } else {
      InsertSorted(x, s[1..]);
      InsertPermutes(x, s[1..]);
      var rest := Insert(x, s[1..]);
      assert forall t :: t in rest ==> s[0].start <= t.start by {
        forall t | t in rest ensures s[0].start <= t.start {
          assert t in multiset(rest);
          if t != x {
            assert t in multiset(s[1..]);
            var i :| 0 <= i < |s[1..]| && s[1..][i] == t;
            assert s[0].start <= s[i + 1].start;
          }
        }
      }
      SortedCons(s[0], rest);
    }
  }

  /** A stable sort by start offset, as `Array.prototype.sort` is in JavaScript. */
  function SortByStart(s: seq<Trigger>): (r: seq<Trigger>)
    ensures SortedByStart(r)
    ensures multiset(r) == multiset(s)
  {
    if s == [] then []
    else
      assert s == [s[0]] + s[1..];
      InsertSorted(s[0], SortByStart(s[1..]));
      InsertPermutes(s[0], SortByStart(s[1..]));
      Insert(s[0], SortByStart(s[1..]))
  }

  /** `x` goes after every element with a smaller start and before every element
      with its own start, so among equal starts it comes first. */
  lemma {:induction false} InsertKeepsEqualStartOrder(x: Trigger, s: seq<Trigger>, k: real)
    ensures WithStart(Insert(x, s), k) == (if x.start == k then [x] else []) + WithStart(s, k)
  {
    if s == [] || x.start <= s[0].start {
      assert Insert(x, s) == [x] + s;
      WithStartAppend([x], s, k);
    } else {
      InsertKeepsEqualStartOrder(x, s[1..], k);
      InsertPastHead(x, s, k);
    }
  }

  /** The step of the proof above where `x` is carried past the head of `s`. */
  lemma {:induction false} InsertPastHead(x: Trigger, s: seq<Trigger>, k: real)
    requires s != [] && s[0].start < x.start
    requires WithStart(Insert(x, s[1..]), k) == (if x.start == k then [x] else []) + WithStart(s[1..], k)
    ensures WithStart(Insert(x, s), k) == (if x.start == k then [x] else []) + WithStart(s, k)
  {
    var rest := Insert(x, s[1..]);
    assert Insert(x, s) == [s[0]] + rest;
    WithStartAppend([s[0]], rest, k);
    assert s == [s[0]] + s[1..];
    WithStartAppend([s[0]], s[1..], k);
    var w := WithStart(s[1..], k);
    if x.start == k {
      assert WithStart([s[0]], k) == [];
      assert WithStart(rest, k) == [x] + w;
      assert WithStart(Insert(x, s), k) == [x] + w;
      assert WithStart(s, k) == w;
    } else {
      assert WithStart(rest, k) == w;
      assert WithStart(Insert(x, s), k) == WithStart([s[0]], k) + w;
    }
  }

  /** The sort is stable: triggers sharing a start offset keep their relative order. */
  lemma {:induction false} SortByStartIsStable(s: seq<Trigger>, k: real)
    ensures WithStart(SortByStart(s), k) == WithStart(s, k)
  {
    if s != [] {
      SortByStartIsStable(s[1..], k);
      InsertKeepsEqualStartOrder(s[0], SortByStart(s[1..]), k);
    }
  }

  /** A sorted sequence that agrees with another on every equal-start subsequence
      is that sequence: any stable sort by start gives the same result. */
  lemma {:induction false} StableSortIsUnique(a: seq<Trigger>, b: seq<Trigger>)
    requires SortedByStart(a) && SortedByStart(b)
    requires forall k :: WithStart(a, k) == WithStart(b, k)
    ensures a == b
  {
    if a == [] {
      // WithStart(b, b[0].start) would be non-empty
    } else {
      var ka := a[0].start;
      WithStartMembers(a, ka, a[0]);
      WithStartMembers(b, ka, a[0]);
      assert WithStart(a, ka) == WithStart(b, ka);
      var i :| 0 <= i < |b| && b[i] == a[0];
      var kb := b[0].start;
      assert kb <= ka;
      WithStartMembers(b, kb, b[0]);
      WithStartMembers(a, kb, b[0]);
      assert WithStart(a, kb) == WithStart(b, kb);
      var j :| 0 <= j < |a| && a[j] == b[0];
      assert ka <= kb;
      assert WithStart(a, ka)[0] == a[0];
      assert WithStart(b, ka)[0] == b[0];
      assert a[0] == b[0];
      forall k
        ensures WithStart(a[1..], k) == WithStart(b[1..], k)
      {
        assert WithStart(a, k) == WithStart(b, k);
        if a[0].start == k {
          assert WithStart(a, k) == [a[0]] + WithStart(a[1..], k);
          assert WithStart(b, k) == [b[0]] + WithStart(b[1..], k);
          assert WithStart(a[1..], k) == WithStart(a, k)[1..];
          assert WithStart(b[1..], k) == WithStart(b, k)[1..];
        } else {
          assert WithStart(a, k) == WithStart(a[1..], k);
          assert WithStart(b, k) == WithStart(b[1..], k);
        }
      }
      StableSortIsUnique(a[1..], b[1..]);
      assert a == [a[0]] + a[1..];
      assert b == [b[0]] + b[1..];
    }
  }

  /** `SortByStart` is the one stable sort of `s`: every sequence that is sorted
      by start and keeps each equal-start group in its order in `s` equals it. */
  lemma SortByStartIsTheStableSort(s: seq<Trigger>, r: seq<Trigger>)
    requires SortedByStart(r)
    requires forall k :: WithStart(r, k) == WithStart(s, k)
    ensures r == SortByStart(s)
  {
    forall k
      ensures WithStart(r, k) == WithStart(SortByStart(s), k)
    {
      SortByStartIsStable(s, k);
    }
    StableSortIsUnique(r, SortByStart(s));
  }

  /** Keeping the pinned triggers and then those with start `k` is the same as the
      other way round: pinned triggers sharing a start stay in registration order. */
  lemma {:induction false} PinnedWithStartCommute(ts: seq<Trigger>, k: real)
    ensures WithStart(Pinned(ts), k) == Pinned(WithStart(ts, k))
  {
    if ts != [] {
      PinnedWithStartCommute(ts[1..], k);
      var h := if ts[0].pin then [ts[0]] else [];
      WithStartAppend(h, Pinned(ts[1..]), k);
      var g := if ts[0].start == k then [ts[0]] else [];
      PinnedAppend(g, WithStart(ts[1..], k));
    }
  }

  lemma {:induction false} WithStartAppend(a: seq<Trigger>, b: seq<Trigger>, k: real)
    ensures WithStart(a + b, k) == WithStart(a, k) + WithStart(b, k)
  {
    if a != [] {
      WithStartAppend(a[1..], b, k);
      assert (a + b)[1..] == a[1..] + b;
    } else {
      assert a + b == b;
    }
  }

  lemma {:induction false} PinnedAppend(a: seq<Trigger>, b: seq<Trigger>)
    ensures Pinned(a + b) == Pinned(a) + Pinned(b)
  {
    if a != [] {
      PinnedAppend(a[1..], b);
      assert (a + b)[1..] == a[1..] + b;
    } else {
      assert a + b == b;
    }
  }

  /** The pinned triggers in the order the coordinator reads them. */
  function PinnedByStart(ts: seq<Trigger>): seq<Trigger> {
    SortByStart(Pinned(ts))
  }

  /** Pinned triggers that share a start offset are read in registration order. */
  lemma PinnedByStartKeepsRegistrationOrder(ts: seq<Trigger>, k: real)
    ensures WithStart(PinnedByStart(ts), k) == Pinned(WithStart(ts, k))
  {
    SortByStartIsStable(Pinned(ts), k);
    PinnedWithStartCommute(ts, k);
  }
}
