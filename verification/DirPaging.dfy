/**
 Listing a directory page by page.  OpenDir takes a snapshot of the children; each ReadDir call
 starts at the slot whose number is the offset the kernel got last, skips slots of deleted
 children, and returns as many entries as fit.  The offset of an entry is not its slot number: it
 only counts the entries returned so far, skipped slots are not counted.
 */
module DirPaging {

  /** The slots one call returns, given which slots hold live children and how many entries fit. */
  function Page(live: seq<bool>, offset: nat, room: nat): seq<nat>
    decreases |live| - offset
  {
    if offset >= |live| || room == 0 then []
    else if live[offset] then [offset] + Page(live, offset + 1, room - 1)
    else Page(live, offset + 1, room)
  }

  /** One call of a listing: which slots are live when it is made, and the room in its buffer. */
  datatype Call = Call(live: seq<bool>, room: nat)

  /** All calls are on one snapshot of `n` slots and fit at least one entry. */
  predicate Calls(calls: seq<Call>, n: nat) {
    forall k :: 0 <= k < |calls| ==> |calls[k].live| == n && calls[k].room >= 1
  }

  /** All the slots returned so far; how many there are is the offset of the next call. */
  function Listing(calls: seq<Call>): seq<nat> {
    if calls == [] then []
    else
      var before := Listing(calls[..|calls| - 1]);
      var c := calls[|calls| - 1];
      before + Page(c.live, |before|, c.room)
  }

  function LastPage(calls: seq<Call>): seq<nat>
    requires calls != []
  {
    var c := calls[|calls| - 1];
    Page(c.live, |Listing(calls[..|calls| - 1])|, c.room)
  }

  /** The listing has ended: the last call returned nothing. */
  predicate Ended(calls: seq<Call>) {
    calls != [] && LastPage(calls) == []
  }

  /* ---------- One page ---------- */

  lemma {:induction false} PageMeaning(live: seq<bool>, offset: nat, room: nat)
    requires offset <= |live|
    ensures var p := Page(live, offset, room);
            && |p| <= room && offset + |p| <= |live|
            && (forall k :: 0 <= k < |p| ==> offset <= p[k] < |live| && live[p[k]])
            && (forall a, b :: 0 <= a < b < |p| ==> p[a] < p[b])
            && (forall i :: offset <= i < |live| && live[i] && (i < offset + |p| || |p| < room) ==> i in p)
    decreases |live| - offset
  {
    if offset < |live| && room > 0 {
      PageMeaning(live, offset + 1, if live[offset] then room - 1 else room);
    }
  }

  lemma {:induction false} ListingInRange(calls: seq<Call>, n: nat)
    requires Calls(calls, n)
    ensures |Listing(calls)| <= n
    ensures forall k :: 0 <= k < |Listing(calls)| ==> Listing(calls)[k] < n
    decreases |calls|
  {
    if calls != [] {
      var less := calls[..|calls| - 1];
      ListingInRange(less, n);
      PageMeaning(calls[|calls| - 1].live, |Listing(less)|, calls[|calls| - 1].room);
    }
  }

  /* ---------- Whole listings, with deletions between the pages ---------- */

  /** As long as pages are not empty, there are at most as many as the snapshot has slots. */
  lemma {:induction false} ListingEnds(calls: seq<Call>, n: nat)
    requires Calls(calls, n)
    requires forall k :: 1 <= k <= |calls| ==> !Ended(calls[..k])
    ensures |calls| <= |Listing(calls)| <= n
    decreases |calls|
  {
    ListingInRange(calls, n);
    if calls != [] {
      var less := calls[..|calls| - 1];
      assert forall k :: 1 <= k <= |less| ==> less[..k] == calls[..k];
      ListingEnds(less, n);
      assert calls[..|calls|] == calls;
    }
  }

  predicate StaysLive(calls: seq<Call>, i: nat) {
    forall k :: 0 <= k < |calls| ==> i < |calls[k].live| && calls[k].live[i]
  }

  /** The offset never runs past a slot that is live throughout without returning it. */
  lemma {:induction false} PassedMeansReturned(calls: seq<Call>, n: nat, i: nat)
    requires Calls(calls, n) && StaysLive(calls, i) && i < |Listing(calls)|
    ensures i in Listing(calls)
    decreases |calls|
  {
    var less := calls[..|calls| - 1];
    ListingInRange(less, n);
    if i < |Listing(less)| {
      PassedMeansReturned(less, n, i);
    } else {
      var c := calls[|calls| - 1];
      PageMeaning(c.live, |Listing(less)|, c.room);
      assert i in LastPage(calls);
    }
  }

  /**
   A listing that has ended has returned every child that stayed live, whatever was deleted
   between the pages.
   */
  lemma ListingCoversLive(calls: seq<Call>, n: nat, i: nat)
    requires Calls(calls, n) && Ended(calls) && StaysLive(calls, i)
    ensures i in Listing(calls)
  {
    var less := calls[..|calls| - 1];
    var c := calls[|calls| - 1];
    ListingInRange(less, n);
    PageMeaning(c.live, |Listing(less)|, c.room);
    assert Listing(calls) == Listing(less);
    PassedMeansReturned(calls, n, i);
  }

  /* ---------- Without deletions during the listing ---------- */

  /** The live slots in order, from slot `i` on. */
  function LiveSlots(live: seq<bool>, i: nat): seq<nat>
    decreases |live| - i
  {
    if i >= |live| then []
    else if live[i] then [i] + LiveSlots(live, i + 1)
    else LiveSlots(live, i + 1)
  }

  function UpTo(a: nat, b: nat): seq<nat>
    decreases b - a
  {
    if a >= b then [] else [a] + UpTo(a + 1, b)
  }

  predicate SameLive(calls: seq<Call>, live: seq<bool>) {
    forall k :: 0 <= k < |calls| ==> calls[k].live == live
  }

  /** No deleted slot comes before a live one. */
  predicate LivePrefix(live: seq<bool>) {
    forall i, j :: 0 <= i < j < |live| && live[j] ==> live[i]
  }

  lemma {:induction false} UpToAppend(a: nat, b: nat, c: nat)
    requires a <= b <= c
    ensures UpTo(a, b) + UpTo(b, c) == UpTo(a, c) && |UpTo(a, c)| == c - a
    decreases b - a, c - a
  {
    if a < b {
      UpToAppend(a + 1, b, c);
    } else if a < c {
      UpToAppend(a + 1, a + 1, c);
    }
  }

  lemma {:induction false} NoLiveNoPage(live: seq<bool>, offset: nat, room: nat)
    requires forall i :: offset <= i < |live| ==> !live[i]
    ensures Page(live, offset, room) == [] == LiveSlots(live, offset)
    decreases |live| - offset
  {
    if offset < |live| {
      NoLiveNoPage(live, offset + 1, room);
    }
  }

  lemma {:induction false} PageOfPrefix(live: seq<bool>, offset: nat, room: nat)
    requires LivePrefix(live) && offset <= |live|
    ensures Page(live, offset, room) == UpTo(offset, offset + |Page(live, offset, room)|)
    decreases |live| - offset
  {
    if offset < |live| && room > 0 {
      if live[offset] {
        PageOfPrefix(live, offset + 1, room - 1);
      } else {
        PageMeaning(live, offset, room);
        assert forall i :: offset <= i < |live| ==> !live[i];
        NoLiveNoPage(live, offset, room);
      }
    }
  }

  lemma {:induction false} ListingOfPrefix(calls: seq<Call>, live: seq<bool>)
    requires Calls(calls, |live|) && SameLive(calls, live) && LivePrefix(live)
    ensures Listing(calls) == UpTo(0, |Listing(calls)|)
    decreases |calls|
  {
    if calls != [] {
      var less := calls[..|calls| - 1];
      ListingOfPrefix(less, live);
      ListingInRange(less, |live|);
      var off, p := |Listing(less)|, LastPage(calls);
      PageOfPrefix(live, off, calls[|calls| - 1].room);
      UpToAppend(0, off, off + |p|);
    }
  }

  lemma {:induction false} LiveSlotsMeaning(live: seq<bool>, i: nat)
    requires i <= |live|
    ensures var s := LiveSlots(live, i);
            && |s| <= |live| - i
            && (forall k :: 0 <= k < |s| ==> i + k <= s[k] < |live| && live[s[k]])
            && (forall a, b :: 0 <= a < b < |s| ==> s[a] < s[b])
    decreases |live| - i
  {
    if i < |live| {
      LiveSlotsMeaning(live, i + 1);
    }
  }

  lemma {:induction false} LiveSlotsComplete(live: seq<bool>, i: nat, j: nat)
    requires i <= j < |live| && live[j]
    ensures j in LiveSlots(live, i)
    decreases |live| - i
  {
    if i < j {
      LiveSlotsComplete(live, i + 1, j);
    }
  }

  lemma {:induction false} LiveSlotsOfPrefix(live: seq<bool>, i: nat, c: nat)
    requires i <= c <= |live| && forall j :: i <= j < |live| ==> (live[j] <==> j < c)
    ensures LiveSlots(live, i) == UpTo(i, c)
    decreases |live| - i
  {
    if i < c {
      LiveSlotsOfPrefix(live, i + 1, c);
    } else {
      NoLiveNoPage(live, i, 0);
    }
  }

  /** An ended listing has gone past every live slot. */
  lemma EndedPastLive(calls: seq<Call>, live: seq<bool>, j: nat)
    requires Calls(calls, |live|) && SameLive(calls, live) && Ended(calls)
    requires j < |live| && live[j]
    ensures j < |Listing(calls)|
  {
    var less := calls[..|calls| - 1];
    ListingInRange(less, |live|);
    PageMeaning(live, |Listing(less)|, calls[|calls| - 1].room);
    assert Listing(calls) == Listing(less);
  }

  lemma ListingExactOfPrefix(calls: seq<Call>, live: seq<bool>)
    requires Calls(calls, |live|) && SameLive(calls, live) && Ended(calls) && LivePrefix(live)
    ensures Listing(calls) == LiveSlots(live, 0)
  {
    var c := |Listing(calls)|;
    ListingOfPrefix(calls, live);
    ListingInRange(calls, |live|);
    ListingIsLive(calls, live);
    UpToElements(0, c);
    AllBelowLive(Listing(calls), live);
    forall j | 0 <= j < |live| ensures live[j] <==> j < c {
      if live[j] {
        EndedPastLive(calls, live, j);
      }
    }
    LiveSlotsOfPrefix(live, 0, c);
  }

  lemma AllBelowLive(list: seq<nat>, live: seq<bool>)
    requires |list| <= |live|
    requires forall k :: 0 <= k < |list| ==> list[k] == k
    requires forall k :: 0 <= k < |list| ==> list[k] < |live| && live[list[k]]
    ensures forall j :: 0 <= j < |list| ==> live[j]
  {
    forall j | 0 <= j < |list| ensures live[j] {
      assert list[j] == j;
    }
  }

  lemma {:induction false} UpToElements(a: nat, b: nat)
    requires a <= b
    ensures |UpTo(a, b)| == b - a && forall k :: 0 <= k < b - a ==> UpTo(a, b)[k] == a + k
    decreases b - a
  {
    if a < b {
      UpToElements(a + 1, b);
    }
  }

  lemma {:induction false} ListingIsLive(calls: seq<Call>, live: seq<bool>)
    requires Calls(calls, |live|) && SameLive(calls, live)
    ensures forall k :: 0 <= k < |Listing(calls)| ==> Listing(calls)[k] < |live| && live[Listing(calls)[k]]
    decreases |calls|
  {
    if calls != [] {
      var less := calls[..|calls| - 1];
      ListingIsLive(less, live);
      ListingInRange(less, |live|);
      PageMeaning(live, |Listing(less)|, calls[|calls| - 1].room);
    }
  }

  /** With a deleted slot before a live one there are fewer live slots than the last one's number. */
  lemma FewerLiveThanPassed(live: seq<bool>, d: nat, j: nat)
    requires d < j < |live| && !live[d] && live[j]
    requires forall i :: j < i < |live| ==> !live[i]
    ensures |LiveSlots(live, 0)| <= j
  {
    LiveSlotsMeaning(live, 0);
    var s := LiveSlots(live, 0);
    if |s| > j {
      SpreadOut(s, j, d);
    }
  }

  /** `j + 1` increasing numbers from 0 to `j` are just the numbers from 0 to `j`. */
  lemma {:induction false} SpreadOut(s: seq<nat>, j: nat, d: nat)
    requires j < |s| && d <= j
    requires forall k :: 0 <= k < |s| ==> k <= s[k]
    requires forall k :: 0 <= k < |s| ==> s[k] <= j
    requires forall a, b :: 0 <= a < b < |s| ==> s[a] < s[b]
    ensures s[d] == d
    decreases j - d
  {
    if d < j {
      SpreadOut(s, j, d + 1);
      assert s[d] < s[d + 1];
    }
  }

  lemma LastLive(live: seq<bool>, j: nat) returns (l: nat)
    requires j < |live| && live[j]
    ensures j <= l < |live| && live[l] && forall i :: l < i < |live| ==> !live[i]
    decreases |live| - j
  {
    if i :| j < i < |live| && live[i] {
      l := LastLive(live, i);
    } else {
      l := j;
    }
  }

  /**
   Exactly once: if nothing is deleted while a listing runs, a complete listing returns each live
   child once, in snapshot order, if and only if no slot deleted before it precedes a live one.
   Otherwise it returns more entries than there are children, so some child twice.
   */
  lemma ExactlyOnceIffLivePrefix(calls: seq<Call>, live: seq<bool>)
    requires Calls(calls, |live|) && SameLive(calls, live) && Ended(calls)
    ensures LivePrefix(live) ==> Listing(calls) == LiveSlots(live, 0)
    ensures !LivePrefix(live) ==> |Listing(calls)| > |LiveSlots(live, 0)|
  {
    if LivePrefix(live) {
      ListingExactOfPrefix(calls, live);
    } else {
      var d, j :| 0 <= d < j < |live| && live[j] && !live[d];
      var l := LastLive(live, j);
      FewerLiveThanPassed(live, d, l);
      EndedPastLive(calls, live, l);
    }
  }

  /** A deleted slot before a live one, pages of one entry: the only live child is listed twice. */
  lemma ListedTwice(c: Call)
    requires c == Call([false, true], 1)
    ensures Calls([c, c, c], 2) && Ended([c, c, c])
    ensures LiveSlots(c.live, 0) == [1] && Listing([c, c, c]) == [1, 1]
  {
    assert Page(c.live, 0, 1) == Page(c.live, 1, 1) == [1] && Page(c.live, 2, 1) == [];
    assert [c, c, c][..2] == [c, c] && [c, c][..1] == [c] && [c][..0] == [];
    assert Listing([c]) == Listing([]) + [1];
    assert Listing([c, c]) == [1, 1];
  }

  /** In particular, with no deletions at all every child is returned once, in snapshot order. */
  lemma NoDeletionsExactlyOnce(calls: seq<Call>, live: seq<bool>)
    requires Calls(calls, |live|) && SameLive(calls, live) && Ended(calls)
    requires forall i :: 0 <= i < |live| ==> live[i]
    ensures Listing(calls) == UpTo(0, |live|)
  {
    ExactlyOnceIffLivePrefix(calls, live);
    LiveSlotsOfPrefix(live, 0, |live|);
  }

  /* ---------- With deletions during the listing: no child twice ---------- */

  /** Deleted children never come back. */
  predicate Shrinking(calls: seq<Call>) {
    forall a, b, i :: 0 <= a < b < |calls| && 0 <= i < |calls[a].live| && i < |calls[b].live| && calls[b].live[i] ==>
      calls[a].live[i]
  }

  predicate Distinct(s: seq<nat>) {
    forall a, b :: 0 <= a < b < |s| ==> s[a] != s[b]
  }

  /** When call `b` is made, every live slot at or after its offset lies beyond all that was returned before. */
  predicate Resumes(calls: seq<Call>, b: nat)
    requires b < |calls|
  {
    var before := Listing(calls[..b]);
    forall i, k :: |before| <= i < |calls[b].live| && calls[b].live[i] && 0 <= k < |before| ==> before[k] < i
  }

  /** A page leaves out no live slot between its offset and what it returns, and starts at the first one. */
  lemma {:induction false} PageCovers(live: seq<bool>, offset: nat, room: nat, i: nat)
    requires offset <= i < |live| && live[i]
    ensures var p := Page(live, offset, room);
            && (forall k :: 0 <= k < |p| && i <= p[k] ==> i in p)
            && (room > 0 ==> p != [] && offset <= p[0] <= i && live[p[0]])
    decreases |live| - offset
  {
    if room > 0 && offset < i {
      PageCovers(live, offset + 1, if live[offset] then room - 1 else room, i);
      PageMeaning(live, offset + 1, if live[offset] then room - 1 else room);
    }
  }

  /** A returned slot was returned by some call, whose offset is no later than that of any later call. */
  lemma {:induction false} ReturnedBy(calls: seq<Call>, n: nat, r: nat) returns (a: nat)
    requires Calls(calls, n) && r in Listing(calls)
    ensures a < |calls| && |Listing(calls[..a])| <= |Listing(calls)|
    ensures r in Page(calls[a].live, |Listing(calls[..a])|, calls[a].room)
    ensures forall i :: i in Page(calls[a].live, |Listing(calls[..a])|, calls[a].room) ==> i in Listing(calls)
    decreases |calls|
  {
    var less := calls[..|calls| - 1];
    if r in Listing(less) {
      a := ReturnedBy(less, n, r);
      assert less[..a] == calls[..a];
    } else {
      a := |calls| - 1;
    }
  }

  /** A call that does not resume beyond what was returned returns something again. */
  lemma ReturnsAgain(calls: seq<Call>, n: nat, b: nat) returns (i: nat)
    requires Calls(calls, n) && Shrinking(calls) && b < |calls| && !Resumes(calls, b)
    ensures i in Listing(calls[..b]) && i in Page(calls[b].live, |Listing(calls[..b])|, calls[b].room)
  {
    var before := Listing(calls[..b]);
    var j, k :| |before| <= j < |calls[b].live| && calls[b].live[j] && 0 <= k < |before| && before[k] >= j;
    PageCovers(calls[b].live, |before|, calls[b].room, j);
    i := Page(calls[b].live, |before|, calls[b].room)[0];
    var a := ReturnedBy(calls[..b], n, before[k]);
    assert calls[..b][..a] == calls[..a];
    assert calls[a].live[i];
    PageCovers(calls[a].live, |Listing(calls[..a])|, calls[a].room, i);
  }

  predicate Increasing(s: seq<nat>) {
    forall a, b :: 0 <= a < b < |s| ==> s[a] < s[b]
  }

  /** Pages that resume beyond all that was returned make one increasing list. */
  lemma {:induction false} ResumingIncreases(calls: seq<Call>, n: nat)
    requires Calls(calls, n) && forall b :: 0 <= b < |calls| ==> Resumes(calls, b)
    ensures Increasing(Listing(calls))
    decreases |calls|
  {
    if calls != [] {
      var less, c := calls[..|calls| - 1], calls[|calls| - 1];
      forall b | 0 <= b < |less| ensures Resumes(less, b) {
        assert Resumes(calls, b) && less[..b] == calls[..b];
      }
      ResumingIncreases(less, n);
      ListingInRange(less, n);
      PageMeaning(c.live, |Listing(less)|, c.room);
      assert Resumes(calls, |calls| - 1);
    }
  }

  lemma {:induction false} ListingStarts(calls: seq<Call>, b: nat)
    requires b <= |calls|
    ensures Listing(calls[..b]) <= Listing(calls)
    decreases |calls|
  {
    if b == |calls| {
      assert calls[..b] == calls;
    } else {
      ListingStarts(calls[..|calls| - 1], b);
      assert calls[..|calls| - 1][..b] == calls[..b];
    }
  }

  lemma AgainIsNotDistinct(calls: seq<Call>, b: nat, i: nat)
    requires b < |calls|
    requires i in Listing(calls[..b]) && i in Page(calls[b].live, |Listing(calls[..b])|, calls[b].room)
    ensures !Distinct(Listing(calls))
  {
    var before, page := Listing(calls[..b]), Page(calls[b].live, |Listing(calls[..b])|, calls[b].room);
    assert calls[..b + 1][..b] == calls[..b];
    assert Listing(calls[..b + 1]) == before + page;
    ListingStarts(calls, b + 1);
    var k :| 0 <= k < |before| && before[k] == i;
    var l :| 0 <= l < |page| && page[l] == i;
    assert Listing(calls)[k] == i && Listing(calls)[|before| + l] == i;
  }

  /**
   Whatever is deleted while the listing runs: no child is returned twice if and only if at each call
   every slot between its offset and the last one returned so far has been deleted.  Then the slots come
   in increasing order.
   */
  lemma NoDuplicateIffResumes(calls: seq<Call>, n: nat)
    requires Calls(calls, n) && Shrinking(calls)
    ensures Distinct(Listing(calls)) <==> forall b :: 0 <= b < |calls| ==> Resumes(calls, b)
    ensures Distinct(Listing(calls)) ==> Increasing(Listing(calls))
  {
    if forall b :: 0 <= b < |calls| ==> Resumes(calls, b) {
      ResumingIncreases(calls, n);
    } else {
      var b :| 0 <= b < |calls| && !Resumes(calls, b);
      var i := ReturnsAgain(calls, n, b);
      AgainIsNotDistinct(calls, b, i);
    }
  }
}
