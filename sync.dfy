/** Which chapters one pass of `eat_mango` downloads. The listing is visited in reverse;
    a chapter is skipped when its identifier is already in the series' list of downloaded
    chapters. That list is the very object the loop appends to, so an identifier seen
    earlier in the same pass is skipped as well. */
module Sync {
  import opened Listing

  /** The listing in the order `reversed(chapters)` visits it. */
  function Reverse<T>(s: seq<T>): seq<T>
  {
    if s == [] then [] else [s[|s| - 1]] + Reverse(s[..|s| - 1])
  }

  /** Position `k` of the reversed listing holds the `k`-th chapter from the end. */
  lemma {:induction false} ReverseAt<T>(s: seq<T>)
    ensures |Reverse(s)| == |s|
    ensures forall k :: 0 <= k < |s| ==> Reverse(s)[k] == s[|s| - 1 - k]
  {
    if s != [] {
      var init := s[..|s| - 1];
      ReverseAt(init);
      assert Reverse(s) == [s[|s| - 1]] + Reverse(init);
      forall k | 0 < k < |s|
        ensures Reverse(s)[k] == s[|s| - 1 - k]
      {
        assert Reverse(s)[k] == Reverse(init)[k - 1] == init[|init| - k];
      }
    }
  }

  /** Reversing a sequence with `x` in front puts `x` at the end. */
  lemma {:induction false} ReverseCons<T>(x: T, s: seq<T>)
    ensures Reverse([x] + s) == Reverse(s) + [x]
    decreases |s|
  {
    if s != [] {
      var init := s[..|s| - 1];
      ReverseCons(x, init);
      assert ([x] + s)[..|s|] == [x] + init;
    }
  }

  /** The identifiers of a sequence of chapters, in order. */
  function IdsOf(chapters: seq<Chapter>): seq<string>
  {
    if chapters == [] then []
    else IdsOf(chapters[..|chapters| - 1]) + [ChapterKey(chapters[|chapters| - 1])]
  }

  /** Position `k` of the identifiers is the identifier of the `k`-th chapter. */
  lemma {:induction false} IdsOfAt(chapters: seq<Chapter>)
    ensures |IdsOf(chapters)| == |chapters|
    ensures forall k :: 0 <= k < |chapters| ==> IdsOf(chapters)[k] == ChapterKey(chapters[k])
  {
    if chapters != [] {
      var init := chapters[..|chapters| - 1];
      IdsOfAt(init);
      forall k | 0 <= k < |init|
        ensures IdsOf(chapters)[k] == ChapterKey(chapters[k])
      {
        assert chapters[k] == init[k];
      }
    }
  }

  /** The chapters of `visit` that get downloaded, in the order they are downloaded, when
      `done` holds the identifiers downloaded before the pass. */
  function Pending(visit: seq<Chapter>, done: seq<string>): seq<Chapter>
    decreases |visit|
  {
    if visit == [] then []
    else
      var before := Pending(visit[..|visit| - 1], done);
      var chapter := visit[|visit| - 1];
      if ChapterKey(chapter) in done + IdsOf(before) then before else before + [chapter]
  }

  predicate NoDuplicates<T(==)>(s: seq<T>)
  {
    forall i, j :: 0 <= i < j < |s| ==> s[i] != s[j]
  }

  lemma IdsOfAppend(chapters: seq<Chapter>, chapter: Chapter)
    ensures IdsOf(chapters + [chapter]) == IdsOf(chapters) + [ChapterKey(chapter)]
  {
    assert (chapters + [chapter])[..|chapters|] == chapters;
  }

  /** One more visited chapter adds it to the pending ones exactly when its identifier is
      neither in the list from before the pass nor among those added so far. */
  lemma PendingNext(visit: seq<Chapter>, n: nat, done: seq<string>)
    requires n < |visit|
    ensures Pending(visit[..n + 1], done) ==
      var before := Pending(visit[..n], done);
      if ChapterKey(visit[n]) in done + IdsOf(before) then before else before + [visit[n]]
  {
    assert visit[..n + 1][..n] == visit[..n];
  }

  /** No identifier is added twice, and none that was there before the pass: a list
      without duplicates stays without duplicates. */
  lemma {:induction false} PendingNoDuplicates(visit: seq<Chapter>, done: seq<string>)
    requires NoDuplicates(done)
    ensures NoDuplicates(done + IdsOf(Pending(visit, done)))
    decreases |visit|
  {
    if visit != [] {
      var before := Pending(visit[..|visit| - 1], done);
      var chapter := visit[|visit| - 1];
      PendingNoDuplicates(visit[..|visit| - 1], done);
      IdsOfAppend(before, chapter);
      var listed := done + IdsOf(before);
      assert done + IdsOf(before + [chapter]) == listed + [ChapterKey(chapter)];
    }
  }

  /** After the pass every visited chapter's identifier is in the list. */
  lemma {:induction false} PendingCovers(visit: seq<Chapter>, done: seq<string>)
    ensures forall k :: 0 <= k < |visit| ==>
      ChapterKey(visit[k]) in done + IdsOf(Pending(visit, done))
    decreases |visit|
  {
    if visit != [] {
      var init := visit[..|visit| - 1];
      var before := Pending(init, done);
      var chapter := visit[|visit| - 1];
      PendingCovers(init, done);
      IdsOfAppend(before, chapter);
      var after := Pending(visit, done);
      assert forall x :: x in done + IdsOf(before) ==> x in done + IdsOf(after);
      forall k | 0 <= k < |visit|
        ensures ChapterKey(visit[k]) in done + IdsOf(after)
      {
        if k < |init| {
          assert visit[k] == init[k];
        }
      }
    }
  }

  /** A chapter whose identifier was downloaded before the pass is never downloaded again. */
  lemma {:induction false} PendingSkipsDone(visit: seq<Chapter>, done: seq<string>)
    ensures forall k :: 0 <= k < |Pending(visit, done)| ==>
      ChapterKey(Pending(visit, done)[k]) !in done
    decreases |visit|
  {
    if visit != [] {
      PendingSkipsDone(visit[..|visit| - 1], done);
    }
  }

  /** Some chapter of `visit` has identifier `x`. */
  predicate Visited(visit: seq<Chapter>, x: string)
  {
    exists j :: 0 <= j < |visit| && ChapterKey(visit[j]) == x
  }

  /** An identifier is visited by a non-empty visit exactly when it is visited before the
      last chapter or is the last chapter's. */
  lemma VisitedLast(visit: seq<Chapter>, x: string)
    requires visit != []
    ensures Visited(visit, x) <==>
      Visited(visit[..|visit| - 1], x) || x == ChapterKey(visit[|visit| - 1])
  {
    var init := visit[..|visit| - 1];
    if Visited(init, x) {
      var j :| 0 <= j < |init| && ChapterKey(init[j]) == x;
      assert visit[j] == init[j];
    }
    if Visited(visit, x) {
      var j :| 0 <= j < |visit| && ChapterKey(visit[j]) == x;
      if j < |init| {
        assert init[j] == visit[j];
      }
    }
  }

  /** The identifiers a pass leaves in the list are those recorded before it and those of
      the chapters it visits. */
  lemma {:induction false} PendingIds(visit: seq<Chapter>, done: seq<string>)
    ensures forall x :: x in done + IdsOf(Pending(visit, done)) <==> (x in done || Visited(visit, x))
    decreases |visit|
  {
    if visit != [] {
      var init := visit[..|visit| - 1];
      var before := Pending(init, done);
      var chapter := visit[|visit| - 1];
      PendingIds(init, done);
      IdsOfAppend(before, chapter);
      var after := Pending(visit, done);
      assert forall x :: x in done + IdsOf(after) <==>
        (x in done + IdsOf(before) || x == ChapterKey(chapter));
      forall x
        ensures x in done + IdsOf(after) <==> (x in done || Visited(visit, x))
      {
        VisitedLast(visit, x);
      }
    }
  }

  /** The `k`-th visited chapter is the first visit of an identifier not recorded before
      the pass. */
  predicate FirstSeen(visit: seq<Chapter>, done: seq<string>, k: nat)
    requires k < |visit|
  {
    && ChapterKey(visit[k]) !in done
    && forall j :: 0 <= j < k ==> ChapterKey(visit[j]) != ChapterKey(visit[k])
  }

  /** Whether a chapter before the last is a first visit does not depend on the last. */
  lemma FirstSeenInit(visit: seq<Chapter>, done: seq<string>, k: nat)
    requires k < |visit| - 1
    ensures FirstSeen(visit, done, k) == FirstSeen(visit[..|visit| - 1], done, k)
  {
    var init := visit[..|visit| - 1];
    assert forall j :: 0 <= j <= k ==> init[j] == visit[j];
  }

  /** The last visited chapter is a first visit exactly when its identifier is neither
      recorded nor among those the pass appended before it. */
  lemma FirstSeenLast(visit: seq<Chapter>, done: seq<string>)
    requires visit != []
    ensures FirstSeen(visit, done, |visit| - 1) <==>
      ChapterKey(visit[|visit| - 1]) !in done + IdsOf(Pending(visit[..|visit| - 1], done))
  {
    var init := visit[..|visit| - 1];
    var id := ChapterKey(visit[|visit| - 1]);
    PendingIds(init, done);
    if Visited(init, id) {
      var j :| 0 <= j < |init| && ChapterKey(init[j]) == id;
      assert visit[j] == init[j];
    }
    if exists j :: 0 <= j < |visit| - 1 && ChapterKey(visit[j]) == id {
      var j :| 0 <= j < |visit| - 1 && ChapterKey(visit[j]) == id;
      assert init[j] == visit[j];
    }
  }

  /** The pending chapters are visited chapters taken in visiting order: `index` gives,
      strictly increasing, the position in `visit` of each one; and a position is taken
      exactly when it is the first visit of an identifier not recorded before the pass.
      So of several chapters sharing a new identifier, the first one visited is
      downloaded. */
  lemma {:induction false} PendingInOrder(visit: seq<Chapter>, done: seq<string>)
    returns (index: seq<nat>)
    ensures |index| == |Pending(visit, done)|
    ensures forall k :: 0 <= k < |index| ==>
      index[k] < |visit| && Pending(visit, done)[k] == visit[index[k]]
    ensures forall k, l :: 0 <= k < l < |index| ==> index[k] < index[l]
    ensures forall k :: 0 <= k < |visit| ==> (k in index <==> FirstSeen(visit, done, k))
    decreases |visit|
  {
    if visit == [] {
      index := [];
    } else {
      var init := visit[..|visit| - 1];
      var before := Pending(init, done);
      var chapter := visit[|visit| - 1];
      var earlier := PendingInOrder(init, done);
      var pending := Pending(visit, done);
      FirstSeenLast(visit, done);
      if ChapterKey(chapter) in done + IdsOf(before) {
        index := earlier;
        assert pending == before;
        forall k | 0 <= k < |index|
          ensures index[k] < |visit| && pending[k] == visit[index[k]]
        {
          assert before[k] == init[earlier[k]];
        }
      } else {
        index := earlier + [|visit| - 1];
        assert pending == before + [chapter];
        forall k | 0 <= k < |index|
          ensures index[k] < |visit| && pending[k] == visit[index[k]]
        {
          if k < |earlier| {
            assert before[k] == init[earlier[k]];
          }
        }
      }
      FirstSeenStep(visit, done, earlier, index);
    }
  }

  /** The positions taken after one more visited chapter are the earlier ones, plus the
      last position when it is a first visit. */
  lemma FirstSeenStep(visit: seq<Chapter>, done: seq<string>, earlier: seq<nat>, index: seq<nat>)
    requires visit != []
    requires forall k :: 0 <= k < |earlier| ==> earlier[k] < |visit| - 1
    requires forall k :: 0 <= k < |visit| - 1 ==>
      (k in earlier <==> FirstSeen(visit[..|visit| - 1], done, k))
    requires index == if FirstSeen(visit, done, |visit| - 1) then earlier + [|visit| - 1] else earlier
    ensures forall k :: 0 <= k < |visit| ==> (k in index <==> FirstSeen(visit, done, k))
  {
    forall k | 0 <= k < |visit|
      ensures k in index <==> FirstSeen(visit, done, k)
    {
      if k < |visit| - 1 {
        FirstSeenInit(visit, done, k);
        assert k in index <==> k in earlier;
      } else {
        assert |visit| - 1 !in earlier;
      }
    }
  }

  /** The identifiers of `visit` are pairwise distinct and none is in `done`. */
  predicate AllNew(visit: seq<Chapter>, done: seq<string>)
  {
    && (forall i, j :: 0 <= i < j < |visit| ==> ChapterKey(visit[i]) != ChapterKey(visit[j]))
    && (forall k :: 0 <= k < |visit| ==> ChapterKey(visit[k]) !in done)
  }

  /** When the visited identifiers are pairwise distinct and none was downloaded before,
      every visited chapter is downloaded, in visiting order. */
  lemma {:induction false} PendingAllNew(visit: seq<Chapter>, done: seq<string>)
    requires AllNew(visit, done)
    ensures Pending(visit, done) == visit
    decreases |visit|
  {
    if visit != [] {
      var init, chapter := visit[..|visit| - 1], visit[|visit| - 1];
      AllNewInit(visit, done);
      PendingAllNew(init, done);
      AllNewLast(visit, done);
      PendingAllNewStep(visit, init, chapter, done);
    }
  }

  /** Dropping the last visited chapter keeps the identifiers distinct and new. */
  lemma AllNewInit(visit: seq<Chapter>, done: seq<string>)
    requires visit != [] && AllNew(visit, done)
    ensures AllNew(visit[..|visit| - 1], done)
  {
    var init := visit[..|visit| - 1];
    forall i, j | 0 <= i < j < |init|
      ensures ChapterKey(init[i]) != ChapterKey(init[j])
    {
      assert init[i] == visit[i] && init[j] == visit[j];
    }
  }

  /** The identifier of the last visited chapter is neither in `done` nor among those of
      the chapters before it. */
  lemma AllNewLast(visit: seq<Chapter>, done: seq<string>)
    requires visit != [] && AllNew(visit, done)
    ensures ChapterKey(visit[|visit| - 1]) !in done + IdsOf(visit[..|visit| - 1])
  {
    var init := visit[..|visit| - 1];
    IdsOfAt(init);
    forall k | 0 <= k < |init|
      ensures IdsOf(init)[k] != ChapterKey(visit[|visit| - 1])
    {
      assert init[k] == visit[k];
    }
  }

  /** A chapter with a new identifier, visited after chapters that were all downloaded, is
      downloaded after them. */
  lemma PendingAllNewStep(visit: seq<Chapter>, init: seq<Chapter>, chapter: Chapter, done: seq<string>)
    requires visit == init + [chapter]
    requires Pending(init, done) == init
    requires ChapterKey(chapter) !in done + IdsOf(init)
    ensures Pending(visit, done) == visit
  {
    assert visit[..|init|] == init;
  }

  /** A listing whose identifiers are pairwise distinct and all new is downloaded in full,
      in reverse. */
  lemma PendingReversed(listing: seq<Chapter>, done: seq<string>)
    requires AllNew(listing, done)
    ensures Pending(Reverse(listing), done) == Reverse(listing)
  {
    var visit := Reverse(listing);
    ReverseAt(listing);
    forall i, j | 0 <= i < j < |visit|
      ensures ChapterKey(visit[i]) != ChapterKey(visit[j])
    {
      assert visit[i] == listing[|listing| - 1 - i];
      assert visit[j] == listing[|listing| - 1 - j];
    }
    PendingAllNew(visit, done);
  }
}
