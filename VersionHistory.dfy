/**
 * Version histories as the provider reads them through the version history
 * service: a history is the sequence of versions of one work, in the order
 * they were created, each with its number and its item.
 */
module VersionHistory {
  import opened Wrappers
  import opened Objects

  datatype Version = Version(number: nat, item: Obj)

  type History = seq<Version>

  /**
   * `getLatestVersion`: the version with the highest number; among versions
   * that share that number, the one created first.
   */
  function Latest(h: History): (v: Version)
    requires |h| > 0
    ensures v in h
    ensures forall w :: w in h ==> w.number <= v.number
  {
    if |h| == 1 then h[0]
    else
      var rest := Latest(h[1..]);
      assert forall w :: w in h ==> w == h[0] || w in h[1..];
      if h[0].number >= rest.number then h[0] else rest
  }

  /**
   * `getPrevious`: the version with the highest number below `n`, or `None`
   * (Java's null) when no version has a lower number.
   */
  function Previous(h: History, n: nat): (r: Option<Version>)
    ensures r.Some? ==> r.value in h && r.value.number < n
    ensures r.Some? ==> forall w :: w in h && w.number < n ==> w.number <= r.value.number
    ensures r.None? <==> forall w :: w in h ==> n <= w.number
  {
    if |h| == 0 then None
    else
      var rest := Previous(h[1..], n);
      assert forall w :: w in h ==> w == h[0] || w in h[1..];
      if h[0].number < n && (rest.None? || h[0].number >= rest.value.number) then Some(h[0]) else rest
  }

  /**
   * `isFirstVersion`: the given version is the one with the lowest number
   * in the history; a missing version (Java's null) is never the first.
   */
  predicate IsFirst(h: History, v: Option<Version>) {
    v.Some? && v.value in h && forall w :: w in h ==> v.value.number <= w.number
  }

  /** The first version is exactly a version of the history with no previous version. */
  lemma IsFirstHasNoPrevious(h: History, v: Option<Version>)
    ensures IsFirst(h, v) <==> v.Some? && v.value in h && Previous(h, v.value.number).None?
  {
  }

  /** Some version of `h` has `o` as its item. */
  predicate InHistory(h: History, o: Obj) {
    exists w :: w in h && w.item == o
  }

  /** `getVersion(item)`: the (first) version of `h` whose item is `o`. */
  function VersionOf(h: History, o: Obj): (r: Option<Version>)
    ensures r.Some? ==> r.value in h && r.value.item == o
    ensures r.Some? <==> InHistory(h, o)
  {
    if |h| == 0 then None
    else if h[0].item == o then Some(h[0])
    else
      assert forall w :: w in h ==> w == h[0] || w in h[1..];
      VersionOf(h[1..], o)
  }

  /** `findByItem`: the index of the first history that holds a version of `o`. */
  function FindByItem(hs: seq<History>, o: Obj): (r: Option<nat>)
    ensures r.Some? ==> r.value < |hs| && InHistory(hs[r.value], o)
    ensures r.Some? ==> forall k :: 0 <= k < r.value ==> !InHistory(hs[k], o)
    ensures r.None? <==> forall k :: 0 <= k < |hs| ==> !InHistory(hs[k], o)
  {
    if |hs| == 0 then None
    else
      var front := FindByItem(hs[..|hs| - 1], o);
      if front.Some? then front
      else if InHistory(hs[|hs| - 1], o) then Some(|hs| - 1)
      else None
  }

  /** The history of `o`, which only an item can have. */
  function HistoryOf(hs: seq<History>, o: Obj): (r: Option<nat>)
    ensures r.Some? ==> o.Item? && r.value < |hs| && InHistory(hs[r.value], o)
    ensures o.Item? ==> r == FindByItem(hs, o)
  {
    if o.Item? then FindByItem(hs, o) else None
  }

  /** Version numbers within the history are unique. */
  predicate DistinctNumbers(h: History) {
    forall i, j :: 0 <= i < j < |h| ==> h[i].number != h[j].number
  }

  /**
   * With unique numbers, a history of two or more versions always has a
   * version before its latest one, so the provider's delete can repoint.
   */
  lemma PreviousOfLatestExists(h: History)
    requires |h| > 1 && DistinctNumbers(h)
    ensures Previous(h, Latest(h).number).Some?
  {
    var top := Latest(h);
    var i :| 0 <= i < |h| && h[i] == top;
    var j := if i == 0 then 1 else 0;
    assert h[j].number != top.number;
    assert h[j] in h;
  }

  // ---------------------------------------------------------------------
  // Restoring version n into an existing history
  // ---------------------------------------------------------------------

  /**
   * The test the provider writes before moving the canonical handle to a
   * restored version: the latest number, read AFTER version n has been added,
   * is below n.
   */
  predicate RestoreMovesCanonicalAsWritten(updated: History, n: nat)
    requires |updated| > 0
  {
    Latest(updated).number < n
  }

  /** Once version n is in the history, the latest number is at least n. */
  lemma AsWrittenRestoreNeverMovesCanonical(h: History, v: Version)
    ensures !RestoreMovesCanonicalAsWritten(h + [v], v.number)
  {
    assert v in h + [v];
  }

  /**
   * The intended test: the restored version is newer than every version
   * already in the history, i.e. the latest number read BEFORE adding it is
   * below n.
   */
  predicate RestoreMovesCanonical(h: History, n: nat) {
    |h| == 0 || Latest(h).number < n
  }

  /** The intended test holds exactly when n is above every existing number. */
  lemma RestoreMovesCanonicalIff(h: History, n: nat)
    ensures RestoreMovesCanonical(h, n) <==> forall w :: w in h ==> w.number < n
  {
    if |h| > 0 {
      assert Latest(h) in h;
    }
  }

  /**
   * Adding a version that does not beat the latest leaves the latest
   * version where it was.
   */
  lemma {:induction false} LatestKeptByOlderVersion(h: History, v: Version)
    requires |h| > 0 && v.number <= Latest(h).number
    ensures Latest(h + [v]) == Latest(h)
  {
    var hv := h + [v];
    assert hv[1..] == h[1..] + [v];
    if |h| > 1 {
      var rest := Latest(h[1..]);
      if v.number <= rest.number {
        LatestKeptByOlderVersion(h[1..], v);
      } else {
        LatestTakenByNewerVersion(h[1..], v);
      }
    }
  }

  /** Adding a version numbered above all others makes it the latest. */
  lemma {:induction false} LatestTakenByNewerVersion(h: History, v: Version)
    requires forall w :: w in h ==> w.number < v.number
    ensures Latest(h + [v]) == v
  {
    var hv := h + [v];
    if |h| > 0 {
      assert hv[1..] == h[1..] + [v];
      assert forall w :: w in h[1..] ==> w in h;
      LatestTakenByNewerVersion(h[1..], v);
      assert h[0] in h;
    }
  }

  /**
   * With the intended test, the canonical handle follows the latest version:
   * if the test holds the restored version becomes the latest, otherwise the
   * latest version does not change.
   */
  lemma RestoreKeepsCanonicalOnLatest(h: History, v: Version)
    ensures RestoreMovesCanonical(h, v.number) ==> Latest(h + [v]) == v
    ensures !RestoreMovesCanonical(h, v.number) ==> Latest(h + [v]) == Latest(h)
  {
    RestoreMovesCanonicalIff(h, v.number);
    if RestoreMovesCanonical(h, v.number) {
      LatestTakenByNewerVersion(h, v);
    } else {
      LatestKeptByOlderVersion(h, v);
    }
  }

  /**
   * The version `register(dso, identifier)` restores after the latest one
   * becomes the latest, so the canonical handle moves to its item.
   */
  lemma NextVersionIsLatest(h: History, o: Obj)
    requires |h| > 0
    ensures RestoreMovesCanonical(h, Latest(h).number + 1)
    ensures Latest(h + [Version(Latest(h).number + 1, o)]) == Version(Latest(h).number + 1, o)
  {
    RestoreKeepsCanonicalOnLatest(h, Version(Latest(h).number + 1, o));
  }
}
