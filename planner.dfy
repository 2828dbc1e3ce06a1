/**
 * The synchronisation planner: the loop at main.go:46-60. The newest
 * remote snapshot is the anchor; the local snapshots are scanned in order
 * with a cursor `previousSnapshot`, and once the cursor is set every
 * further local snapshot is sent incrementally against it (one
 * `sendSnapshot` call, modelled as one emitted `Send`) and becomes the new
 * cursor. The program's "unset" value for the cursor is the empty string;
 * here it is `None`, and every assignment of a string to the cursor goes
 * through `Mark`, so an empty snapshot name unsets it exactly as it does
 * in the program.
 */
module Planner {
  import opened Wrappers
  import opened GoStrings

  /** One call `sendSnapshot(snapshot, parent, ...)`: send `snapshot` as a delta against `parent`. */
  datatype Send = Send(snapshot: string, parent: string)

  /** The cursor value a string assignment gives: "" is the unset cursor. */
  function Mark(s: string): (c: Option<string>)
    ensures c.None? <==> s == ""
    ensures c.Some? ==> c.value == s
  {
    if s == "" then None else Some(s)
  }

  /** One pass of the loop body (main.go:49-59): the new cursor and the sends it makes. */
  function Step(cursor: Option<string>, snapshot: string, anchor: string): (Option<string>, seq<Send>)
  {
    var sent := if cursor.Some? then [Send(snapshot, cursor.value)] else [];
    var afterSend := if cursor.Some? then Mark(snapshot) else cursor;
    (if snapshot == anchor then Mark(anchor) else afterSend, sent)
  }

  /** The cursor and the sends after the loop has scanned `local` from its start. */
  function Run(local: seq<string>, anchor: string): (Option<string>, seq<Send>)
  {
    if local == [] then (None, [])
    else
      var before := Run(local[..|local| - 1], anchor);
      var after := Step(before.0, local[|local| - 1], anchor);
      (after.0, before.1 + after.1)
  }

  /** The sends the planner makes for the local and remote snapshot lists. */
  function Plan(local: seq<string>, remote: seq<string>): seq<Send>
    requires |remote| > 0
  {
    Run(local, remote[|remote| - 1]).1
  }

  /** The planner loop of `main`, returning the sends in the order it makes them. */
  method PlanSends(local: seq<string>, remote: seq<string>) returns (sends: seq<Send>)
    requires |remote| > 0
    ensures sends == Plan(local, remote)
  {
    var mostRecentRemote := remote[|remote| - 1];
    var previous: Option<string> := None;
    sends := [];
    for i := 0 to |local|
      invariant (previous, sends) == Run(local[..i], mostRecentRemote)
    {
      var snapshot := local[i];
      assert local[..i + 1][..i] == local[..i] && local[..i + 1][i] == snapshot;
      ghost var step := Step(previous, snapshot, mostRecentRemote);
      assert Run(local[..i + 1], mostRecentRemote) == (step.0, sends + step.1);
      assert sends + [] == sends;
      if previous.Some? {
        sends := sends + [Send(snapshot, previous.value)];
        previous := Mark(snapshot);
      }
      if snapshot == mostRecentRemote {
        previous := Mark(mostRecentRemote);
      }
    }
    assert local[..|local|] == local;
  }

  // ---------------------------------------------------------------------
  // What the planner sends

  /** Until the anchor has been seen (or when it is ""), the cursor stays unset and nothing is sent. */
  lemma {:induction false} RunBeforeAnchor(local: seq<string>, anchor: string)
    requires anchor !in local || anchor == ""
    ensures Run(local, anchor) == (None, [])
  {
    if local != [] {
      var init := local[..|local| - 1];
      assert forall x :: x in init ==> x in local;
      assert local[|local| - 1] in local;
      RunBeforeAnchor(init, anchor);
      assert Step(None, local[|local| - 1], anchor).1 == [];
      assert [] + [] == Run(local, anchor).1;
    }
  }

  /** When the anchor is not among the local snapshots, nothing is sent and no error is reported. */
  lemma NoAnchorNoSends(local: seq<string>, remote: seq<string>)
    requires |remote| > 0 && remote[|remote| - 1] !in local
    ensures Plan(local, remote) == []
  {
    RunBeforeAnchor(local, remote[|remote| - 1]);
  }

  /** The sends from the anchor at `k` up to position `n`: each snapshot against its predecessor. */
  function Chain(local: seq<string>, k: nat, n: nat): (r: seq<Send>)
    requires k < n <= |local|
    ensures |r| == n - 1 - k
    ensures forall j :: 0 <= j < |r| ==> r[j] == Send(local[k + 1 + j], local[k + j])
  {
    if n == k + 1 then [] else Chain(local, k, n - 1) + [Send(local[n - 1], local[n - 2])]
  }

  /**
   * From the first occurrence `k` of a non-empty anchor on, the cursor is
   * always the last scanned snapshot, and every later snapshot has been
   * sent against its predecessor.
   */
  lemma {:induction false} RunFromAnchor(local: seq<string>, anchor: string, k: nat, n: nat)
    requires k < n <= |local|
    requires local[k] == anchor != "" && anchor !in local[..k]
    requires forall i :: k < i < |local| ==> local[i] != ""
    ensures Run(local[..n], anchor) == (Some(local[n - 1]), Chain(local, k, n))
  {
    assert local[..n][..n - 1] == local[..n - 1] && local[..n][n - 1] == local[n - 1];
    if n == k + 1 {
      RunBeforeAnchor(local[..k], anchor);
      assert [] + [] == Run(local[..n], anchor).1;
    } else {
      RunFromAnchor(local, anchor, k, n - 1);
      assert local[n - 1] != "";
    }
  }

  /**
   * With the anchor first found at `k`, the planner sends exactly
   * `(local[i + 1], local[i])` for `i` from `k` to `|local| - 2`, in
   * ascending order.
   */
  lemma PlanFromAnchor(local: seq<string>, remote: seq<string>, k: nat)
    requires |remote| > 0 && k < |local|
    requires local[k] == remote[|remote| - 1] != "" && remote[|remote| - 1] !in local[..k]
    requires forall i :: k < i < |local| ==> local[i] != ""
    ensures |Plan(local, remote)| == |local| - 1 - k
    ensures forall j :: 0 <= j < |Plan(local, remote)| ==>
              Plan(local, remote)[j] == Send(local[k + 1 + j], local[k + j])
  {
    RunFromAnchor(local, remote[|remote| - 1], k, |local|);
    assert local[..|local|] == local;
  }

  // ---------------------------------------------------------------------
  // Sorted snapshot lists, as `sort.Strings` leaves them

  /** Ascending with no duplicates. */
  predicate StrictlySorted(s: seq<string>)
  {
    forall i, j :: 0 <= i < j < |s| ==> Less(s[i], s[j])
  }

  /** Ascending, duplicates allowed: no later element is below an earlier one. */
  predicate Sorted(s: seq<string>)
  {
    forall i, j :: 0 <= i < j < |s| ==> !Less(s[j], s[i])
  }

  /**
   * With a sorted duplicate-free local list containing the newest remote
   * snapshot, the planner sends every newer local snapshot, in ascending
   * order; the first send is against the anchor, each later one against
   * the snapshot sent just before; the anchor itself is never sent, and
   * nothing already at the remote side is sent again.
   */
  lemma SortedPlan(local: seq<string>, remote: seq<string>)
    requires |remote| > 0 && remote[|remote| - 1] != ""
    requires StrictlySorted(local) && Sorted(remote)
    requires remote[|remote| - 1] in local
    ensures var sends := Plan(local, remote);
      var anchor := remote[|remote| - 1];
      (forall j :: 0 <= j < |sends| ==> Less(anchor, sends[j].snapshot)) &&
      (forall j :: 0 <= j < |sends| ==> sends[j].snapshot !in remote) &&
      (|sends| > 0 ==> sends[0].parent == anchor) &&
      (forall j :: 0 < j < |sends| ==> sends[j].parent == sends[j - 1].snapshot) &&
      (forall j :: 0 <= j < |sends| ==> sends[j].snapshot in local)
  {
    var anchor := remote[|remote| - 1];
    var k :| 0 <= k < |local| && local[k] == anchor;
    LessIrreflexive(anchor);
    assert forall i :: 0 <= i < k ==> Less(local[i], local[k]);
    assert anchor !in local[..k];
    forall i | k < i < |local|
      ensures local[i] != ""
    {
      assert Less(anchor, local[i]);
    }
    PlanFromAnchor(local, remote, k);
    var sends := Plan(local, remote);
    forall j | 0 <= j < |sends|
      ensures Less(anchor, sends[j].snapshot) && sends[j].snapshot !in remote
    {
      var s := sends[j].snapshot;
      assert s == local[k + 1 + j];
      forall m | 0 <= m < |remote|
        ensures remote[m] != s
      {
        if m < |remote| - 1 {
          assert !Less(anchor, remote[m]);
        }
      }
    }
  }

  /** Five local snapshots, three of them already remote: 4 is sent against 3, then 5 against 4. */
  lemma PlanExample(local: seq<string>, remote: seq<string>)
    requires local == ["1", "2", "3", "4", "5"] && remote == ["1", "2", "3"]
    ensures Plan(local, remote) == [Send("4", "3"), Send("5", "4")]
  {
    PlanFromAnchor(local, remote, 2);
  }

  /** No common snapshot: nothing is sent. */
  lemma PlanNoOverlapExample(local: seq<string>, remote: seq<string>)
    requires local == ["1", "2"] && remote == ["9"]
    ensures Plan(local, remote) == []
  {
    NoAnchorNoSends(local, remote);
  }
}
