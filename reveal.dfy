/**
  The fade-in on scroll: every observed content block starts hidden and is
  revealed when a visibility report says it intersects the viewport. Nothing
  ever hides a block again.
 */
module Reveal {

  /** One visibility report: which observed block, and whether it now intersects. */
  datatype Report = Report(target: nat, isIntersecting: bool)

  /** Every report names one of the `n` observed blocks. */
  predicate Targets(reports: seq<Report>, n: nat) {
    forall k :: 0 <= k < |reports| ==> reports[k].target < n
  }

  /** The flags after handling the reports in order, each intersecting report revealing its block. */
  function Handle(revealed: seq<bool>, reports: seq<Report>): (r: seq<bool>)
    requires Targets(reports, |revealed|)
    ensures |r| == |revealed|
    decreases |reports|
  {
    if reports == [] then revealed
    else
      var before := Handle(revealed, reports[..|reports| - 1]);
      var last := reports[|reports| - 1];
      if last.isIntersecting then before[last.target := true] else before
  }

  /** Some report in `reports` says block `i` intersects. */
  ghost predicate ReportedVisible(reports: seq<Report>, i: nat) {
    exists k :: 0 <= k < |reports| && reports[k].target == i && reports[k].isIntersecting
  }

  /** A block is revealed afterwards exactly when it was already, or a report showed it. */
  lemma {:induction false} HandleReveals(revealed: seq<bool>, reports: seq<Report>, i: nat)
    requires Targets(reports, |revealed|) && i < |revealed|
    ensures Handle(revealed, reports)[i] <==> revealed[i] || ReportedVisible(reports, i)
    decreases |reports|
  {
    if reports != [] {
      var init := reports[..|reports| - 1];
      HandleReveals(revealed, init, i);
      if ReportedVisible(init, i) {
        var k :| 0 <= k < |init| && init[k].target == i && init[k].isIntersecting;
        assert reports[k] == init[k];
      }
      if ReportedVisible(reports, i) {
        var k :| 0 <= k < |reports| && reports[k].target == i && reports[k].isIntersecting;
        if k < |init| {
          assert init[k] == reports[k];
        }
      }
    }
  }

  /** Reveal is one-way: whatever reports arrive, a revealed block stays revealed. */
  lemma StaysRevealed(revealed: seq<bool>, reports: seq<Report>, i: nat)
    requires Targets(reports, |revealed|) && i < |revealed| && revealed[i]
    ensures Handle(revealed, reports)[i]
  {
    HandleReveals(revealed, reports, i);
  }

  /** Handling the same reports a second time changes nothing. */
  lemma HandleIdempotent(revealed: seq<bool>, reports: seq<Report>)
    requires Targets(reports, |revealed|)
    ensures Handle(Handle(revealed, reports), reports) == Handle(revealed, reports)
  {
    var once := Handle(revealed, reports);
    var twice := Handle(once, reports);
    forall i | 0 <= i < |revealed| ensures twice[i] == once[i] {
      HandleReveals(revealed, reports, i);
      HandleReveals(once, reports, i);
    }
  }

  class RevealAnimator {
    /** Per observed block: revealed (full opacity, natural position) or still hidden. */
    const revealed: array<bool>

    /** Registration: all `n` matching blocks start hidden. */
    constructor (n: nat)
      ensures fresh(revealed) && revealed.Length == n
      ensures forall i :: 0 <= i < n ==> !revealed[i]
    {
      revealed := new bool[n](_ => false);
    }

    /** The observer callback: each intersecting report reveals its block; others are ignored. */
    method OnReports(reports: seq<Report>)
      requires Targets(reports, revealed.Length)
      modifies revealed
      ensures revealed[..] == Handle(old(revealed[..]), reports)
      ensures forall i :: 0 <= i < revealed.Length ==> (revealed[i] <==> old(revealed[i]) || ReportedVisible(reports, i))
    {
      ghost var start := revealed[..];
      var k := 0;
      while k < |reports|
        invariant 0 <= k <= |reports|
        invariant revealed[..] == Handle(start, reports[..k])
      {
        assert reports[..k + 1][..k] == reports[..k];
        if reports[k].isIntersecting {
          revealed[reports[k].target] := true;
        }
        k := k + 1;
      }
      assert reports[..k] == reports;
      forall i | 0 <= i < revealed.Length
        ensures revealed[i] <==> old(revealed[i]) || ReportedVisible(reports, i)
      {
        HandleReveals(start, reports, i);
      }
    }
  }
}
