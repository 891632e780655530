/**
 * The termination rule of `waitForRunCompletion` in extension.js: poll the
 * run's status until it is `completed` or `failed` and resolve with that
 * status; reject as soon as a status check fails; keep polling on anything
 * else. The interval timer is replaced by a walk over the sequence of answers
 * the successive polls receive.
 */
module RunPoller {

  /** One answer of `checkRunStatus`: the run's status, or the error it throws. */
  datatype Poll = Status(status: string) | CheckFailed

  /** `checkRunStatus` replaces every retrieval error by this one. */
  const CheckFailedMessage: string := "Failed to check run status"

  /** How the Promise of `waitForRunCompletion` ends after the answers seen, and after how many polls. */
  datatype Settlement =
    | Resolved(status: string, polls: nat)
    | Rejected(message: string, polls: nat)
    | StillPolling

  predicate IsTerminal(status: string) {
    status == "completed" || status == "failed"
  }

  /** Answers that keep the poller going: statuses other than the two terminal ones. */
  predicate Quiet(answers: seq<Poll>) {
    forall k :: 0 <= k < |answers| ==> answers[k].Status? && !IsTerminal(answers[k].status)
  }

  /** The same settlement `n` polls later. */
  function Later(r: Settlement, n: nat): Settlement {
    match r
    case Resolved(s, p) => Resolved(s, p + n)
    case Rejected(m, p) => Rejected(m, p + n)
    case StillPolling => StillPolling
  }

  /** The settlement reached over `answers`: the first terminal status or failed check decides it. */
  function Settle(answers: seq<Poll>): (r: Settlement)
    ensures r.StillPolling? <==> Quiet(answers)
    ensures r.Resolved? ==>
      && 0 < r.polls <= |answers|
      && answers[r.polls - 1] == Status(r.status) && IsTerminal(r.status)
      && Quiet(answers[..r.polls - 1])
    ensures r.Rejected? ==>
      && 0 < r.polls <= |answers|
      && answers[r.polls - 1] == CheckFailed && r.message == CheckFailedMessage
      && Quiet(answers[..r.polls - 1])
    decreases |answers|
  {
    if answers == [] then StillPolling
    else
      match answers[0]
      case CheckFailed => Rejected(CheckFailedMessage, 1)
      case Status(s) =>
        if IsTerminal(s) then Resolved(s, 1)
        else
          var rest := Settle(answers[1..]);
          assert answers[..|answers|] == answers && answers[1..][..|answers| - 1] == answers[1..];
          QuietAfterHead(answers, |answers|);
          if rest.StillPolling? then StillPolling
          else
            QuietAfterHead(answers, rest.polls + 1);
            Later(rest, 1)
  }

  /** Behind a non-terminal status, a prefix is quiet exactly when its tail is. */
  lemma QuietAfterHead(answers: seq<Poll>, n: nat)
    requires 0 < n <= |answers| && answers[0].Status? && !IsTerminal(answers[0].status)
    ensures Quiet(answers[..n]) <==> Quiet(answers[1..][..n - 1])
  {
    var p, q := answers[..n], answers[1..][..n - 1];
    if Quiet(p) {
      forall k | 0 <= k < |q|
        ensures q[k].Status? && !IsTerminal(q[k].status)
      {
        assert q[k] == p[k + 1];
      }
    }
    if Quiet(q) {
      forall k | 0 <= k < |p|
        ensures p[k].Status? && !IsTerminal(p[k].status)
      {
        if k > 0 {
          assert p[k] == q[k - 1];
        }
      }
    }
  }

  /** `waitForRunCompletion(threadId, runId)`, one poll per iteration. */
  method WaitForRunCompletion(answers: seq<Poll>) returns (r: Settlement)
    ensures r == Settle(answers)
  {
    var i := 0;
    while i < |answers|
      invariant 0 <= i <= |answers|
      invariant Settle(answers) == Later(Settle(answers[i..]), i)
      decreases |answers| - i
    {
      match answers[i]
      case CheckFailed =>
        return Rejected(CheckFailedMessage, i + 1);
      case Status(s) =>
        if IsTerminal(s) {
          return Resolved(s, i + 1);
        }
      assert answers[i..][1..] == answers[i + 1..];
      i := i + 1;
    }
    return StillPolling;
  }

  /** A failed run is resolved with its status, never rejected. */
  lemma {:induction false} FailedRunResolves(answers: seq<Poll>, k: nat)
    requires k < |answers| && Quiet(answers[..k]) && answers[k] == Status("failed")
    ensures Settle(answers) == Resolved("failed", k + 1)
    decreases k
  {
    if k > 0 {
      assert answers[..k][0] == answers[0];
      assert answers[1..][..k - 1] == answers[..k][1..];
      FailedRunResolves(answers[1..], k - 1);
    }
  }

  /** Once settled, later answers are never read: polling has stopped. */
  lemma {:induction false} SettledIgnoresLater(answers: seq<Poll>, more: seq<Poll>)
    requires !Settle(answers).StillPolling?
    ensures Settle(answers + more) == Settle(answers)
    decreases |answers|
  {
    assert (answers + more)[0] == answers[0];
    if answers[0].Status? && !IsTerminal(answers[0].status) {
      assert (answers + more)[1..] == answers[1..] + more;
      SettledIgnoresLater(answers[1..], more);
    }
  }

  /** After answers that keep it polling, the poller settles as on the rest, that many polls later. */
  lemma {:induction false} QuietPrefixDelays(answers: seq<Poll>, more: seq<Poll>)
    requires Quiet(answers)
    ensures Settle(answers + more) == Later(Settle(more), |answers|)
    decreases |answers|
  {
    if answers == [] {
      assert answers + more == more;
      assert Later(Settle(more), 0) == Settle(more);
    } else {
      assert (answers + more)[0] == answers[0];
      assert (answers + more)[1..] == answers[1..] + more;
      assert Quiet(answers[1..]) by {
        forall k | 0 <= k < |answers[1..]|
          ensures answers[1..][k].Status? && !IsTerminal(answers[1..][k].status)
        {
          assert answers[1..][k] == answers[k + 1];
        }
      }
      QuietPrefixDelays(answers[1..], more);
    }
  }
}
