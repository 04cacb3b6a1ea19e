/**
 * The idle shutdown of run_server's accept loop. Before waiting for a
 * client the loop compares the clock with the time of the last speech
 * request and stops once more than an hour has passed; the wait itself
 * gives up after a minute, so the comparison recurs even when no client
 * comes. Every generate or stream-binary request handled restarts the
 * hour, and a shutdown request stops the loop at once. Clock readings are
 * parameters.
 */
module IdleTimer {
  import Framing

  const IdleTimeoutSeconds: real := 3600.0

  /** How long one wait for a client lasts when none comes. */
  const PollSeconds: real := 60.0

  /** A request a client sent: whether it was speech work, and the clock
      reading right after it was handled. */
  datatype TimedRequest = TimedRequest(isTts: bool, finishedAt: real)

  /** What one pass of the accept loop saw after the idle check: the wait
      ran out, or a client was served (its requests in order, and whether
      it ended with a shutdown request). */
  datatype Activity = NoClient | Client(requests: seq<TimedRequest>, shutdown: bool)

  /** One pass of the loop: the clock at the idle check and what followed. */
  datatype Pass = Pass(checkedAt: real, activity: Activity)

  datatype Stop =
    | IdleShutdown(pass: nat)        // the idle check of this pass stopped the loop
    | ShutdownRequested(pass: nat)   // a client of this pass asked to shut down
    | Running(lastTts: real)         // still running after every pass

  /** `last_tts_time` after a client's requests, as the loop updates it:
      one request after another, taking the clock after each speech request. */
  function AfterRequests(lastTts: real, requests: seq<TimedRequest>): real
    decreases |requests|
  {
    if |requests| == 0 then lastTts
    else AfterRequests(if requests[0].isTts then requests[0].finishedAt else lastTts, requests[1..])
  }

  /** The accept loop from pass i on, with the timer at `lastTts`. */
  function Loop(lastTts: real, passes: seq<Pass>, i: nat): Stop
    requires i <= |passes|
    decreases |passes| - i
  {
    if i == |passes| then Running(lastTts)
    else if passes[i].checkedAt - lastTts > IdleTimeoutSeconds then IdleShutdown(i)
    else
      match passes[i].activity
      case NoClient => Loop(lastTts, passes, i + 1)
      case Client(requests, shutdown) =>
        if shutdown then ShutdownRequested(i)
        else Loop(AfterRequests(lastTts, requests), passes, i + 1)
  }

  /** run_server's loop, the timer starting at the clock reading `start`. */
  function Serve(start: real, passes: seq<Pass>): Stop {
    Loop(start, passes, 0)
  }

  // ---------------------------------------------------------------------------
  // Reference: the last speech request before a pass
  // ---------------------------------------------------------------------------

  /** The clock after the last speech request in the list, or `prior`. */
  function LastTtsIn(requests: seq<TimedRequest>, prior: real): real
    decreases |requests|
  {
    if |requests| == 0 then prior
    else if requests[|requests| - 1].isTts then requests[|requests| - 1].finishedAt
    else LastTtsIn(requests[..|requests| - 1], prior)
  }

  /** The time of the last speech request served in passes before k, or `start`. */
  function LastTts(start: real, passes: seq<Pass>, k: nat): real
    requires k <= |passes|
    decreases k
  {
    if k == 0 then start
    else
      match passes[k - 1].activity
      case NoClient => LastTts(start, passes, k - 1)
      case Client(requests, _) => LastTtsIn(requests, LastTts(start, passes, k - 1))
  }

  predicate IdleAt(start: real, passes: seq<Pass>, k: nat)
    requires k < |passes|
  {
    passes[k].checkedAt - LastTts(start, passes, k) > IdleTimeoutSeconds
  }

  predicate ShutdownAt(passes: seq<Pass>, k: nat)
    requires k < |passes|
  {
    passes[k].activity.Client? && passes[k].activity.shutdown
  }

  /** The first pass at or after i that stops the loop, or |passes|. */
  function FirstStop(start: real, passes: seq<Pass>, i: nat): (k: nat)
    requires i <= |passes|
    ensures i <= k <= |passes|
    ensures forall j :: i <= j < k ==> !IdleAt(start, passes, j) && !ShutdownAt(passes, j)
    ensures k < |passes| ==> IdleAt(start, passes, k) || ShutdownAt(passes, k)
    decreases |passes| - i
  {
    if i == |passes| || IdleAt(start, passes, i) || ShutdownAt(passes, i) then i
    else FirstStop(start, passes, i + 1)
  }

  /** Updating the timer request by request ends at the last speech request. */
  lemma {:induction false} AfterRequestsIsLast(lastTts: real, requests: seq<TimedRequest>)
    ensures AfterRequests(lastTts, requests) == LastTtsIn(requests, lastTts)
    decreases |requests|
  {
    if |requests| > 0 {
      var next := if requests[0].isTts then requests[0].finishedAt else lastTts;
      AfterRequestsIsLast(next, requests[1..]);
      LastTtsInFront(requests, lastTts);
    }
  }

  /** LastTtsIn looks at the list from the back; taking off the front
      request only moves it into the prior value. */
  lemma {:induction false} LastTtsInFront(requests: seq<TimedRequest>, prior: real)
    requires |requests| > 0
    ensures LastTtsIn(requests, prior) ==
      LastTtsIn(requests[1..], if requests[0].isTts then requests[0].finishedAt else prior)
    decreases |requests|
  {
    var n := |requests|;
    if n > 1 && !requests[n - 1].isTts {
      LastTtsInFront(requests[..n - 1], prior);
      assert requests[..n - 1][1..] == requests[1..][..n - 2];
      assert requests[..n - 1][0] == requests[0];
    }
  }

  /** The loop stops at the first pass whose idle check finds more than an
      hour since the last speech request, or whose client asked to shut
      down, whichever comes first; it stops idle rather than on request
      when both hold in the same pass, and a loop that never stops holds
      the time of the last speech request. */
  lemma {:induction false} LoopCharacterized(start: real, passes: seq<Pass>, i: nat)
    requires i <= |passes|
    ensures var k := FirstStop(start, passes, i);
      Loop(LastTts(start, passes, i), passes, i) ==
        if k == |passes| then Running(LastTts(start, passes, |passes|))
        else if IdleAt(start, passes, k) then IdleShutdown(k)
        else ShutdownRequested(k)
    decreases |passes| - i
  {
    if i < |passes| && !IdleAt(start, passes, i) && !ShutdownAt(passes, i) {
      LoopCharacterized(start, passes, i + 1);
      match passes[i].activity
      case NoClient =>
      case Client(requests, _) =>
        AfterRequestsIsLast(LastTts(start, passes, i), requests);
    }
  }

  /** The same for the whole run. */
  lemma ServeCharacterized(start: real, passes: seq<Pass>)
    ensures var k := FirstStop(start, passes, 0);
      Serve(start, passes) ==
        if k == |passes| then Running(LastTts(start, passes, |passes|))
        else if IdleAt(start, passes, k) then IdleShutdown(k)
        else ShutdownRequested(k)
  {
    LoopCharacterized(start, passes, 0);
  }

  /** A server nobody connects to, its clock advancing one wait per pass,
      stops on the check after the hour has passed: the 61st wait. */
  lemma UnusedServerStopsAfterAnHour(start: real, passes: seq<Pass>)
    requires |passes| > 61
    requires forall j :: 0 <= j < |passes| ==>
      passes[j] == Pass(start + (j as real) * PollSeconds, NoClient)
    ensures Serve(start, passes) == IdleShutdown(61)
  {
    ServeCharacterized(start, passes);
    forall k | 0 <= k <= |passes|
      ensures LastTts(start, passes, k) == start
    {
      NoClientKeepsStart(start, passes, k);
    }
    assert IdleAt(start, passes, 61);
    assert !IdleAt(start, passes, 60);
  }

  lemma {:induction false} NoClientKeepsStart(start: real, passes: seq<Pass>, k: nat)
    requires k <= |passes|
    requires forall j :: 0 <= j < |passes| ==> passes[j].activity == NoClient
    ensures LastTts(start, passes, k) == start
    decreases k
  {
    if k > 0 {
      NoClientKeepsStart(start, passes, k - 1);
    }
  }

  // ---------------------------------------------------------------------------
  // Connections as the loop sees them
  // ---------------------------------------------------------------------------

  /** What a served connection brings to the accept loop: one timed request
      per routed request of its transcript, with the clock read after each,
      and whether it ended with a shutdown request. */
  function ClientActivity(t: Framing.Transcript, clock: seq<real>): (a: Activity)
    requires |clock| == |t.tts|
    ensures a.Client? && |a.requests| == |t.tts|
    ensures a.shutdown <==> t.state == Framing.ShutDown
    ensures forall i :: 0 <= i < |t.tts| ==> a.requests[i] == TimedRequest(t.tts[i], clock[i])
  {
    Client(seq(|t.tts|, i requires 0 <= i < |t.tts| => TimedRequest(t.tts[i], clock[i])),
           t.state == Framing.ShutDown)
  }

  /** Requests that are not speech work leave the timer where it was. */
  lemma {:induction false} NoSpeechKeepsTimer(lastTts: real, requests: seq<TimedRequest>)
    requires forall i :: 0 <= i < |requests| ==> !requests[i].isTts
    ensures AfterRequests(lastTts, requests) == lastTts
    decreases |requests|
  {
    if |requests| > 0 {
      assert forall i :: 0 <= i < |requests[1..]| ==> requests[1..][i] == requests[i + 1];
      NoSpeechKeepsTimer(lastTts, requests[1..]);
    }
  }

  /** A connection that only asks for health or the model list, or sends
      lines that are not requests, does not keep the server alive. */
  lemma NonSpeechConnectionKeepsTimer(lastTts: real, t: Framing.Transcript, clock: seq<real>)
    requires |clock| == |t.tts|
    requires forall i :: 0 <= i < |t.tts| ==> !t.tts[i]
    ensures AfterRequests(lastTts, ClientActivity(t, clock).requests) == lastTts
  {
    NoSpeechKeepsTimer(lastTts, ClientActivity(t, clock).requests);
  }
}
