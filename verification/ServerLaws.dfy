/** What runs of the server machine promise its callers: a shutdown call is never ignored, and accepting stops. */
module ServerLaws {
  import opened Server

  lemma {:induction false} ExecuteSplits(s: State, steps: seq<Step>, i: nat)
    requires Possible(s, steps) && i < |steps|
    ensures Possible(s, steps[..i]) && Enabled(Execute(s, steps[..i]), steps[i])
    ensures var next := Apply(Execute(s, steps[..i]), steps[i]);
            Possible(next, steps[i + 1..]) && Execute(s, steps) == Execute(next, steps[i + 1..])
    decreases |steps|
  {
    hide Apply, Enabled;
    if i > 0 {
      assert steps[..i][0] == steps[0] && steps[..i][1..] == steps[1..][..i - 1];
      ExecuteSplits(Apply(s, steps[0]), steps[1..], i - 1);
      assert steps[1..][i..] == steps[i + 1..];
    }
  }

  // ----- Shutdown calls -----

  /** Shutdown has been requested, or somebody is about to request it. */
  predicate Heard(s: State) { s.watch.value || s.callers > 0 }

  lemma {:induction false} HeardStays(s: State, steps: seq<Step>)
    requires NothingLost(s) && Heard(s) && Possible(s, steps)
    ensures Heard(Execute(s, steps))
    decreases |steps|
  {
    if steps != [] {
      StepLosesNothing(s, steps[0]);
      hide NothingLost;
      HeardStays(Apply(s, steps[0]), steps[1..]);
    }
  }

  /** A call of the handle's `shutdown`, at any point of any run, requests it: once no call is still under way, the
      flag is up, even when the server has stopped by itself meanwhile. */
  lemma ShutdownCallIsHeard(steps: seq<Step>, i: nat)
    requires Possible(Init(), steps) && i < |steps| && steps[i] == HandleLooks
    ensures var s := Execute(Init(), steps); s.callers == 0 ==> s.watch.value
  {
    ExecuteSplits(Init(), steps, i);
    RunLosesNothing(Init(), steps[..i]);
    var s := Execute(Init(), steps[..i]);
    StepLosesNothing(s, HandleLooks);
    hide Execute, Possible, NothingLost;
    HeardStays(Apply(s, HandleLooks), steps[i + 1..]);
  }

  /** The flag is up as soon as anything has been sent, and was put up by nothing but a send. */
  predicate FlagTellsSends(s: State) { s.watch.value <==> s.watch.version > 0 }

  lemma {:induction false} FlagIsHonest(s: State, steps: seq<Step>)
    requires FlagTellsSends(s) && Possible(s, steps)
    ensures FlagTellsSends(Execute(s, steps))
    decreases |steps|
  {
    if steps != [] {
      FlagIsHonest(Apply(s, steps[0]), steps[1..]);
    }
  }

  /** Nobody is woken for nothing: whenever a connection's or the server's wait completes, shutdown has been
      requested, and not before the first send of a call or of the server on its way out. */
  lemma NoFalseAlarm(steps: seq<Step>, id: nat)
    requires Possible(Init(), steps)
    ensures var s := Execute(Init(), steps);
            && (Enabled(s, SeesShutdown(id)) || Enabled(s, Changed) ==> s.watch.value)
            && (s.watch.value ==> HandleSends in steps || ServerSends in steps)
  {
    RunLosesNothing(Init(), steps);
    FlagIsHonest(Init(), steps);
    SomebodySent(Init(), steps);
    hide Execute, Possible;
  }

  lemma {:induction false} SomebodySent(s: State, steps: seq<Step>)
    requires Possible(s, steps)
    ensures Execute(s, steps).watch.value ==> s.watch.value || HandleSends in steps || ServerSends in steps
    decreases |steps|
  {
    if steps != [] {
      SomebodySent(Apply(s, steps[0]), steps[1..]);
    }
  }

  // ----- Accepting -----

  /** In the accept loop. */
  predicate Accepting(s: State) { s.server == Head || s.server == Select }

  lemma {:induction false} ClosedForGood(s: State, steps: seq<Step>)
    requires !Accepting(s) && Possible(s, steps)
    ensures !Accepting(Execute(s, steps)) && |Execute(s, steps).conns| == |s.conns|
    decreases |steps|
  {
    if steps != [] {
      ClosedForGood(Apply(s, steps[0]), steps[1..]);
    }
  }

  /** A failed accept ends the server: no connection is accepted behind it in any run. */
  lemma NothingAfterAFailedAccept(steps: seq<Step>, i: nat, j: nat)
    requires Possible(Init(), steps) && i < j < |steps| && steps[i] == AcceptFails
    ensures steps[j] != Accepts
  {
    ExecuteSplits(Init(), steps, i);
    var s := Apply(Execute(Init(), steps[..i]), AcceptFails);
    ExecuteSplits(s, steps[i + 1..], j - i - 1);
    ClosedForGood(s, steps[i + 1..][..j - i - 1]);
  }

  function CountAccepts(steps: seq<Step>): nat {
    if steps == [] then 0 else (if steps[0] == Accepts then 1 else 0) + CountAccepts(steps[1..])
  }

  /** Once shutdown is requested at most one more connection is accepted: the one the select may already have seen. */
  lemma {:induction false} AtMostOneMore(s: State, steps: seq<Step>)
    requires s.watch.value && Possible(s, steps)
    ensures CountAccepts(steps) <= if s.server == Select then 1 else 0
    decreases |steps|
  {
    if steps != [] {
      AtMostOneMore(Apply(s, steps[0]), steps[1..]);
    }
  }

  lemma Prepended(s: State, step: Step, rest: seq<Step>)
    requires Enabled(s, step) && Possible(Apply(s, step), rest)
    ensures Possible(s, [step] + rest) && Execute(s, [step] + rest) == Execute(Apply(s, step), rest)
  {
    hide Enabled, Apply;
    assert ([step] + rest)[1..] == rest;
  }

  lemma FirstSteps()
    ensures Enabled(Init(), LoopHead)
    ensures var s := Apply(Init(), LoopHead); Enabled(s, HandleLooks) && s.server == Select && !s.watch.value
  {
  }

  lemma Request(s: State)
    requires s.server == Select && !s.watch.value
    ensures Enabled(s, HandleLooks) && Enabled(Apply(s, HandleLooks), HandleSends)
    ensures var t := Apply(Apply(s, HandleLooks), HandleSends); t.watch.value && Enabled(t, Accepts)
  {
  }

  /** And that one can happen: the flag does not take the accept out of the select. */
  lemma OneMoreHappens()
    ensures exists steps ::
              Possible(Init(), steps) && Execute(Init(), steps).watch.value && Enabled(Execute(Init(), steps), Accepts)
  {
    hide Possible, Execute, Enabled, Apply, Init;
    FirstSteps();
    var s := Apply(Init(), LoopHead);
    Request(s);
    var t := Apply(Apply(s, HandleLooks), HandleSends);
    NoSteps(t);
    Prepended(Apply(s, HandleLooks), HandleSends, []);
    Prepended(s, HandleLooks, [HandleSends] + []);
    var steps := [LoopHead] + ([HandleLooks] + ([HandleSends] + []));
    Prepended(Init(), LoopHead, [HandleLooks] + ([HandleSends] + []));
    assert Possible(Init(), steps) && Execute(Init(), steps) == t;
  }

  lemma NoSteps(s: State)
    ensures Possible(s, []) && Execute(s, []) == s
  {
  }
}
