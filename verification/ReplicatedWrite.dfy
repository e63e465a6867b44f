/**
 A replicated write: one submission per replica, and a report from each, in any order. The counters, the final status
 and the replicas' recorded states are followed through every interleaving of the callbacks.
 */
module ReplicatedWrite {
  import opened Outcomes
  import opened Links
  import opened Storage

  // ---------------------------------------------------------------- the layers below

  /** Answers for one replica; replica 0 is local. `note` is the memory for reporting a skipped remote replica. */
  datatype Answers =
    | Local(refused: Option<Error>, completion: Status)
    | Remote(note: bool, contextMemory: bool, message: bool, link: Link, response: Status)

  predicate Writable(s: State) {
    s == Online || s == Degraded
  }

  /** Each layer either returns an error or calls back once, and a refused connection has an error to show. */
  ghost predicate Sane(env: seq<Answers>) {
    && 1 <= |env| <= MAX_REPLICAS
    && env[0].Local?
    && forall i :: 1 <= i < |env| ==> env[i].Remote? && (env[i].link.Refused? ==> env[i].link.connectStatus != 0)
  }

  // ---------------------------------------------------------------- what each replica reports

  /** The status a replica ends with; `code` is the number behind "resource unavailable". */
  function Outcome(a: Answers, before: State, code: int): Status {
    match a
    case Local(refused, completion) =>
      if !Writable(before) then StatusErr(ResourceUnavailable)
      else if refused.Some? then StatusErr(refused.value)
      else completion
    case Remote(note, contextMemory, message, link, response) =>
      if !Writable(before) then (if note then FromErrno(-code) else StatusErr(ResourceUnavailable))
      else if !contextMemory || !message then StatusErr(OutOfMemory)
      else if LinkStatus(link) != 0 then FromErrno(-LinkStatus(link))
      else response
  }

  /** The state recorded for a replica once it has reported. */
  function StateAfter(a: Answers, before: State): State {
    match a
    case Local(refused, completion) =>
      if Writable(before) && refused.None? && completion == StatusOk then Online else Failed
    case Remote(note, contextMemory, message, link, response) =>
      if !Writable(before) then (if note then Offline else before)
      else if !contextMemory || !message then before
      else if LinkStatus(link) != 0 then Offline
      else if response == StatusOk then Online
      else Degraded
  }

  // ---------------------------------------------------------------- the same in terms of the answers alone

  /** Everything a replica's write needs is there, and it is answered with success. */
  predicate Succeeds(a: Answers, before: State) {
    && (before == Online || before == Degraded)
    && match a
       case Local(refused, completion) => refused == None && completion == StatusOk
       case Remote(_, contextMemory, message, link, response) =>
         contextMemory && message && LinkStatus(link) == 0 && response == StatusOk
  }

  /** The writes on these replicas alone have succeeded. */
  ghost function Successes(env: seq<Answers>, before: seq<State>): set<int>
    requires |env| == |before|
  {
    set i | 0 <= i < |env| && Succeeds(env[i], before[i])
  }

  /** A write that cannot be made or is not answered well fails with this status. */
  ghost predicate FailsWith(a: Answers, before: State, code: int, s: Status) {
    if before != Online && before != Degraded then
      s == if a.Remote? && a.note then FromErrno(-code) else StatusErr(ResourceUnavailable)
    else match a
      case Local(refused, completion) =>
        if refused.Some? then s == StatusErr(refused.value) else s == completion != StatusOk
      case Remote(_, contextMemory, message, link, response) =>
        if !contextMemory || !message then s == StatusErr(OutOfMemory)
        else if LinkStatus(link) != 0 then s == FromErrno(-LinkStatus(link))
        else s == response != StatusOk
  }

  /** What becomes of the record of a replica: online after success; local failures are failures, remote ones depend. */
  ghost predicate Recorded(a: Answers, before: State, after: State) {
    if Succeeds(a, before) then after == Online
    else if a.Local? then after == Failed
    else if before != Online && before != Degraded then after == if a.note then Offline else before
    else if !a.contextMemory || !a.message then after == before
    else after == if LinkStatus(a.link) != 0 then Offline else Degraded
  }

  lemma OutcomeMeaning(a: Answers, before: State, code: int)
    requires code != 0
    ensures Outcome(a, before, code) == StatusOk <==> Succeeds(a, before)
    ensures Outcome(a, before, code) != StatusOk ==> FailsWith(a, before, code, Outcome(a, before, code))
    ensures Recorded(a, before, StateAfter(a, before))
  {
  }

  datatype Report = Report(replica: nat, status: Status)

  function CountOk(rs: seq<Report>): nat {
    if rs == [] then 0 else CountOk(rs[..|rs| - 1]) + (if rs[|rs| - 1].status == StatusOk then 1 else 0)
  }

  /** The first failure reported, or success. */
  function FirstFailure(rs: seq<Report>): Status {
    if rs == [] then StatusOk
    else
      var s := FirstFailure(rs[..|rs| - 1]);
      if s == StatusOk then rs[|rs| - 1].status else s
  }

  lemma {:induction false} FirstFailureMeaning(rs: seq<Report>)
    ensures CountOk(rs) <= |rs|
    ensures FirstFailure(rs) == StatusOk <==> CountOk(rs) == |rs|
    ensures CountOk(rs) == |rs| <==> forall r <- rs :: r.status == StatusOk
    ensures FirstFailure(rs) != StatusOk ==>
      exists i :: 0 <= i < |rs| && rs[i].status == FirstFailure(rs) && forall j :: 0 <= j < i ==> rs[j].status == StatusOk
  {
    if rs != [] {
      var n := |rs| - 1;
      FirstFailureMeaning(rs[..n]);
      assert rs == rs[..n] + [rs[n]];
      if FirstFailure(rs[..n]) != StatusOk {
        var i :| 0 <= i < n && rs[..n][i].status == FirstFailure(rs[..n]) && forall j :: 0 <= j < i ==> rs[..n][j].status == StatusOk;
        assert rs[i].status == FirstFailure(rs);
        assert forall j :: 0 <= j < i ==> rs[j] == rs[..n][j];
      } else if rs[n].status != StatusOk {
        assert rs[n].status == FirstFailure(rs);
        assert forall j :: 0 <= j < n ==> rs[j] == rs[..n][j];
        assert forall j :: 0 <= j < n ==> rs[..n][j] in rs[..n];
      }
    }
  }

  // ---------------------------------------------------------------- the context

  /** Where a replica's write has got to. */
  datatype Phase = Unstarted | LocalIo | Connection | Response | Reported {
    /** Callbacks still to come, at most. */
    function Rank(): nat {
      match this
      case Unstarted => 3
      case Connection => 2
      case Reported => 0
      case _ => 1
    }

    function Open(): nat {
      if Reported? then 0 else 1
    }
  }

  /** Replicas that have not reported. */
  function CountOpen(ps: seq<Phase>): nat {
    if ps == [] then 0 else CountOpen(ps[..|ps| - 1]) + ps[|ps| - 1].Open()
  }

  function Work(ps: seq<Phase>): nat {
    if ps == [] then 0 else Work(ps[..|ps| - 1]) + ps[|ps| - 1].Rank()
  }

  lemma {:induction false} UpdateSums(ps: seq<Phase>, i: nat, p: Phase)
    requires i < |ps|
    ensures CountOpen(ps[i := p]) == CountOpen(ps) - ps[i].Open() + p.Open()
    ensures Work(ps[i := p]) == Work(ps) - ps[i].Rank() + p.Rank()
  {
    var n := |ps| - 1;
    if i < n {
      UpdateSums(ps[..n], i, p);
      assert ps[i := p][..n] == ps[..n][i := p];
    } else {
      assert ps[i := p][..n] == ps[..n];
    }
  }

  lemma {:induction false} OpenMeaning(ps: seq<Phase>)
    ensures CountOpen(ps) == 0 <==> forall i :: 0 <= i < |ps| ==> ps[i] == Reported
    ensures CountOpen(ps) <= |ps|
    ensures (forall i :: 0 <= i < |ps| ==> ps[i] != Reported) ==> CountOpen(ps) == |ps|
  {
    if ps != [] {
      var front := ps[..|ps| - 1];
      OpenMeaning(front);
      assert forall i :: 0 <= i < |front| ==> front[i] == ps[i];
    }
  }

  class WriteContext {
    const env: seq<Answers>
    const nodes: seq<Uuid>
    const before: seq<State>
    const target: nat
    const code: int

    var successful: nat
    var failed: nat
    var finalStatus: Status
    var states: seq<State>

    /** The event loop's knowledge of outstanding callbacks. */
    var phase: seq<Phase>
    ghost var reports: seq<Report>

    ghost predicate Shaped()
      reads this
    {
      && Sane(env)
      && |nodes| == |before| == |states| == |phase| == |env|
      && (forall i, j :: 0 <= i < j < |nodes| ==> nodes[i] != nodes[j])
      && code != 0
    }

    /** What is known of one replica in each phase. */
    ghost predicate Tracks(i: nat)
      reads this
      requires Shaped() && i < |env|
    {
      && states[i] == (if phase[i] == Reported then StateAfter(env[i], before[i]) else before[i])
      && match phase[i]
         case Unstarted => true
         case LocalIo => i == 0 && Writable(before[0]) && env[0].refused.None?
         case Connection => Sent(i) && env[i].link.Later?
         case Response => Sent(i) && LinkStatus(env[i].link) == 0
         case Reported => Report(i, Outcome(env[i], before[i], code)) in reports
    }

    ghost predicate Sent(i: nat)
      reads this
      requires Shaped() && i < |env|
    {
      i > 0 && Writable(before[i]) && env[i].contextMemory && env[i].message
    }

    /** Each report is a replica's own, and no replica has reported twice. */
    ghost predicate ReportsOnce()
      reads this
      requires Shaped()
    {
      && (forall r <- reports :: r.replica < |env| && phase[r.replica] == Reported && r.status == Outcome(env[r.replica], before[r.replica], code))
      && (forall i, j :: 0 <= i < j < |reports| ==> reports[i].replica != reports[j].replica)
    }

    /** The counters and the final status say what the reports so far add up to. */
    ghost predicate Tallied()
      reads this
    {
      && successful == CountOk(reports)
      && successful + failed == |reports| == |env| - CountOpen(phase)
      && finalStatus == FirstFailure(reports)
    }

    ghost predicate Valid()
      reads this
    {
      Shaped() && (forall i :: 0 <= i < |env| ==> Tracks(i)) && ReportsOnce() && Tallied()
    }

    constructor (env: seq<Answers>, nodes: seq<Uuid>, before: seq<State>, target: nat, code: int)
      requires Sane(env) && |nodes| == |before| == |env| && code != 0
      requires forall i, j :: 0 <= i < j < |nodes| ==> nodes[i] != nodes[j]
      ensures Valid() && reports == [] && forall i :: 0 <= i < |phase| ==> phase[i] == Unstarted
      ensures this.env == env && this.nodes == nodes && this.before == before && this.target == target && this.code == code
    {
      this.env, this.nodes, this.before, this.target, this.code := env, nodes, before, target, code;
      successful, failed, finalStatus := 0, 0, StatusOk;
      states, phase, reports := before, seq(|env|, _ => Unstarted), [];
      new;
      OpenMeaning(phase);
    }

    /** Counts a report and keeps the first failure. */
    method Tally(i: nat, status: Status)
      requires Valid() && i < |env| && phase[i] != Reported && status == Outcome(env[i], before[i], code)
      modifies this`successful, this`failed, this`finalStatus, this`reports
      ensures Shaped() && reports == old(reports) + [Report(i, status)]
      ensures successful == CountOk(reports) && successful + failed == |reports| && finalStatus == FirstFailure(reports)
    {
      FirstFailureMeaning(reports);
      reports := reports + [Report(i, status)];
      assert reports[..|reports| - 1] == old(reports);
      if status == StatusOk {
        successful := successful + 1;
      } else {
        failed := failed + 1;
        if finalStatus == StatusOk {
          finalStatus := status;
        }
      }
    }

    /** Looks a remote replica up by its node id, as every remote callback does. */
    method FindRemote(node: Uuid) returns (k: nat)
      requires Shaped()
      ensures k <= |env|
      ensures forall i :: 1 <= i < |env| && nodes[i] == node ==> k == i
    {
      k := 1;
      while k < |env| && nodes[k] != node
        invariant 1 <= k <= |env|
        invariant forall i :: 1 <= i < k ==> nodes[i] != node
      {
        k := k + 1;
      }
    }

    /** The replica's report, with the state that goes with it. */
    method Conclude(i: nat, status: Status, newState: State)
      requires Valid() && i < |env| && phase[i] != Reported
      requires status == Outcome(env[i], before[i], code) && newState == StateAfter(env[i], before[i])
      modifies this
      ensures Valid() && reports == old(reports) + [Report(i, status)]
      ensures phase == old(phase)[i := Reported]
    {
      hide Outcome, StateAfter, CountOk, FirstFailure, CountOpen;
      Tally(i, status);
      UpdateSums(phase, i, Reported);
      if i == 0 {
        states := states[0 := newState];
      } else {
        var k := FindRemote(nodes[i]);
        states := states[k := newState];
      }
      phase := phase[i := Reported];
      assert reports[|reports| - 1] == Report(i, status);
      forall j | 0 <= j < |env|
        ensures Tracks(j)
      {
        assert old(Tracks(j));
      }
    }

    /** `_xsan_local_replica_write_complete_cb`. */
    method LocalComplete(status: Status)
      requires Valid() && phase[0] != Reported && status == Outcome(env[0], before[0], code)
      modifies this
      ensures Valid() && reports == old(reports) + [Report(0, status)] && phase == old(phase)[0 := Reported]
    {
      Conclude(0, status, if status == StatusOk then Online else Failed);
    }

    /** `_xsan_remote_replica_connect_then_send_cb`, and the send's completion after it. */
    method ConnectThenSend(i: nat, connectStatus: int, sendStatus: int)
      requires Valid() && 0 < i < |env| && (phase[i] == Unstarted || phase[i] == Connection) && Sent(i)
      requires LinkStatus(env[i].link) == if connectStatus != 0 then connectStatus else sendStatus
      modifies this
      ensures Valid()
      ensures if LinkStatus(env[i].link) == 0 then phase == old(phase)[i := Response] && reports == old(reports)
              else phase == old(phase)[i := Reported] && reports == old(reports) + [Report(i, Outcome(env[i], before[i], code))]
    {
      if connectStatus == 0 && sendStatus == 0 {
        Advance(i, Response);
      } else if connectStatus != 0 {
        Conclude(i, FromErrno(-connectStatus), Offline);
      } else {
        Conclude(i, FromErrno(-sendStatus), Offline);
      }
    }

    /** An outstanding callback takes the place of another; nothing is reported. */
    method Advance(i: nat, p: Phase)
      requires Valid() && i < |env| && phase[i] != Reported
      requires match p
               case LocalIo => i == 0 && Writable(before[0]) && env[0].refused.None?
               case Connection => Sent(i) && env[i].link.Later?
               case Response => Sent(i) && LinkStatus(env[i].link) == 0
               case _ => false
      modifies this`phase
      ensures Valid() && phase == old(phase)[i := p]
    {
      UpdateSums(phase, i, p);
      phase := phase[i := p];
      forall j | 0 <= j < |env|
        ensures Tracks(j)
      {
        assert old(Tracks(j));
      }
    }

    /** One round of the submission loop. */
    method Submit(i: nat)
      requires Valid() && i < |env| && phase[i] == Unstarted
      modifies this
      ensures Valid()
      ensures phase[i] != Unstarted && phase == old(phase)[i := phase[i]]
      ensures !Writable(before[i]) ==> phase[i] == Reported
      ensures |reports| == |old(reports)| + if phase[i] == Reported then 1 else 0
    {
      match env[i] {
        case Local(refused, _) =>
          if !Writable(before[i]) {
            LocalComplete(StatusErr(ResourceUnavailable));
          } else if refused.Some? {
            LocalComplete(StatusErr(refused.value));
          } else {
            Advance(i, LocalIo);
          }
        case Remote(note, contextMemory, message, link, _) =>
          if !Writable(before[i]) {
            if note {
              Conclude(i, FromErrno(-code), Offline);
            } else {
              Conclude(i, StatusErr(ResourceUnavailable), before[i]);
            }
          } else if !contextMemory {
            Conclude(i, StatusErr(OutOfMemory), before[i]);
          } else if !message {
            Conclude(i, StatusErr(OutOfMemory), before[i]);
          } else {
            match link {
              case Active(sendStatus) => ConnectThenSend(i, 0, sendStatus);
              case Refused(connectStatus) => ConnectThenSend(i, connectStatus, 0);
              case Later(_, _) => Advance(i, Connection);
            }
          }
      }
    }

    /** The callback replica `i` is waiting for arrives. */
    method Deliver(i: nat)
      requires Valid() && i < |env| && phase[i] != Unstarted && phase[i] != Reported
      modifies this
      ensures Valid()
      ensures phase[i] != Unstarted && phase == old(phase)[i := phase[i]]
      ensures phase[i] == Reported || (old(phase[i]) == Connection && phase[i] == Response)
      ensures |reports| == |old(reports)| + if phase[i] == Reported then 1 else 0
    {
      assert Tracks(i);
      match phase[i] {
        case LocalIo => LocalComplete(env[0].completion);
        case Connection => ConnectThenSend(i, env[i].link.connectStatus, env[i].link.sendStatus);
        case Response => Conclude(i, env[i].response, if env[i].response == StatusOk then Online else Degraded);
      }
    }
  }

  /** The submissions of `xsan_volume_write_async`, before any callback of theirs comes in. */
  method WriteAsync(env: seq<Answers>, nodes: seq<Uuid>, before: seq<State>, target: nat, code: int)
    returns (w: WriteContext, r: Result<()>)
    requires Sane(env) && |nodes| == |before| == |env| && code != 0
    requires forall i, j :: 0 <= i < j < |nodes| ==> nodes[i] != nodes[j]
    ensures fresh(w) && w.env == env && w.nodes == nodes && w.before == before && w.target == target && w.code == code
    // With a writable replica the counters are exact.
    ensures (exists s <- before :: Writable(s)) ==> r == Ok(()) && w.Valid() && forall i :: 0 <= i < |w.phase| ==> w.phase[i] != Unstarted
    // With none, every replica has been counted as failed, and then the target once more.
    ensures (forall s <- before :: !Writable(s)) ==>
      && r == Err(ReplicationUnavailable)
      && |w.reports| == |env|
      && w.successful == 0 && w.failed == |env| + target
      && w.finalStatus == StatusErr(ReplicationUnavailable)
  {
    w := new WriteContext(env, nodes, before, target, code);
    var attempted := false;
    for i := 0 to |env|
      invariant fresh(w) && w.env == env && w.nodes == nodes && w.before == before && w.target == target && w.code == code
      invariant w.Valid()
      invariant forall j :: 0 <= j < |env| ==> (w.phase[j] == Unstarted <==> j >= i)
      invariant attempted <==> exists s <- before[..i] :: Writable(s)
      invariant !attempted ==> forall j :: 0 <= j < i ==> w.phase[j] == Reported
    {
      assert before[..i + 1] == before[..i] + [before[i]];
      if Writable(before[i]) {
        attempted := true;
      }
      w.Submit(i);
    }
    assert before[..|env|] == before;
    if !attempted {
      OpenMeaning(w.phase);
      NoneSucceeded(w);
      w.finalStatus := StatusErr(ReplicationUnavailable);
      w.failed := w.failed + target;
      return w, Err(ReplicationUnavailable);
    }
    return w, Ok(());
  }

  /** A replica that is not writable never reports success. */
  lemma NoneSucceeded(w: WriteContext)
    requires w.Valid() && forall s <- w.before :: !Writable(s)
    ensures w.successful == 0
  {
    forall r <- w.reports
      ensures r.status != StatusOk
    {
      assert w.before[r.replica] in w.before;
    }
    NoOkCount(w.reports);
  }

  lemma {:induction false} NoOkCount(rs: seq<Report>)
    requires forall r <- rs :: r.status != StatusOk
    ensures CountOk(rs) == 0
  {
    if rs != [] {
      assert forall r <- rs[..|rs| - 1] :: r in rs;
      NoOkCount(rs[..|rs| - 1]);
      assert rs[|rs| - 1] in rs;
    }
  }

  /**
   A write to a volume with a writable replica, run to its end under any order of callbacks. Before every callback some
   replica is missing from the count; after the last one the counters add up to the number of replicas.
   */
  method RunWrite(env: seq<Answers>, nodes: seq<Uuid>, before: seq<State>, target: nat, code: int)
    returns (w: WriteContext)
    requires Sane(env) && |nodes| == |before| == |env| && code != 0
    requires forall i, j :: 0 <= i < j < |nodes| ==> nodes[i] != nodes[j]
    requires exists s <- before :: Writable(s)
    ensures fresh(w) && w.env == env && w.before == before && w.code == code && w.Valid()
    ensures w.successful + w.failed == |env|
    ensures w.finalStatus == FirstFailure(w.reports)
    ensures w.finalStatus == StatusOk <==> forall i :: 0 <= i < |env| ==> Outcome(env[i], before[i], code) == StatusOk
    ensures forall i :: 0 <= i < |env| ==> w.states[i] == StateAfter(env[i], before[i])
    // In terms of the answers alone: how many succeeded, when the user is told so, and what else the user is told.
    ensures w.successful == |Successes(env, before)|
    ensures w.finalStatus == StatusOk <==> forall i :: 0 <= i < |env| ==> Succeeds(env[i], before[i])
    ensures w.finalStatus != StatusOk ==>
      exists i :: 0 <= i < |env| && !Succeeds(env[i], before[i]) && FailsWith(env[i], before[i], code, w.finalStatus)
    ensures forall i :: 0 <= i < |env| ==> Recorded(env[i], before[i], w.states[i])
  {
    hide Outcome, StateAfter, CountOk, FirstFailure, CountOpen, Work, w.ReportsOnce, Succeeds, FailsWith, Recorded;
    var r;
    w, r := WriteAsync(env, nodes, before, target, code);
    while exists i :: 0 <= i < |w.phase| && w.phase[i] != Reported
      invariant fresh(w) && w.env == env && w.nodes == nodes && w.before == before && w.target == target && w.code == code
      invariant w.Valid() && forall i :: 0 <= i < |w.phase| ==> w.phase[i] != Unstarted
      decreases Work(w.phase)
    {
      OpenMeaning(w.phase);
      assert w.successful + w.failed < |env|;
      var i :| 0 <= i < |w.phase| && w.phase[i] != Reported;
      UpdateSums(w.phase, i, Reported);
      UpdateSums(w.phase, i, Response);
      w.Deliver(i);
    }
    AllReported(w);
    AnswersDecide(w);
  }

  lemma AnswersDecide(w: WriteContext)
    requires w.Valid() && forall i :: 0 <= i < |w.phase| ==> w.phase[i] == Reported
    ensures w.successful == |Successes(w.env, w.before)|
    ensures w.finalStatus == StatusOk <==> forall i :: 0 <= i < |w.env| ==> Succeeds(w.env[i], w.before[i])
    ensures w.finalStatus != StatusOk ==>
      exists i :: 0 <= i < |w.env| && !Succeeds(w.env[i], w.before[i]) && FailsWith(w.env[i], w.before[i], w.code, w.finalStatus)
    ensures forall i :: 0 <= i < |w.env| ==> Recorded(w.env[i], w.before[i], w.states[i])
  {
    hide Outcome, StateAfter, Succeeds, FailsWith, Recorded, CountOk, FirstFailure;
    AllReported(w);
    forall i | 0 <= i < |w.env|
      ensures Outcome(w.env[i], w.before[i], w.code) == StatusOk <==> Succeeds(w.env[i], w.before[i])
      ensures Recorded(w.env[i], w.before[i], w.states[i])
    {
      OutcomeMeaning(w.env[i], w.before[i], w.code);
    }
    FirstFailureMeaning(w.reports);
    if w.finalStatus != StatusOk {
      var k :| 0 <= k < |w.reports| && w.reports[k].status == w.finalStatus;
      var r := w.reports[k];
      assert r in w.reports;
      OutcomeMeaning(w.env[r.replica], w.before[r.replica], w.code);
    }
    SuccessesCounted(w);
  }

  lemma SuccessesCounted(w: WriteContext)
    requires w.Valid() && forall i :: 0 <= i < |w.phase| ==> w.phase[i] == Reported
    ensures w.successful == |Successes(w.env, w.before)|
  {
    hide Outcome, Succeeds, CountOk, OkReplicas;
    CountOkIsSet(w.reports);
    forall k
      ensures k in OkReplicas(w.reports) <==> k in Successes(w.env, w.before)
    {
      OkReplicasMeaning(w.reports, k);
      if 0 <= k < |w.env| {
        OutcomeMeaning(w.env[k], w.before[k], w.code);
        assert w.Tracks(k);
      }
    }
    assert OkReplicas(w.reports) == Successes(w.env, w.before);
  }

  /** The replicas that reported success. */
  ghost function OkReplicas(rs: seq<Report>): set<int> {
    if rs == [] then {}
    else
      var n := |rs| - 1;
      OkReplicas(rs[..n]) + if rs[n].status == StatusOk then {rs[n].replica} else {}
  }

  lemma {:induction false} OkReplicasMeaning(rs: seq<Report>, k: int)
    ensures k in OkReplicas(rs) <==> exists r <- rs :: r.replica == k && r.status == StatusOk
  {
    if rs != [] {
      var n := |rs| - 1;
      OkReplicasMeaning(rs[..n], k);
      assert rs == rs[..n] + [rs[n]];
    }
  }

  lemma {:induction false} CountOkIsSet(rs: seq<Report>)
    requires forall i, j :: 0 <= i < j < |rs| ==> rs[i].replica != rs[j].replica
    ensures CountOk(rs) == |OkReplicas(rs)|
  {
    if rs != [] {
      var n := |rs| - 1;
      CountOkIsSet(rs[..n]);
      OkReplicasMeaning(rs[..n], rs[n].replica);
    }
  }

  /** When exactly one replica fails, the user is told its status. */
  lemma SoleFailureIsTold(w: WriteContext, i: nat)
    requires w.Valid() && forall j :: 0 <= j < |w.phase| ==> w.phase[j] == Reported
    requires i < |w.env| && !Succeeds(w.env[i], w.before[i])
    requires forall j :: 0 <= j < |w.env| && j != i ==> Succeeds(w.env[j], w.before[j])
    ensures FailsWith(w.env[i], w.before[i], w.code, w.finalStatus) && w.finalStatus != StatusOk
    ensures w.failed == 1 && w.successful == |w.env| - 1
  {
    hide Succeeds, FailsWith, Recorded;
    AllReported(w);
    AnswersDecide(w);
    assert Successes(w.env, w.before) == Indices(|w.env|) - {i};
  }

  ghost function Indices(n: nat): (s: set<int>)
    ensures |s| == n && forall j :: j in s <==> 0 <= j < n
  {
    if n == 0 then {} else Indices(n - 1) + {n - 1}
  }

  /**
   In every state of every run, the reports counted reach the target exactly when the last replica has reported,
   provided the target is the number of replicas (as it is for every volume that creation builds).
   */
  lemma CompleteExactlyAtLastReport(w: WriteContext)
    requires w.Valid() && w.target == |w.env|
    ensures w.successful + w.failed <= w.target
    ensures w.successful + w.failed == w.target <==> forall i :: 0 <= i < |w.phase| ==> w.phase[i] == Reported
  {
    OpenMeaning(w.phase);
  }

  lemma AllReported(w: WriteContext)
    requires w.Valid() && forall i :: 0 <= i < |w.phase| ==> w.phase[i] == Reported
    ensures w.successful + w.failed == |w.env| && w.finalStatus == FirstFailure(w.reports)
    ensures w.finalStatus == StatusOk <==> forall i :: 0 <= i < |w.env| ==> Outcome(w.env[i], w.before[i], w.code) == StatusOk
    ensures forall i :: 0 <= i < |w.env| ==> w.states[i] == StateAfter(w.env[i], w.before[i])
  {
    hide Outcome, StateAfter;
    OpenMeaning(w.phase);
    FirstFailureMeaning(w.reports);
    forall i | 0 <= i < |w.env|
      ensures Report(i, Outcome(w.env[i], w.before[i], w.code)) in w.reports && w.states[i] == StateAfter(w.env[i], w.before[i])
    {
      assert w.Tracks(i);
    }
  }
}
