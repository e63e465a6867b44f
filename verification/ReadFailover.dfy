/**
 Reading with failover: replicas are tried one after another until one delivers. The coordinator is a state machine
 over its callbacks; each method below is one callback, run to its end. What the layers below answer is a script that
 is fixed but arbitrary, so a statement about one script is a statement about every run.
 */
module ReadFailover {
  import opened MachineInts
  import opened Outcomes
  import opened Links
  import opened Storage

  // ---------------------------------------------------------------- the layers below

  /**
   Answers for one replica. Replica 0 is local: the submission is refused, or it completes. A remote one needs memory
   and a link, and then responds with a status and, perhaps, data.
   */
  datatype Answers =
    | Local(refused: Option<Error>, completion: Result<seq<byte>>)
    | Remote(dmaMemory: bool, contextMemory: bool, link: Link, response: Result<Option<seq<byte>>>)

  /** Each layer either returns an error or calls back once; a connection that is refused has an error to show. */
  ghost predicate Sane(env: seq<Answers>, length: nat) {
    && 1 <= |env| <= MAX_REPLICAS
    && env[0].Local?
    && (env[0].completion.Ok? ==> |env[0].completion.value| == length)
    && (forall i :: 1 <= i < |env| ==> env[i].Remote? && (env[i].link.Refused? ==> env[i].link.connectStatus != 0))
  }

  // ---------------------------------------------------------------- what should come of it

  /** How one attempt ends. */
  datatype Attempt = Delivered(data: seq<byte>) | Missed(error: Error)

  /** The bounce buffer is allocated by the first remote attempt that gets the memory, and kept. */
  predicate HasDma(env: seq<Answers>, i: int)
    requires i < |env| && forall j :: 1 <= j < |env| ==> env[j].Remote?
    decreases i
  {
    i >= 1 && (env[i].dmaMemory || HasDma(env, i - 1))
  }

  ghost function Outcome(env: seq<Answers>, length: nat, i: nat): Attempt
    requires Sane(env, length) && i < |env|
  {
    match env[i]
    case Local(refused, completion) =>
      if refused.Some? then Missed(refused.value)
      else if completion.Err? then Missed(completion.error)
      else Delivered(completion.value)
    case Remote(_, contextMemory, link, response) =>
      if !HasDma(env, i) || !contextMemory then Missed(OutOfMemory)
      else if LinkStatus(link) != 0 then Missed(FromErrno(-LinkStatus(link)).error)
      else if response.Err? then Missed(response.error)
      else if response.value.Some? && |response.value.value| == length then Delivered(response.value.value)
      else Missed(ProtocolGeneric)
  }

  /** Index of the first replica that delivers, or the number of replicas. */
  ghost function FirstDelivery(env: seq<Answers>, length: nat, from: nat): (k: nat)
    requires Sane(env, length) && from <= |env|
    ensures from <= k <= |env|
    ensures k < |env| ==> Outcome(env, length, k).Delivered?
    ensures forall i :: from <= i < k ==> Outcome(env, length, i).Missed?
    decreases |env| - from
  {
    if from == |env| || Outcome(env, length, from).Delivered? then from else FirstDelivery(env, length, from + 1)
  }

  // ---------------------------------------------------------------- the same in terms of the answers alone

  /** Some remote attempt up to this one has got memory for the bounce buffer. */
  ghost predicate Buffered(env: seq<Answers>, i: nat)
    requires i < |env|
  {
    exists j :: 1 <= j <= i && env[j].Remote? && env[j].dmaMemory
  }

  /** Everything replica `i` needs is there, and it answers with these bytes: all of them, if it is remote. */
  ghost predicate Delivers(env: seq<Answers>, length: nat, i: nat, data: seq<byte>)
    requires i < |env|
  {
    match env[i]
    case Local(refused, completion) => refused == None && completion == Ok(data)
    case Remote(_, contextMemory, link, response) =>
      Buffered(env, i) && contextMemory && LinkStatus(link) == 0 && response == Ok(Some(data)) && |data| == length
  }

  /** Replica `i` fails with this error: what it needs is not there, or it answers with an error or the wrong bytes. */
  ghost predicate Fails(env: seq<Answers>, length: nat, i: nat, e: Error)
    requires i < |env|
  {
    match env[i]
    case Local(refused, completion) => refused == Some(e) || (refused == None && completion == Err(e))
    case Remote(_, contextMemory, link, response) =>
      if !Buffered(env, i) || !contextMemory then e == OutOfMemory
      else if LinkStatus(link) != 0 then FromErrno(-LinkStatus(link)) == StatusErr(e)
      else response == Err(e) ||
           (e == ProtocolGeneric && response.Ok? && forall data :: response == Ok(Some(data)) ==> |data| != length)
  }

  lemma {:induction false} HasDmaMeaning(env: seq<Answers>, i: nat)
    requires i < |env| && forall j :: 1 <= j < |env| ==> env[j].Remote?
    ensures HasDma(env, i) <==> Buffered(env, i)
  {
    if i > 0 {
      HasDmaMeaning(env, i - 1);
    }
  }

  lemma OutcomeMeaning(env: seq<Answers>, length: nat, i: nat)
    requires Sane(env, length) && i < |env|
    ensures forall data :: Outcome(env, length, i) == Delivered(data) <==> Delivers(env, length, i, data)
    ensures forall e :: Outcome(env, length, i) == Missed(e) <==> Fails(env, length, i, e)
  {
    HasDmaMeaning(env, i);
  }

  // ---------------------------------------------------------------- the coordinator

  datatype Awaited = LocalIo | Connection | Response | Nothing {
    function Rank(): nat {
      if Connection? then 2 else if Nothing? then 0 else 1
    }
  }

  class Coordinator {
    const env: seq<Answers>
    const length: nat

    var nextReplica: nat
    var lastStatus: Status
    var dmaBuffer: Option<seq<byte>>
    var userBuffer: seq<byte>
    var inTable: bool
    var userCalls: seq<Status>

    /** Whose callback is outstanding: the event loop's knowledge, not the coordinator's. */
    var awaited: Awaited
    ghost var started: seq<nat>
    ghost var ended: seq<Attempt>

    /** Replicas are started in order, once each; every attempt ends as its answers say. */
    ghost predicate Orderly()
      reads this
    {
      && Sane(env, length)
      && |ended| <= |started| <= |env|
      && (forall i :: 0 <= i < |started| ==> started[i] == i)
      && (forall i :: 0 <= i < |ended| ==> ended[i] == Outcome(env, length, i))
      && (dmaBuffer.Some? <==> HasDma(env, |started| - 1))
    }

    /** No attempt has delivered and the user has not been called. */
    ghost predicate Missing()
      reads this
    {
      Orderly() && userCalls == [] && nextReplica == |ended| && forall i :: 0 <= i < |ended| ==> ended[i].Missed?
    }

    /** Between two attempts. */
    ghost predicate Seeking()
      reads this
    {
      && Missing()
      && |started| == |ended|
      && awaited == Nothing
      && (ended == [] ==> !inTable)
      && (ended != [] ==> lastStatus == StatusErr(ended[|ended| - 1].error))
    }

    /** An attempt is under way: the one on the next replica in order. */
    ghost predicate Underway()
      reads this
    {
      && Missing()
      && |started| == |ended| + 1
      && match awaited
         case Nothing => false
         case LocalIo => nextReplica == 0 && !inTable && env[0].refused.None?
         case Connection => Contacted() && env[nextReplica].link.Later?
         case Response => Contacted() && LinkStatus(env[nextReplica].link) == 0
    }

    ghost predicate Contacted()
      reads this
    {
      1 <= nextReplica < |env| && inTable && dmaBuffer.Some? && env[nextReplica].Remote? && env[nextReplica].contextMemory
    }

    /**
     Over: the user was called once. It was told OK and has the data of the first replica that delivers, or no
     replica delivers and it was told the last one's error.
     */
    ghost predicate Finished()
      reads this
    {
      && Orderly()
      && awaited == Nothing && !inTable
      && |started| == |ended| && ended != []
      && var k := FirstDelivery(env, length, 0);
         if k < |env| then
           |ended| == k + 1 && userCalls == [StatusOk] && userBuffer == ended[k].data
         else
           |ended| == |env| && userCalls == [StatusErr(ended[|env| - 1].error)]
    }

    constructor (env: seq<Answers>, length: nat, userBuffer: seq<byte>)
      requires Sane(env, length)
      ensures Seeking() && started == [] && this.env == env && this.length == length
    {
      this.env, this.length := env, length;
      nextReplica, lastStatus := 0, StatusOk;
      dmaBuffer, this.userBuffer := None, userBuffer;
      inTable, userCalls := false, [];
      awaited, started, ended := Nothing, [], [];
    }

    lemma NoDeliveryBefore(k: nat)
      requires Sane(env, length) && k <= |env|
      requires forall i :: 0 <= i < k ==> Outcome(env, length, i).Missed?
      ensures FirstDelivery(env, length, 0) >= k
    {
    }

    /** `_xsan_try_read_from_next_replica`. */
    method TryNext()
      requires Seeking()
      modifies this
      ensures Underway() || Finished()
      ensures |ended| >= |old(ended)|
      decreases |env| - nextReplica, 2
    {
      if nextReplica >= |env| {
        NoDeliveryBefore(|env|);
        userCalls := userCalls + [lastStatus];
        inTable := false;
        return;
      }
      started := started + [nextReplica];
      match env[nextReplica] {
        case Local(refused, _) =>
          lastStatus := if refused.Some? then StatusErr(refused.value) else StatusOk;
          if refused.Some? {
            Miss(refused.value);
          } else {
            awaited := LocalIo;
          }
        case Remote(dmaMemory, contextMemory, link, _) =>
          if dmaBuffer.None? && dmaMemory {
            dmaBuffer := Some([]);
          }
          if dmaBuffer.None? || !contextMemory {
            Miss(OutOfMemory);
            return;
          }
          inTable := true;
          match link {
            case Active(sendStatus) => ConnectThenSend(0, sendStatus);
            case Refused(connectStatus) => ConnectThenSend(connectStatus, 0);
            case Later(_, _) => awaited := Connection;
          }
      }
    }

    /** The running attempt has failed: note the status and move on. */
    method Miss(e: Error)
      requires Missing() && |started| == |ended| + 1
      requires Outcome(env, length, nextReplica) == Missed(e)
      modifies this
      ensures Underway() || Finished()
      ensures |ended| > |old(ended)|
      decreases |env| - nextReplica, 0
    {
      lastStatus := StatusErr(e);
      nextReplica := nextReplica + 1;
      ended := ended + [Missed(e)];
      awaited := Nothing;
      TryNext();
    }

    /** `_xsan_remote_replica_read_connect_then_send_cb`, and the send's completion after it. */
    method ConnectThenSend(connectStatus: int, sendStatus: int)
      requires Missing() && |started| == |ended| + 1 && Contacted()
      requires LinkStatus(env[nextReplica].link) == if connectStatus != 0 then connectStatus else sendStatus
      modifies this
      ensures Underway() || Finished()
      ensures |ended| > |old(ended)| || (ended == old(ended) && awaited == Response)
      decreases |env| - nextReplica, 1
    {
      if connectStatus == 0 && sendStatus == 0 {
        awaited := Response;
      } else {
        Miss(FromErrno(-(if connectStatus != 0 then connectStatus else sendStatus)).error);
      }
    }

    /** `_xsan_replica_read_attempt_complete_cb` with success: remote data goes from the bounce buffer to the user's. */
    method Deliver(ghost data: seq<byte>)
      requires Missing() && |started| == |ended| + 1
      requires Outcome(env, length, nextReplica) == Delivered(data)
      requires nextReplica == 0 ==> userBuffer == data
      requires nextReplica > 0 ==> dmaBuffer == Some(data)
      modifies this
      ensures Finished() && |ended| > |old(ended)|
    {
      NoDeliveryBefore(nextReplica);
      if nextReplica > 0 && dmaBuffer.Some? {
        userBuffer := dmaBuffer.value;
      }
      userCalls := userCalls + [StatusOk];
      inTable := false;
      ended := ended + [Delivered(data)];
      awaited := Nothing;
    }

    /** The local device operation completes. */
    method OnLocalComplete()
      requires Underway() && awaited == LocalIo
      modifies this
      ensures Underway() || Finished()
      ensures |ended| > |old(ended)|
    {
      match env[0].completion {
        case Ok(data) =>
          userBuffer := data;
          Deliver(data);
        case Err(e) =>
          Miss(e);
      }
    }

    /** The connection attempt reports. */
    method OnConnect()
      requires Underway() && awaited == Connection
      modifies this
      ensures Underway() || Finished()
      ensures |ended| > |old(ended)| || (ended == old(ended) && awaited == Response)
    {
      var link := env[nextReplica].link;
      ConnectThenSend(link.connectStatus, link.sendStatus);
    }

    /**
     `xsan_volume_manager_process_replica_read_response`. A response that no request is waiting for changes nothing.
     */
    method OnResponse(response: Result<Option<seq<byte>>>)
      requires Underway() || Finished()
      requires awaited != Connection
      requires awaited == Response ==> response == env[nextReplica].response
      modifies this
      ensures Underway() || Finished()
      ensures if old(awaited) == Response then |ended| > |old(ended)| else unchanged(this)
    {
      if !inTable {
        return;
      }
      match response {
        case Ok(data) =>
          if data.Some? && |data.value| == length {
            dmaBuffer := data;
            Deliver(data.value);
          } else {
            Miss(ProtocolGeneric);
          }
        case Err(e) =>
          Miss(e);
      }
    }
  }

  /**
   `xsan_volume_read_async` and everything it sets off, with responses nobody waits for thrown in at will: it ends, the
   replicas from 0 on were tried once each up to the first that delivers, and the user was called exactly once.
   */
  method RunRead(env: seq<Answers>, length: nat, userBuffer: seq<byte>, stray: Result<Option<seq<byte>>>)
    returns (c: Coordinator)
    requires Sane(env, length)
    ensures fresh(c) && c.env == env && c.length == length && c.Finished()
    // Success means a whole answer.
    ensures c.userCalls == [StatusOk] ==> |c.userBuffer| == length
    // The first replica that delivers is the last one tried, and its bytes are the user's.
    ensures forall k, data :: 0 <= k < |env| && Delivers(env, length, k, data) && NoneDelivers(env, length, k) ==>
      c.userCalls == [StatusOk] && c.userBuffer == data && |c.started| == k + 1
    // When none delivers, all have been tried, and the last one's error is the user's.
    ensures NoneDelivers(env, length, |env|) ==>
      |c.started| == |env| && exists e :: Fails(env, length, |env| - 1, e) && c.userCalls == [StatusErr(e)]
  {
    c := new Coordinator(env, length, userBuffer);
    c.TryNext();
    while c.awaited != Nothing
      invariant fresh(c) && c.env == env && c.length == length
      invariant c.Underway() || c.Finished()
      decreases |env| - |c.ended|, c.awaited.Rank()
    {
      if * {
        if c.awaited == LocalIo {
          c.OnResponse(stray);
        }
      }
      match c.awaited {
        case LocalIo => c.OnLocalComplete();
        case Connection => c.OnConnect();
        case Response => c.OnResponse(env[c.nextReplica].response);
      }
    }
    c.OnResponse(stray);
    FinishedMeaning(c);
  }

  ghost predicate NoneDelivers(env: seq<Answers>, length: nat, k: nat)
    requires k <= |env|
  {
    forall i, data :: 0 <= i < k ==> !Delivers(env, length, i, data)
  }

  lemma FinishedMeaning(c: Coordinator)
    requires c.Finished()
    ensures c.userCalls == [StatusOk] ==> |c.userBuffer| == c.length
    ensures forall k, data :: 0 <= k < |c.env| && Delivers(c.env, c.length, k, data) && NoneDelivers(c.env, c.length, k) ==>
      c.userCalls == [StatusOk] && c.userBuffer == data && |c.started| == k + 1
    ensures NoneDelivers(c.env, c.length, |c.env|) ==>
      |c.started| == |c.env| && exists e :: Fails(c.env, c.length, |c.env| - 1, e) && c.userCalls == [StatusErr(e)]
  {
    hide Outcome, Delivers, Fails;
    forall i | 0 <= i < |c.env|
      ensures forall data :: Outcome(c.env, c.length, i) == Delivered(data) <==> Delivers(c.env, c.length, i, data)
      ensures forall e :: Outcome(c.env, c.length, i) == Missed(e) <==> Fails(c.env, c.length, i, e)
    {
      OutcomeMeaning(c.env, c.length, i);
    }
    var k := FirstDelivery(c.env, c.length, 0);
    if k < |c.env| {
      WholeAnswer(c.env, c.length, k, c.userBuffer);
      assert !NoneDelivers(c.env, c.length, |c.env|);
    } else {
      assert Fails(c.env, c.length, |c.env| - 1, c.ended[|c.env| - 1].error);
    }
    forall i, data | 0 <= i < |c.env| && Delivers(c.env, c.length, i, data) && NoneDelivers(c.env, c.length, i)
      ensures i == k && c.userBuffer == data
    {
      assert Outcome(c.env, c.length, i) == Delivered(data);
      assert k < |c.env| && Delivers(c.env, c.length, k, c.userBuffer);
    }
  }

  /** Each failure has one cause, so the error the user is told is determined. */
  lemma FailsOneWay(env: seq<Answers>, length: nat, i: nat, e: Error, e': Error)
    requires Sane(env, length) && i < |env| && Fails(env, length, i, e) && Fails(env, length, i, e')
    ensures e == e' && forall data :: !Delivers(env, length, i, data)
  {
    OutcomeMeaning(env, length, i);
  }

  lemma WholeAnswer(env: seq<Answers>, length: nat, i: nat, data: seq<byte>)
    requires Sane(env, length) && i < |env| && Delivers(env, length, i, data)
    ensures |data| == length
  {
  }
}
