/** CoroutineClient and PendingExchange as objects: every operation does to the queues and to
    the RPC objects what the state machine of RpcProtocol says
    (src/oio/blob/kinetic/coro/CoroutineClient.cpp, PendingExchange.cpp). */
module RpcClient {
  import opened Basics
  import opened RpcProtocol

  class PendingExchange {
    ghost const id: nat
    var sequence: int
    var header: int
    var deadline: int
    var outcome: Outcome
    var signals: nat

    ghost function View(): Rpc
      reads this
    {
      Rpc(id, sequence, header, deadline, outcome, signals)
    }

    constructor (ghost id: nat, now: int)
      ensures View() == Rpc(id, 0, 0, now + DEFAULT_TTL, Unset, 0)
    {
      this.id := id;
      sequence, header, deadline, outcome, signals := 0, 0, now + DEFAULT_TTL, Unset, 0;
    }

    /** The number replies are matched with, also stored in the header of the command. */
    method SetSequence(n: int)
      modifies this
      ensures View() == Sequenced(old(View()), n)
    {
      sequence := n;
      header := n;
    }

    method ManageReply(value: Bytes)
      modifies this`outcome
      ensures View() == old(View()).(outcome := Reply(value))
    {
      outcome := Reply(value);
    }

    method ManageError(errno: int)
      modifies this`outcome
      ensures View() == old(View()).(outcome := Error(errno))
    {
      outcome := Error(errno);
    }

    method Signal()
      modifies this`signals
      ensures View() == old(View()).(signals := old(signals) + 1)
    {
      signals := signals + 1;
    }
  }

  ghost function Views(ps: seq<PendingExchange>): (rs: seq<Rpc>)
    reads ps
    ensures |rs| == |ps| && forall i :: 0 <= i < |ps| ==> rs[i] == ps[i].View()
  {
    seq(|ps|, i requires 0 <= i < |ps| reads ps => ps[i].View())
  }

  lemma ViewsWithout(ps: seq<PendingExchange>, i: nat)
    requires i < |ps|
    ensures Views(ps[..i] + ps[i + 1..]) == Views(ps)[..i] + Views(ps)[i + 1..]
  {
  }

  ghost predicate Each(ps: seq<PendingExchange>) {
    forall i, j :: 0 <= i < j < |ps| ==> ps[i] != ps[j]
  }

  /** No RPC object is in two places. */
  ghost predicate Separate(w: seq<PendingExchange>, p: seq<PendingExchange>, c: seq<PendingExchange>) {
    && Each(w) && Each(p) && Each(c)
    && (forall x :: x in w ==> x !in p && x !in c)
    && (forall x :: x in p ==> x !in c)
  }

  class CoroutineClient {
    var waiting: seq<PendingExchange>
    var pending: seq<PendingExchange>
    var sequenceId: int
    var toAgent: nat
    var phase: Phase
    ghost var completed: seq<PendingExchange>
    ghost var issued: nat
    ghost var started: seq<nat>
    ghost var wire: map<int, nat>

    ghost function State(): Client
      reads this, waiting, pending, completed
    {
      Client(Views(waiting), Views(pending), Views(completed), sequenceId, toAgent, phase, issued, started, wire)
    }

    ghost predicate Apart()
      reads this`waiting, this`pending, this`completed
    {
      Separate(waiting, pending, completed)
    }

    /** The RPCs not yet completed. */
    ghost function Held(): set<PendingExchange>
      reads this`waiting, this`pending
    {
      (set x | x in waiting) + (set x | x in pending)
    }

    ghost predicate Outside(pe: PendingExchange)
      reads this`waiting, this`pending, this`completed
    {
      pe !in waiting && pe !in pending && pe !in completed
    }

    ghost predicate Valid()
      reads this, waiting, pending, completed
    {
      Apart() && Invariant(State())
    }

    constructor ()
      ensures Valid() && State() == INITIAL
    {
      waiting, pending, completed := [], [], [];
      sequenceId, toAgent, phase, issued, started, wire := 1, 0, Down, 0, [], map[];
      new;
      assert Views([]) == [];
      RunKeeps([]);
    }

    /** Issues an RPC: it waits, and one more token wakes the producer up. */
    method RPC(now: int) returns (ex: PendingExchange)
      requires Apart()
      modifies this
      ensures Apart() && State() == Apply(old(State()), Issue(now))
      ensures fresh(ex) && Held() <= old(Held()) + {ex}
    {
      ghost var before := State();
      ex := NewExchange(now);
      sequenceId := sequenceId + 1;
      issued := issued + 1;
      Enqueue(ex);
      IssueApplies(before, now, State());
    }

    method NewExchange(now: int) returns (ex: PendingExchange)
      ensures fresh(ex) && Outside(ex)
      ensures ex.View() == Rpc(issued, sequenceId, sequenceId, now + DEFAULT_TTL, Unset, 0)
    {
      ex := new PendingExchange(issued, now);
      ex.SetSequence(sequenceId);
    }

    /** The new RPC joins the queue, and a token is sent for it. */
    method Enqueue(ex: PendingExchange)
      requires Apart() && Outside(ex)
      modifies this`waiting, this`toAgent
      ensures Apart() && Held() == old(Held()) + {ex}
      ensures waiting == old(waiting) + [ex] && toAgent == old(toAgent) + 1
      ensures Views(waiting) == old(Views(waiting)) + [ex.View()]
      ensures Views(pending) == old(Views(pending)) && Views(completed) == old(Views(completed))
    {
      waiting := waiting + [ex];
      toAgent := toAgent + 1;
    }

    method FindPending(sequence: int) returns (it: nat)
      ensures it == Find(Views(pending), sequence)
    {
      it := 0;
      while it < |pending| && pending[it].sequence != sequence
        invariant it <= |pending|
        invariant forall j :: 0 <= j < it ==> pending[j].sequence != sequence
      {
        it := it + 1;
      }
      FindAt(Views(pending), sequence, it);
    }

    /** Takes out the first pending RPC with the given sequence number. */
    method PopRpc(sequence: int) returns (pe: PendingExchange?)
      requires Apart()
      modifies this`pending
      ensures var i := Find(old(Views(pending)), sequence);
              if i == old(|pending|) then pe == null && pending == old(pending)
              else pe == old(pending)[i] && pending == old(pending)[..i] + old(pending)[i + 1..]
      ensures pe == null ==> Apart() && Views(pending) == old(Views(pending))
      ensures pe != null ==> Separate(waiting, pending, completed + [pe]) && Outside(pe)
      ensures pe != null ==> var i := Find(old(Views(pending)), sequence);
                             Views(pending) == old(Views(pending))[..i] + old(Views(pending))[i + 1..]
    {
      var it := FindPending(sequence);
      if it == |pending| {
        return null;
      }
      RemovedIsApart(waiting, pending, completed, it);
      ViewsWithout(pending, it);
      pe := pending[it];
      pending := pending[..it] + pending[it + 1..];
    }

    /** Tells an RPC taken out of the queues how it ended, and wakes its caller up. */
    method Notify(pe: PendingExchange, outcome: Outcome)
      requires Outside(pe)
      requires outcome != Unset
      modifies pe, this`completed
      ensures completed == old(completed) + [pe]
      ensures pe.View() == Complete(old(pe.View()), outcome)
      ensures Views(waiting) == old(Views(waiting)) && Views(pending) == old(Views(pending))
      ensures Views(completed) == old(Views(completed)) + [pe.View()]
    {
      match outcome {
        case Reply(value) => pe.ManageReply(value);
        case Error(errno) => pe.ManageError(errno);
      }
      pe.Signal();
      completed := completed + [pe];
    }

    /** A frame came in: the RPC it acknowledges gets the reply, any other frame is ignored. */
    method Manage(ack: int, value: Bytes)
      requires Apart()
      modifies this`pending, this`completed, pending
      ensures Apart() && State() == Apply(old(State()), Receive(ack, value))
      ensures waiting == old(waiting) && forall x :: x in pending ==> x in old(pending)
    {
      ghost var before := State();
      var pe := PopRpc(ack);
      if pe != null {
        Notify(pe, Reply(value));
      }
      ReceiveApplies(before, ack, value, State());
    }

    /** Ends a pending RPC with an error. Its number must be the one that finds it. */
    method AbortRpc(pe: PendingExchange, errno: int, ghost i: nat)
      requires Apart() && i < |pending| && pending[i] == pe
      requires Find(Views(pending), pe.sequence) == i
      modifies this`pending, this`completed, pe
      ensures Apart()
      ensures pending == old(pending)[..i] + old(pending)[i + 1..] && completed == old(completed) + [pe]
      ensures pe.View() == Complete(old(pe.View()), Error(errno))
      ensures Views(waiting) == old(Views(waiting))
      ensures Views(pending) == old(Views(pending))[..i] + old(Views(pending))[i + 1..]
      ensures Views(completed) == old(Views(completed)) + [pe.View()]
    {
      var sequence := pe.sequence;
      var popped := PopRpc(sequence);
      Notify(pe, Error(errno));
    }

    /** Starts an RPC taken from the waiting queue: pending first, then numbered and written.
        `errno` is what the write returns. */
    method StartRpc(pe: PendingExchange, errno: int) returns (ok: bool)
      requires Apart() && Outside(pe)
      requires forall p :: p in pending ==> p.sequence < sequenceId
      modifies this`pending, this`completed, this`sequenceId, this`started, this`wire, pe
      ensures Apart() && ok == (errno == 0)
      ensures forall x :: x in pending ==> x in old(pending) || x == pe
      ensures var r := Sequenced(old(pe.View()), old(sequenceId));
              && sequenceId == old(sequenceId) + 1 && started == old(started) + [pe.id]
              && Views(waiting) == old(Views(waiting))
              && (if ok then Views(pending) == old(Views(pending)) + [r] && Views(completed) == old(Views(completed))
                        && wire == old(wire)[r.header := pe.id]
                  else Views(pending) == old(Views(pending)) && wire == old(wire)
                       && Views(completed) == old(Views(completed)) + [Complete(r, Error(errno))])
    {
      Submit(pe);
      if errno == 0 {
        wire := wire[pe.header := pe.id];
        return true;
      }
      FindAt(Views(pending), pe.sequence, |pending| - 1);
      AbortRpc(pe, errno, |pending| - 1);
      ok := false;
    }

    /** The RPC becomes pending under the next number of the connection. */
    method Submit(pe: PendingExchange)
      requires Apart() && Outside(pe)
      modifies this`pending, this`sequenceId, this`started, pe
      ensures Apart() && pending == old(pending) + [pe]
      ensures pe.View() == Sequenced(old(pe.View()), old(sequenceId))
      ensures sequenceId == old(sequenceId) + 1 && started == old(started) + [pe.id]
      ensures Views(waiting) == old(Views(waiting)) && Views(completed) == old(Views(completed))
      ensures Views(pending) == old(Views(pending)) + [pe.View()]
    {
      pending := pending + [pe];
      pe.SetSequence(sequenceId);
      sequenceId := sequenceId + 1;
      started := started + [pe.id];
    }

    method MoveWaiting()
      modifies this`waiting, this`pending
      ensures waiting == [] && pending == old(pending) + old(waiting)
    {
      while waiting != []
        invariant pending + waiting == old(pending) + old(waiting)
        decreases |waiting|
      {
        var pe := waiting[0];
        waiting := waiting[1..];
        pending := pending + [pe];
      }
    }

    /** Fails every waiting and pending RPC. */
    method AbortAllRpc()
      requires Apart()
      modifies this`waiting, this`pending, this`completed, waiting, pending
      ensures Apart() && waiting == [] && pending == []
      ensures Views(completed) ==
              old(Views(completed)) + CompleteAll(old(Views(pending)) + old(Views(waiting)), Error(ECONNRESET))
    {
      JoinedIsApart(waiting, pending, completed);
      MoveWaiting();
      var tmp := pending;
      pending := [];
      assert Views(tmp) == old(Views(pending)) + old(Views(waiting));
      FailDetached(tmp);
    }

    /** Tells every RPC of a detached list that the connection is lost, then wakes every caller. */
    method FailDetached(tmp: seq<PendingExchange>)
      requires Each(tmp) && forall x :: x in tmp ==> x !in completed
      modifies tmp, this`completed
      ensures completed == old(completed) + tmp
      ensures Views(completed) == old(Views(completed)) + CompleteAll(old(Views(tmp)), Error(ECONNRESET))
    {
      FailAll(tmp);
      assert forall i :: 0 <= i < |completed| ==> completed[i] !in tmp;
      completed := completed + tmp;
    }

    /** A sweep after i of the RPCs it found: the pending list is those found alive, followed by
        those not yet looked at. */
    ghost predicate Swept(all: seq<PendingExchange>, i: nat, now: int, before: seq<Rpc>, done: seq<Rpc>)
      reads this, pending, completed
    {
      && i <= |all| == |before|
      && Views(pending) == Alive(before[..i], now) + before[i..]
      && pending[|Alive(before[..i], now)|..] == all[i..]
      && DistinctSequences(Views(pending))
      && Views(completed) == done + Expired(before[..i], now)
    }

    /** Fails every pending RPC whose deadline has passed, over a copy of the list. */
    method AbortStalledRpc(now: int)
      requires Apart() && DistinctSequences(Views(pending))
      modifies this`pending, this`completed, pending
      ensures Apart() && Views(waiting) == old(Views(waiting))
      ensures forall x :: x in pending ==> x in old(pending)
      ensures Views(pending) == Alive(old(Views(pending)), now)
      ensures Views(completed) == old(Views(completed)) + Expired(old(Views(pending)), now)
    {
      var all := pending;
      ghost var before, done := Views(pending), Views(completed);
      for i := 0 to |all|
        invariant Apart() && Views(waiting) == old(Views(waiting))
        invariant forall x :: x in pending ==> x in all
        invariant Swept(all, i, now, before, done)
      {
        CheckDeadline(all, i, now, before, done);
      }
      assert before[..|all|] == before;
    }

    /** One RPC of the sweep. */
    method CheckDeadline(all: seq<PendingExchange>, i: nat, now: int, ghost before: seq<Rpc>, ghost done: seq<Rpc>)
      requires Apart() && i < |all| && Swept(all, i, now, before, done)
      modifies this`pending, this`completed, all[i]
      ensures Apart() && Views(waiting) == old(Views(waiting))
      ensures forall x :: x in pending ==> x in old(pending)
      ensures Swept(all, i + 1, now, before, done)
    {
      var pe := all[i];
      ghost var k := |Alive(before[..i], now)|;
      assert pending[k..][0] == pe && Views(pending)[k] == before[i];
      SweepNext(before, now, i);
      assert pending[k + 1..] == all[i + 1..];
      if now > pe.deadline {
        FindAt(Views(pending), pe.sequence, k);
        DistinctAfterRemoval(Views(pending), k);
        AbortRpc(pe, ETIMEDOUT, k);
        assert pending[k..] == all[i + 1..];
      } else {
        assert before[i..] == [before[i]] + before[i + 1..];
      }
    }

    /** The periodic check of the producer. */
    method CheckStalled(now: int)
      requires Apart() && DistinctSequences(Views(pending))
      modifies this`pending, this`completed, pending
      ensures Apart() && State() == Apply(old(State()), Sweep(now))
      ensures waiting == old(waiting) && forall x :: x in pending ==> x in old(pending)
    {
      ghost var before := State();
      AbortStalledRpc(now);
      SweepApplies(before, now, Views(pending), Views(completed));
    }

    /** The producer takes a token and starts the oldest waiting RPC, if any; it stops when the
        write fails. */
    method TakeOne(errno: int)
      requires Apart() && phase == Up && toAgent > 0
      requires forall p :: p in pending ==> p.sequence < sequenceId
      modifies this, waiting
      ensures Apart() && State() == Apply(old(State()), TakeToken(errno))
      ensures Held() <= old(Held())
    {
      ghost var before := State();
      toAgent := toAgent - 1;
      if waiting != [] {
        StartOldest(errno);
      }
      TokenApplies(before, errno, State());
    }

    method StartOldest(errno: int)
      requires Apart() && waiting != []
      requires forall p :: p in pending ==> p.sequence < sequenceId
      modifies this`waiting, this`pending, this`completed, this`sequenceId, this`started, this`wire, this`phase, waiting[0]
      ensures Apart() && Held() <= old(Held())
      ensures State() == Start(old(State()), errno)
    {
      var pe := TakeOldest();
      var ok := StartRpc(pe, errno);
      if !ok {
        phase := Draining;
      }
    }

    method TakeOldest() returns (pe: PendingExchange)
      requires Apart() && waiting != []
      modifies this`waiting
      ensures pe == old(waiting)[0] && waiting == old(waiting)[1..]
      ensures Apart() && Outside(pe)
      ensures pe.View() == old(Views(waiting))[0] && Views(waiting) == old(Views(waiting))[1..]
      ensures Views(pending) == old(Views(pending)) && Views(completed) == old(Views(completed))
    {
      pe := waiting[0];
      waiting := waiting[1..];
    }

    /** run_agents: a new connection starts a new numbering. */
    method Reconnect()
      requires Apart() && phase == Down
      modifies this`sequenceId, this`wire, this`phase
      ensures Apart() && State() == Apply(old(State()), Connect)
    {
      sequenceId, wire, phase := 1, map[], Greeting;
    }

    /** The banner is managed like any frame, then the producer starts. */
    method TakeBanner(ack: int, value: Bytes)
      requires Apart() && phase == Greeting
      modifies this, pending
      ensures Apart() && State() == Apply(old(State()), Banner(ack, value))
      ensures waiting == old(waiting) && forall x :: x in pending ==> x in old(pending)
    {
      Manage(ack, value);
      phase := Up;
    }

    /** Both agents have ended. */
    method EndConnection()
      requires Apart() && phase != Down
      modifies this, waiting, pending
      ensures Apart() && State() == Apply(old(State()), Disconnect)
      ensures Held() == {}
    {
      AbortAllRpc();
      phase := Down;
      assert Views(waiting) == [] && Views(pending) == [];
    }

    method Dispatch(e: Event)
      requires Apart() && DistinctSequences(Views(pending))
      requires forall p :: p in pending ==> p.sequence < sequenceId
      modifies this, Held()
      ensures Apart() && State() == Apply(old(State()), e)
      ensures fresh(Held() - old(Held()))
    {
      match e {
        case Issue(now) =>
          var ex := RPC(now);
        case Connect =>
          if phase == Down {
            Reconnect();
          }
        case Banner(ack, value) =>
          if phase == Greeting {
            TakeBanner(ack, value);
          }
        case TakeToken(errno) =>
          if phase == Up && toAgent > 0 {
            TakeOne(errno);
          }
        case Receive(ack, value) =>
          Manage(ack, value);
        case Sweep(now) =>
          CheckStalled(now);
        case Disconnect =>
          if phase != Down {
            EndConnection();
          }
      }
    }

    /** One event of the life of the client, whatever the agents and the callers do. */
    method Perform(e: Event)
      requires Valid()
      modifies this, Held()
      ensures Valid() && State() == Apply(old(State()), e)
      ensures fresh(Held() - old(Held()))
    {
      PendingFacts();
      Dispatch(e);
      StepKeeps(old(State()), e, State());
    }

    lemma PendingFacts()
      requires Valid()
      ensures DistinctSequences(Views(pending))
      ensures forall p :: p in pending ==> p.sequence < sequenceId
    {
      forall i | 0 <= i < |pending| ensures pending[i].sequence < sequenceId {
        assert Views(pending)[i] in Views(pending);
      }
    }
  }

  /** Any run of the objects is a run of the state machine, so everything proved about runs
      holds of the client. */
  method RunClient(events: seq<Event>) returns (client: CoroutineClient)
    ensures client.Valid() && client.State() == Run(INITIAL, events)
  {
    client := new CoroutineClient();
    for i := 0 to |events|
      invariant client.Valid() && client.State() == Run(INITIAL, events[..i])
      invariant fresh(client) && forall x :: x in client.Held() ==> fresh(x)
    {
      PerformNext(client, events, i);
    }
    assert events[..|events|] == events;
  }

  method PerformNext(client: CoroutineClient, events: seq<Event>, i: nat)
    requires i < |events| && client.Valid() && client.State() == Run(INITIAL, events[..i])
    modifies client, client.Held()
    ensures client.Valid() && client.State() == Run(INITIAL, events[..i + 1])
    ensures forall x :: x in client.Held() ==> x in old(client.Held()) || fresh(x)
  {
    RunNext(INITIAL, events, i);
    client.Perform(events[i]);
  }

  /** Tells every RPC of the list that the connection is lost, then wakes every caller up. */
  method FailAll(tmp: seq<PendingExchange>)
    requires Each(tmp)
    modifies tmp
    ensures Views(tmp) == CompleteAll(old(Views(tmp)), Error(ECONNRESET))
  {
    for i := 0 to |tmp|
      invariant forall j :: 0 <= j < i ==> tmp[j].View() == old(tmp[j].View()).(outcome := Error(ECONNRESET))
      invariant forall j :: i <= j < |tmp| ==> tmp[j].View() == old(tmp[j].View())
    {
      tmp[i].ManageError(ECONNRESET);
    }
    for i := 0 to |tmp|
      invariant forall j :: 0 <= j < i ==> tmp[j].View() == Complete(old(tmp[j].View()), Error(ECONNRESET))
      invariant forall j :: i <= j < |tmp| ==> tmp[j].View() == old(tmp[j].View()).(outcome := Error(ECONNRESET))
    {
      tmp[i].Signal();
    }
  }

  lemma DistinctAfterRemoval(rs: seq<Rpc>, k: nat)
    requires DistinctSequences(rs) && k < |rs|
    ensures DistinctSequences(rs[..k] + rs[k + 1..])
  {
  }

  lemma RemovedIsApart(w: seq<PendingExchange>, p: seq<PendingExchange>, c: seq<PendingExchange>, i: nat)
    requires Separate(w, p, c) && i < |p|
    ensures Separate(w, p[..i] + p[i + 1..], c + [p[i]])
    ensures p[i] !in w && p[i] !in p[..i] + p[i + 1..] && p[i] !in c
  {
    assert p[i] in p;
  }

  lemma JoinedIsApart(w: seq<PendingExchange>, p: seq<PendingExchange>, c: seq<PendingExchange>)
    requires Separate(w, p, c)
    ensures Each(p + w) && Separate([], [], c + (p + w))
    ensures forall x :: x in p + w ==> x !in c
  {
    EachConcat(p, w);
    EachConcat(c, p + w);
  }

  lemma EachConcat(a: seq<PendingExchange>, b: seq<PendingExchange>)
    requires Each(a) && Each(b) && forall x :: x in a ==> x !in b
    ensures Each(a + b)
  {
    forall i, j | 0 <= i < j < |a + b| ensures (a + b)[i] != (a + b)[j] {
      if i < |a| <= j {
        assert a[i] in a && b[j - |a|] in b;
      }
    }
  }

  lemma {:induction false} FindAt(rs: seq<Rpc>, sequence: int, i: nat)
    requires i <= |rs| && (i < |rs| ==> rs[i].sequence == sequence)
    requires forall j :: 0 <= j < i ==> rs[j].sequence != sequence
    ensures Find(rs, sequence) == i
  {
    if i > 0 {
      FindAt(rs[1..], sequence, i - 1);
    }
  }
}
