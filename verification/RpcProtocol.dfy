/** The RPC multiplexer of one Kinetic drive as a state machine: what its operations do to the
    RPCs it was given, and what every run keeps
    (src/oio/blob/kinetic/coro/CoroutineClient.cpp, PendingExchange.cpp). */
module RpcProtocol {
  import opened Basics

  /** errno values in use. */
  const ETIMEDOUT: int := 110
  const ECONNRESET: int := 104

  /** Lifetime given to a new RPC, in milliseconds (PendingExchange.h:31-33). */
  const DEFAULT_TTL: int := 10000

  /** What an exchange has been told. */
  datatype Outcome = Unset | Reply(value: Bytes) | Error(errno: int)

  /** One RPC. `sequence` is what replies are matched with, `header` what its command frame
      carries, `signals` how many notifications were sent to its waiter; `id` numbers the RPCs
      in the order they were issued. */
  datatype Rpc = Rpc(id: nat, sequence: int, header: int, deadline: int, outcome: Outcome, signals: nat)

  /** Where the two agents stand: no connection, waiting for the banner, both running, or the
      producer stopped and the consumer about to. */
  datatype Phase = Down | Greeting | Up | Draining

  /** The client, with its history: the completed RPCs in order of completion, the ids in the
      order their frames were started, and the frames sent whole on the current connection.
      `tokens` counts the data signals in the agent channel, blocked senders included. */
  datatype Client = Client(waiting: seq<Rpc>, pending: seq<Rpc>, completed: seq<Rpc>, counter: int, tokens: nat,
                           phase: Phase, issued: nat, started: seq<nat>, wire: map<int, nat>)

  const INITIAL := Client([], [], [], 1, 0, Down, 0, [], map[])

  /** What can happen: a caller issues an RPC; the agents connect, see the banner, or end; the
      producer takes a token and the write it may start returns `errno`; a reply comes in; the
      producer checks for stalled RPCs. */
  datatype Event =
    | Issue(now: int)
    | Connect
    | Banner(ack: int, value: Bytes)
    | TakeToken(errno: int)
    | Receive(ack: int, value: Bytes)
    | Sweep(now: int)
    | Disconnect

  function Complete(r: Rpc, outcome: Outcome): Rpc {
    r.(outcome := outcome, signals := r.signals + 1)
  }

  /** Index of the first RPC with the sequence, or the length. */
  function Find(rs: seq<Rpc>, sequence: int): (i: nat)
    ensures i <= |rs|
    ensures i < |rs| ==> rs[i].sequence == sequence
    ensures forall j :: 0 <= j < i ==> rs[j].sequence != sequence
  {
    if rs == [] || rs[0].sequence == sequence then 0 else 1 + Find(rs[1..], sequence)
  }

  function Acknowledge(s: Client, ack: int, value: Bytes): Client {
    var i := Find(s.pending, ack);
    if i == |s.pending| then s
    else s.(pending := s.pending[..i] + s.pending[i + 1..],
            completed := s.completed + [Complete(s.pending[i], Reply(value))])
  }

  /** The RPCs whose deadline has not passed, and those whose has, completed with an error. */
  function Alive(rs: seq<Rpc>, now: int): seq<Rpc> {
    if rs == [] then []
    else Alive(rs[..|rs| - 1], now) + if now > rs[|rs| - 1].deadline then [] else [rs[|rs| - 1]]
  }

  function Expired(rs: seq<Rpc>, now: int): seq<Rpc> {
    if rs == [] then []
    else Expired(rs[..|rs| - 1], now) + if now > rs[|rs| - 1].deadline then [Complete(rs[|rs| - 1], Error(ETIMEDOUT))] else []
  }

  lemma SweepNext(rs: seq<Rpc>, now: int, i: nat)
    requires i < |rs|
    ensures Alive(rs[..i + 1], now) == Alive(rs[..i], now) + if now > rs[i].deadline then [] else [rs[i]]
    ensures Expired(rs[..i + 1], now) ==
            Expired(rs[..i], now) + if now > rs[i].deadline then [Complete(rs[i], Error(ETIMEDOUT))] else []
  {
    assert rs[..i + 1][..i] == rs[..i];
  }

  function CompleteAll(rs: seq<Rpc>, outcome: Outcome): (t: seq<Rpc>)
    ensures |t| == |rs| && forall i :: 0 <= i < |rs| ==> t[i] == Complete(rs[i], outcome)
  {
    seq(|rs|, i requires 0 <= i < |rs| => Complete(rs[i], outcome))
  }

  function Sequenced(r: Rpc, n: int): Rpc { r.(sequence := n, header := n) }

  /** The oldest waiting RPC gets a fresh sequence number and its frame is written; a failed
      write completes it at once and stops the producer. */
  function Start(s: Client, errno: int): Client
    requires s.waiting != []
  {
    var r := Sequenced(s.waiting[0], s.counter);
    var t := s.(waiting := s.waiting[1..], counter := s.counter + 1, started := s.started + [r.id]);
    if errno == 0 then t.(pending := s.pending + [r], wire := s.wire[r.header := r.id])
    else t.(completed := s.completed + [Complete(r, Error(errno))], phase := Draining)
  }

  function Apply(s: Client, e: Event): Client {
    match e
    case Issue(now) =>
      var r := Rpc(s.issued, s.counter, s.counter, now + DEFAULT_TTL, Unset, 0);
      s.(waiting := s.waiting + [r], issued := s.issued + 1, counter := s.counter + 1, tokens := s.tokens + 1)
    case Connect =>
      if s.phase == Down then s.(phase := Greeting, counter := 1, wire := map[]) else s
    case Banner(ack, value) =>
      if s.phase == Greeting then Acknowledge(s, ack, value).(phase := Up) else s
    case TakeToken(errno) =>
      if s.phase != Up || s.tokens == 0 then s
      else
        var t := s.(tokens := s.tokens - 1);
        if s.waiting == [] then t else Start(t, errno)
    case Receive(ack, value) => Acknowledge(s, ack, value)
    case Sweep(now) =>
      s.(pending := Alive(s.pending, now), completed := s.completed + Expired(s.pending, now))
    case Disconnect =>
      if s.phase == Down then s
      else s.(phase := Down, waiting := [], pending := [],
              completed := s.completed + CompleteAll(s.pending + s.waiting, Error(ECONNRESET)))
  }

  lemma IssueApplies(s: Client, now: int, t: Client)
    requires t.waiting == s.waiting + [Rpc(s.issued, s.counter, s.counter, now + DEFAULT_TTL, Unset, 0)]
    requires t == s.(waiting := t.waiting, issued := s.issued + 1, counter := s.counter + 1, tokens := s.tokens + 1)
    ensures t == Apply(s, Issue(now))
  {
  }

  lemma TokenApplies(s: Client, errno: int, t: Client)
    requires s.phase == Up && s.tokens > 0
    requires t == if s.waiting == [] then s.(tokens := s.tokens - 1) else Start(s.(tokens := s.tokens - 1), errno)
    ensures t == Apply(s, TakeToken(errno))
  {
  }

  lemma ReceiveApplies(s: Client, ack: int, value: Bytes, t: Client)
    requires var i := Find(s.pending, ack);
             if i == |s.pending| then t == s
             else && t.pending == s.pending[..i] + s.pending[i + 1..]
                  && t.completed == s.completed + [Complete(s.pending[i], Reply(value))]
                  && t == s.(pending := t.pending, completed := t.completed)
    ensures t == Apply(s, Receive(ack, value))
  {
  }

  lemma SweepApplies(s: Client, now: int, alive: seq<Rpc>, done: seq<Rpc>)
    requires alive == Alive(s.pending, now) && done == s.completed + Expired(s.pending, now)
    ensures Apply(s, Sweep(now)) == s.(pending := alive, completed := done)
  {
  }

  function Run(s: Client, events: seq<Event>): Client {
    if events == [] then s else Apply(Run(s, events[..|events| - 1]), events[|events| - 1])
  }

  lemma RunNext(s: Client, events: seq<Event>, i: nat)
    requires i < |events|
    ensures Run(s, events[..i + 1]) == Apply(Run(s, events[..i]), events[i])
  {
    assert events[..i + 1][..i] == events[..i];
  }

  function Ids(rs: seq<Rpc>): (ids: seq<nat>)
    ensures |ids| == |rs| && forall i :: 0 <= i < |rs| ==> ids[i] == rs[i].id
  {
    seq(|rs|, i requires 0 <= i < |rs| => rs[i].id)
  }

  function Upto(n: nat): (s: seq<nat>)
    ensures |s| == n && forall i :: 0 <= i < n ==> s[i] == i
  {
    seq(n, i => i)
  }

  ghost predicate Increasing(s: seq<nat>) {
    forall i, j :: 0 <= i < j < |s| ==> s[i] < s[j]
  }

  ghost predicate DistinctSequences(rs: seq<Rpc>) {
    forall i, j :: 0 <= i < j < |rs| ==> rs[i].sequence != rs[j].sequence
  }

  /** Every RPC issued is in exactly one of the three places. */
  ghost predicate Conserved(s: Client) {
    multiset(Ids(s.waiting)) + multiset(Ids(s.pending)) + multiset(Ids(s.completed)) == multiset(Upto(s.issued))
  }

  /** Completed RPCs were signalled once, the others never. */
  ghost predicate SignalledOnce(s: Client) {
    && (forall r :: r in s.waiting || r in s.pending ==> r.signals == 0 && r.outcome == Unset)
    && (forall r :: r in s.completed ==> r.signals == 1 && r.outcome != Unset)
  }

  /** Pending sequence numbers are positive, distinct, below the counter, and those of the
      frames on the wire. */
  ghost predicate SequencesSound(s: Client) {
    && s.counter >= 1
    && DistinctSequences(s.pending)
    && (forall r :: r in s.pending ==> 1 <= r.sequence < s.counter && r.header == r.sequence)
    && (forall r :: r in s.pending ==> r.sequence in s.wire && s.wire[r.sequence] == r.id)
    && (forall n :: n in s.wire ==> 1 <= n < s.counter && s.wire[n] in s.started)
    && (forall n, m :: n in s.wire && m in s.wire && s.wire[n] == s.wire[m] ==> n == m)
    && (s.phase == Down || s.phase == Greeting ==> s.pending == [])
  }

  /** RPCs are started in the order they were issued. */
  ghost predicate InIssueOrder(s: Client) {
    && Increasing(s.started + Ids(s.waiting))
    && (forall r :: r in s.waiting ==> r.id < s.issued)
    && (forall i :: i in s.started ==> i < s.issued)
  }

  /** A waiting RPC always has a token of its own to wake the producer up. */
  ghost predicate NoLostWakeUp(s: Client) { |s.waiting| <= s.tokens }

  ghost predicate Invariant(s: Client) {
    Conserved(s) && SignalledOnce(s) && SequencesSound(s) && InIssueOrder(s) && NoLostWakeUp(s)
  }

  lemma IdsConcat(a: seq<Rpc>, b: seq<Rpc>)
    ensures Ids(a + b) == Ids(a) + Ids(b)
  {
  }

  /** Taking one RPC out of a list takes its id out. */
  lemma IdsRemove(rs: seq<Rpc>, i: nat)
    requires i < |rs|
    ensures multiset(Ids(rs)) == multiset(Ids(rs[..i] + rs[i + 1..])) + multiset{rs[i].id}
  {
    var a, b := Ids(rs[..i]), Ids(rs[i + 1..]);
    assert Ids(rs) == a + [rs[i].id] + b;
    assert Ids(rs[..i] + rs[i + 1..]) == a + b;
  }

  lemma {:induction false} SweepIds(rs: seq<Rpc>, now: int)
    ensures multiset(Ids(Alive(rs, now))) + multiset(Ids(Expired(rs, now))) == multiset(Ids(rs))
  {
    if rs != [] {
      var init, last := rs[..|rs| - 1], rs[|rs| - 1];
      SweepIds(init, now);
      assert Ids(rs) == Ids(init) + [last.id];
      assert Ids(Alive(rs, now)) == Ids(Alive(init, now)) + if now > last.deadline then [] else [last.id];
      assert Ids(Expired(rs, now)) == Ids(Expired(init, now)) + if now > last.deadline then [last.id] else [];
    }
  }

  /** A sweep keeps exactly the RPCs whose deadline has not passed, and completes exactly the
      others. */
  lemma {:induction false} SweepExact(rs: seq<Rpc>, now: int)
    ensures forall r :: r in Alive(rs, now) <==> r in rs && now <= r.deadline
    ensures forall r :: r in Expired(rs, now) <==> exists q :: q in rs && now > q.deadline && r == Complete(q, Error(ETIMEDOUT))
    ensures DistinctSequences(rs) ==> DistinctSequences(Alive(rs, now))
  {
    if rs != [] {
      var init, last := rs[..|rs| - 1], rs[|rs| - 1];
      SweepExact(init, now);
      assert rs == init + [last];
    }
  }

  lemma AcknowledgeConserves(s: Client, ack: int, value: Bytes)
    requires Conserved(s)
    ensures Conserved(Acknowledge(s, ack, value))
  {
    var t, i := Acknowledge(s, ack, value), Find(s.pending, ack);
    if i < |s.pending| {
      var id := s.pending[i].id;
      IdsRemove(s.pending, i);
      assert Ids(t.completed) == Ids(s.completed) + [id];
      assert multiset(Ids(t.completed)) == multiset(Ids(s.completed)) + multiset{id};
    }
  }

  lemma AcknowledgeSequences(s: Client, ack: int, value: Bytes)
    requires SequencesSound(s)
    ensures SequencesSound(Acknowledge(s, ack, value))
  {
  }

  lemma AcknowledgeSignals(s: Client, ack: int, value: Bytes)
    requires SignalledOnce(s)
    ensures SignalledOnce(Acknowledge(s, ack, value))
  {
    var i := Find(s.pending, ack);
    assert i < |s.pending| ==> s.pending[i] in s.pending;
  }

  lemma AcknowledgeKeeps(s: Client, ack: int, value: Bytes, t: Client)
    requires Invariant(s) && t == Acknowledge(s, ack, value)
    ensures Invariant(t)
  {
    AcknowledgeConserves(s, ack, value);
    AcknowledgeSequences(s, ack, value);
    AcknowledgeSignals(s, ack, value);
  }

  lemma IssueConserves(s: Client, now: int)
    requires Conserved(s)
    ensures Conserved(Apply(s, Issue(now)))
  {
    assert Ids(Apply(s, Issue(now)).waiting) == Ids(s.waiting) + [s.issued];
    assert Upto(s.issued + 1) == Upto(s.issued) + [s.issued];
  }

  lemma IssueOrders(s: Client, now: int)
    requires InIssueOrder(s)
    ensures InIssueOrder(Apply(s, Issue(now)))
  {
    var t, ids := Apply(s, Issue(now)), Ids(s.waiting);
    assert t.started + Ids(t.waiting) == s.started + ids + [s.issued];
    forall i | 0 <= i < |s.started + ids| ensures (s.started + ids)[i] < s.issued {
      if i < |s.started| {
        assert s.started[i] in s.started;
      } else {
        assert s.waiting[i - |s.started|] in s.waiting;
      }
    }
  }

  lemma IssueKeeps(s: Client, now: int)
    requires Invariant(s)
    ensures Invariant(Apply(s, Issue(now)))
  {
    IssueConserves(s, now);
    IssueOrders(s, now);
  }

  lemma StartConserves(s: Client, errno: int)
    requires Conserved(s) && s.waiting != []
    ensures Conserved(Start(s, errno))
  {
    var t, id := Start(s, errno), s.waiting[0].id;
    assert Ids(s.waiting) == [id] + Ids(t.waiting);
    assert multiset(Ids(s.waiting)) == multiset{id} + multiset(Ids(t.waiting));
    if errno == 0 {
      assert Ids(t.pending) == Ids(s.pending) + [id];
      assert multiset(Ids(t.pending)) == multiset(Ids(s.pending)) + multiset{id};
    } else {
      assert Ids(t.completed) == Ids(s.completed) + [id];
      assert multiset(Ids(t.completed)) == multiset(Ids(s.completed)) + multiset{id};
    }
  }

  lemma HeadMoves(ids: seq<nat>, rs: seq<Rpc>)
    requires rs != []
    ensures (ids + [rs[0].id]) + Ids(rs[1..]) == ids + Ids(rs)
  {
    assert Ids(rs) == [rs[0].id] + Ids(rs[1..]);
  }

  lemma StartOrders(s: Client, errno: int)
    requires InIssueOrder(s) && s.waiting != []
    ensures InIssueOrder(Start(s, errno))
  {
    assert s.waiting[0] in s.waiting;
    HeadMoves(s.started, s.waiting);
  }

  lemma StartSequences(s: Client, errno: int)
    requires SequencesSound(s) && InIssueOrder(s) && s.waiting != [] && s.phase == Up
    ensures SequencesSound(Start(s, errno))
  {
    var order, id := s.started + Ids(s.waiting), s.waiting[0].id;
    assert order[|s.started|] == id;
    assert forall i :: 0 <= i < |s.started| ==> s.started[i] == order[i] < id;
  }

  lemma StartSignals(s: Client, errno: int)
    requires SignalledOnce(s) && s.waiting != []
    ensures SignalledOnce(Start(s, errno))
  {
    assert s.waiting[0] in s.waiting;
  }

  lemma TokenSpent(s: Client)
    requires Invariant(s) && s.waiting != []
    ensures var t := s.(tokens := s.tokens - 1);
            && Conserved(t) && SignalledOnce(t) && SequencesSound(t) && InIssueOrder(t)
            && |t.waiting| <= t.tokens + 1
  {
  }

  lemma StartKeeps(s: Client, t: Client, u: Client, errno: int)
    requires Invariant(s) && s.phase == Up && s.waiting != []
    requires t == s.(tokens := s.tokens - 1) && u == Start(t, errno)
    ensures Invariant(u)
  {
    TokenSpent(s);
    StartConserves(t, errno);
    StartOrders(t, errno);
    StartSequences(t, errno);
    StartSignals(t, errno);
    assert NoLostWakeUp(u);
  }

  lemma SweepKeeps(s: Client, now: int)
    requires Invariant(s)
    ensures Invariant(Apply(s, Sweep(now)))
  {
    SweepIds(s.pending, now);
    SweepExact(s.pending, now);
    IdsConcat(s.completed, Expired(s.pending, now));
  }

  lemma DisconnectConserves(s: Client)
    requires Conserved(s)
    ensures Conserved(Apply(s, Disconnect))
  {
    var all := CompleteAll(s.pending + s.waiting, Error(ECONNRESET));
    assert Ids(all) == Ids(s.pending) + Ids(s.waiting);
    assert Ids(s.completed + all) == Ids(s.completed) + Ids(all);
    assert Ids([]) == [];
  }

  lemma DisconnectKeeps(s: Client)
    requires Invariant(s)
    ensures Invariant(Apply(s, Disconnect))
  {
    DisconnectConserves(s);
    assert s.started + Ids([]) == s.started;
    assert s.started <= s.started + Ids(s.waiting);
    assert forall i :: 0 <= i < |s.started| ==> (s.started + Ids(s.waiting))[i] == s.started[i];
  }

  lemma BannerKeeps(s: Client, ack: int, value: Bytes, t: Client)
    requires Invariant(s) && t == Apply(s, Banner(ack, value))
    ensures Invariant(t)
  {
    AcknowledgeKeeps(s, ack, value, Acknowledge(s, ack, value));
  }

  lemma IdleTokenKeeps(s: Client, t: Client)
    requires Invariant(s) && s.waiting == [] && s.tokens > 0
    requires t == s.(tokens := s.tokens - 1)
    ensures Invariant(t)
  {
  }

  lemma TokenKeeps(s: Client, errno: int, t: Client)
    requires Invariant(s) && t == Apply(s, TakeToken(errno))
    ensures Invariant(t)
  {
    if s.phase != Up || s.tokens == 0 {
      assert t == s;
    } else if s.waiting == [] {
      IdleTokenKeeps(s, t);
    } else {
      StartKeeps(s, s.(tokens := s.tokens - 1), t, errno);
    }
  }

  lemma StepKeeps(s: Client, e: Event, t: Client)
    requires Invariant(s) && t == Apply(s, e)
    ensures Invariant(t)
  {
    match e {
      case Issue(now) => IssueKeeps(s, now);
      case Connect =>
      case Banner(ack, value) => BannerKeeps(s, ack, value, t);
      case TakeToken(errno) => TokenKeeps(s, errno, t);
      case Receive(ack, value) => AcknowledgeKeeps(s, ack, value, t);
      case Sweep(now) => SweepKeeps(s, now);
      case Disconnect => DisconnectKeeps(s);
    }
  }

  /** Main result: the invariant holds after every run. */
  lemma {:induction false} RunKeeps(events: seq<Event>)
    ensures Invariant(Run(INITIAL, events))
  {
    if events == [] {
      assert Ids([]) == [] == Upto(0);
    } else {
      var s := Run(INITIAL, events[..|events| - 1]);
      RunKeeps(events[..|events| - 1]);
      StepKeeps(s, events[|events| - 1], Run(INITIAL, events));
    }
  }

  /** Conservation read for one RPC: it occurs exactly once over the three places. */
  lemma ExactlyOnePlace(s: Client, id: nat)
    requires Conserved(s)
    ensures multiset(Ids(s.waiting))[id] + multiset(Ids(s.pending))[id] + multiset(Ids(s.completed))[id] ==
            if id < s.issued then 1 else 0
  {
    CountOne(Upto(s.issued), id);
    assert id < s.issued ==> Upto(s.issued)[id] == id;
    assert (multiset(Ids(s.waiting)) + multiset(Ids(s.pending)) + multiset(Ids(s.completed)))[id] == multiset(Upto(s.issued))[id];
  }

  /** A reply completes exactly the RPC whose frame carried the acknowledged number on this
      connection, if it is still pending, and nothing otherwise. */
  lemma AckExact(s: Client, ack: int, value: Bytes)
    requires Invariant(s)
    ensures var t := Apply(s, Receive(ack, value));
            if exists r :: r in s.pending && ack in s.wire && s.wire[ack] == r.id then
              exists r :: && r in s.pending && s.wire[ack] == r.id
                          && t.completed == s.completed + [Complete(r, Reply(value))]
                          && (forall p :: p in t.pending <==> p in s.pending && p.id != r.id)
            else t == s
  {
    var t, i := Apply(s, Receive(ack, value)), Find(s.pending, ack);
    assert forall r :: r in s.pending && ack in s.wire && s.wire[ack] == r.id ==> r.sequence == ack;
    if i < |s.pending| {
      var r := s.pending[i];
      assert r in s.pending && s.wire[ack] == r.id;
      forall p | p in s.pending && p.id == r.id ensures p == r {
        assert p.sequence == r.sequence;
      }
      assert forall j :: 0 <= j < |s.pending| && j != i ==> s.pending[j].sequence != ack;
    }
  }

  /** A completed RPC is final: no later event signals it again or changes its outcome. */
  lemma {:induction false} CompletedIsFinal(s: Client, events: seq<Event>)
    ensures s.completed <= Run(s, events).completed
  {
    if events != [] {
      CompletedIsFinal(s, events[..|events| - 1]);
      StepExtends(Run(s, events[..|events| - 1]), events[|events| - 1]);
    }
  }

  lemma StepExtends(s: Client, e: Event)
    ensures s.completed <= Apply(s, e).completed
  {
  }

  /** Once the agents have ended, no caller is left waiting: every RPC issued so far has been
      completed. */
  lemma DisconnectCompletesAll(s: Client, id: nat)
    requires Invariant(s) && s.phase != Down && id < s.issued
    ensures var t := Apply(s, Disconnect);
            && t.waiting == [] && t.pending == []
            && exists r :: r in t.completed && r.id == id && r.signals == 1
  {
    var t := Apply(s, Disconnect);
    DisconnectKeeps(s);
    ExactlyOnePlace(t, id);
    assert Ids([]) == [];
    assert id in Ids(t.completed);
    var k :| 0 <= k < |t.completed| && Ids(t.completed)[k] == id;
    assert t.completed[k] in t.completed;
  }

  function Tokens(n: nat): (es: seq<Event>)
    ensures |es| == n && forall i :: 0 <= i < n ==> es[i] == TakeToken(0)
  {
    seq(n, _ => TakeToken(0))
  }

  /** What n tokens have done since s: started the first n waiting RPCs, in order. */
  ghost predicate Drained(s: Client, t: Client, n: nat) {
    && t.phase == Up && t.tokens == s.tokens - n && t.completed == s.completed
    && t.waiting == (if n < |s.waiting| then s.waiting[n..] else [])
    && Ids(t.pending) + Ids(t.waiting) == Ids(s.pending) + Ids(s.waiting)
    && t.started + Ids(t.waiting) == s.started + Ids(s.waiting)
  }

  lemma MoveHead(front: seq<nat>, id: nat, back: seq<nat>)
    ensures (front + [id]) + back == front + ([id] + back)
  {
  }

  lemma TokenMoves(t: Client, u: Client)
    requires t.phase == Up && t.tokens > 0 && t.waiting != [] && u == Start(t.(tokens := t.tokens - 1), 0)
    ensures u.waiting == t.waiting[1..]
    ensures Ids(u.pending) + Ids(u.waiting) == Ids(t.pending) + Ids(t.waiting)
    ensures u.started + Ids(u.waiting) == t.started + Ids(t.waiting)
  {
    var id := t.waiting[0].id;
    assert Ids(t.waiting) == [id] + Ids(u.waiting);
    assert Ids(u.pending) == Ids(t.pending) + [id];
    MoveHead(Ids(t.pending), id, Ids(u.waiting));
    MoveHead(t.started, id, Ids(u.waiting));
  }

  lemma DrainOne(s: Client, t: Client, u: Client, n: nat)
    requires Drained(s, t, n) && n < s.tokens && u == Apply(t, TakeToken(0))
    ensures Drained(s, u, n + 1)
  {
    if t.waiting != [] {
      TokenMoves(t, u);
    }
  }

  /** While the producer runs, taking the tokens already sent starts every waiting RPC, in
      order: none is left behind asleep. */
  lemma {:induction false} DrainStartsAll(s: Client, n: nat)
    requires s.phase == Up && n <= s.tokens
    ensures Drained(s, Run(s, Tokens(n)), n)
    ensures NoLostWakeUp(s) && n == s.tokens ==>
              && Run(s, Tokens(n)).waiting == []
              && Run(s, Tokens(n)).started == s.started + Ids(s.waiting)
              && Ids(Run(s, Tokens(n)).pending) == Ids(s.pending) + Ids(s.waiting)
  {
    if n > 0 {
      assert Tokens(n)[..n - 1] == Tokens(n - 1);
      DrainStartsAll(s, n - 1);
      DrainOne(s, Run(s, Tokens(n - 1)), Run(s, Tokens(n)), n - 1);
    } else {
      assert Tokens(0) == [];
    }
  }
}
