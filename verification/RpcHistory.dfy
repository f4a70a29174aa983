/** What the runs of the RPC multiplexer mean to its callers, read off the events: when an RPC times
    out, which number its frame carries, how it ends, and that a producer whose write failed starts
    nothing more (src/oio/blob/kinetic/coro/CoroutineClient.cpp:68-300). */
module RpcHistory {
  import opened Basics
  import opened RpcProtocol

  /** The times at which the RPCs were issued, in order. */
  function IssueTimes(events: seq<Event>): (times: seq<int>) {
    if events == [] then []
    else
      var e := events[|events| - 1];
      IssueTimes(events[..|events| - 1]) + if e.Issue? then [e.now] else []
  }

  ghost predicate DueTenSecondsLater(r: Rpc, times: seq<int>) {
    r.id < |times| && r.deadline == times[r.id] + 10000
  }

  ghost predicate AllDue(s: Client, times: seq<int>) {
    && s.issued == |times|
    && (forall r :: r in s.waiting || r in s.pending || r in s.completed ==> DueTenSecondsLater(r, times))
  }

  lemma {:induction false} SweptFrom(rs: seq<Rpc>, now: int)
    ensures forall r :: r in Alive(rs, now) ==> r in rs
    ensures forall r :: r in Expired(rs, now) ==> exists q :: q in rs && r.id == q.id && r.deadline == q.deadline
  {
    if rs != [] {
      SweptFrom(rs[..|rs| - 1], now);
    }
  }

  lemma DueStep(s: Client, e: Event, t: Client, times: seq<int>)
    requires AllDue(s, times) && t == Apply(s, e)
    ensures AllDue(t, times + if e.Issue? then [e.now] else [])
  {
    match e {
      case Issue(now) =>
        forall r | r in t.waiting ensures DueTenSecondsLater(r, times + [now]) {
          assert r in s.waiting || r.id == |times|;
        }
      case Banner(ack, value) => DueAcknowledged(s, ack, value, times);
      case Receive(ack, value) => DueAcknowledged(s, ack, value, times);
      case TakeToken(errno) => DueStarted(s, errno, t, times);
      case Sweep(now) =>
        SweptFrom(s.pending, now);
        forall r | r in Expired(s.pending, now) ensures DueTenSecondsLater(r, times) {
          var q :| q in s.pending && r.id == q.id && r.deadline == q.deadline;
          assert DueTenSecondsLater(q, times);
        }
      case Connect =>
      case Disconnect => DueEnded(s, t, times);
    }
    assert times + [] == times;
  }

  lemma DueAcknowledged(s: Client, ack: int, value: Bytes, times: seq<int>)
    requires AllDue(s, times)
    ensures AllDue(Acknowledge(s, ack, value), times)
  {
    var i := Find(s.pending, ack);
    assert i < |s.pending| ==> s.pending[i] in s.pending;
  }

  lemma DueStarted(s: Client, errno: int, t: Client, times: seq<int>)
    requires AllDue(s, times) && t == Apply(s, TakeToken(errno))
    ensures AllDue(t, times)
  {
    assert s.waiting != [] ==> s.waiting[0] in s.waiting;
  }

  lemma DueEnded(s: Client, t: Client, times: seq<int>)
    requires AllDue(s, times) && t == Apply(s, Disconnect)
    ensures AllDue(t, times)
  {
    forall r | r in CompleteAll(s.pending + s.waiting, Error(ECONNRESET)) ensures DueTenSecondsLater(r, times) {
      var i :| 0 <= i < |s.pending + s.waiting| && r == CompleteAll(s.pending + s.waiting, Error(ECONNRESET))[i];
      assert (s.pending + s.waiting)[i] in s.pending + s.waiting;
    }
  }

  /** In every run each RPC is due ten seconds after it was issued. */
  lemma {:induction false} Deadlines(events: seq<Event>)
    ensures AllDue(Run(INITIAL, events), IssueTimes(events))
  {
    if events != [] {
      var init, e := events[..|events| - 1], events[|events| - 1];
      Deadlines(init);
      DueStep(Run(INITIAL, init), e, Run(INITIAL, events), IssueTimes(init));
    }
  }

  /** So a sweep leaves pending exactly the pending RPCs issued less than ten seconds ago, or ten
      seconds ago, and ends the others with ETIMEDOUT. */
  lemma TimesOut(events: seq<Event>, now: int, r: Rpc)
    requires r in Run(INITIAL, events).pending
    ensures r.id < |IssueTimes(events)|
    ensures var t := Apply(Run(INITIAL, events), Sweep(now));
            && (r in t.pending <==> now <= IssueTimes(events)[r.id] + 10000)
            && (now > IssueTimes(events)[r.id] + 10000 ==>
                  exists c :: c in t.completed && c.id == r.id && c.outcome == Error(110) && c.signals == 1)
  {
    var s := Run(INITIAL, events);
    Deadlines(events);
    RunKeeps(events);
    SweepExact(s.pending, now);
    if now > r.deadline {
      assert Complete(r, Error(ETIMEDOUT)) in Expired(s.pending, now);
    }
  }

  /** The way an RPC ends is told by the event that ends it: the reply that came, the error of its
      write, a timeout past its deadline, or the loss of the connection. */
  lemma NewOutcomes(s: Client, e: Event, c: Rpc)
    requires SignalledOnce(s) && c in Apply(s, e).completed[|s.completed|..]
    ensures c.signals == 1
    ensures match e
            case Receive(ack, value) => c.outcome == Reply(value) && c.sequence == ack
            case Banner(ack, value) => c.outcome == Reply(value) && c.sequence == ack
            case TakeToken(errno) => errno != 0 && c.outcome == Error(errno) && c.id == s.waiting[0].id
            case Sweep(now) => c.outcome == Error(110) && now > c.deadline
            case Disconnect => c.outcome == Error(104)
            case Issue(_) => false
            case Connect => false
  {
    var t := Apply(s, e);
    match e {
      case Receive(ack, _) => assert Find(s.pending, ack) < |s.pending| ==> s.pending[Find(s.pending, ack)] in s.pending;
      case Banner(ack, _) => assert Find(s.pending, ack) < |s.pending| ==> s.pending[Find(s.pending, ack)] in s.pending;
      case TakeToken(_) => assert s.waiting != [] ==> s.waiting[0] in s.waiting;
      case Sweep(now) =>
        assert t.completed[|s.completed|..] == Expired(s.pending, now);
        SweepExact(s.pending, now);
      case Disconnect => LostOutcomes(s, t, c);
      case Issue(_) =>
      case Connect =>
    }
  }

  lemma LostOutcomes(s: Client, t: Client, c: Rpc)
    requires SignalledOnce(s) && t == Apply(s, Disconnect) && c in t.completed[|s.completed|..]
    ensures c.signals == 1 && c.outcome == Error(104)
  {
    var all := s.pending + s.waiting;
    assert s.phase != Down;
    assert t.completed[|s.completed|..] == CompleteAll(all, Error(ECONNRESET));
    var i :| 0 <= i < |all| && c == CompleteAll(all, Error(ECONNRESET))[i];
    assert all[i] in s.pending || all[i] in s.waiting;
  }

  /** The end of a connection tells the pending RPCs first, then the waiting ones, each in order. */
  lemma DisconnectOrder(s: Client)
    requires s.phase != Down
    ensures Ids(Apply(s, Disconnect).completed) == Ids(s.completed) + Ids(s.pending) + Ids(s.waiting)
  {
    assert Ids(CompleteAll(s.pending + s.waiting, Error(ECONNRESET))) == Ids(s.pending) + Ids(s.waiting);
    IdsConcat(s.completed, CompleteAll(s.pending + s.waiting, Error(ECONNRESET)));
  }

  /** A write that fails ends its RPC and stops the producer: until the connection ends, and
      whatever else happens, no other RPC is started. */
  lemma {:induction false} ProducerStops(s: Client, errno: int, events: seq<Event>)
    requires s.phase == Up && s.tokens > 0 && s.waiting != [] && errno != 0
    requires forall e :: e in events ==> !e.Disconnect?
    ensures var t := Run(Apply(s, TakeToken(errno)), events);
            && t.started == s.started + [s.waiting[0].id]
            && t.wire == s.wire
            && s.waiting[1..] <= t.waiting
    ensures Run(Apply(s, TakeToken(errno)), events).phase == Draining
  {
    if events != [] {
      var init, e := events[..|events| - 1], events[|events| - 1];
      assert events == init + [e];
      ProducerStops(s, errno, init);
      StoppedStays(Run(Apply(s, TakeToken(errno)), init), e);
    }
  }

  lemma StoppedStays(s: Client, e: Event)
    requires s.phase == Draining && !e.Disconnect?
    ensures var t := Apply(s, e);
            t.phase == Draining && t.started == s.started && t.wire == s.wire && s.waiting <= t.waiting
  {
  }

  /** Only the producer of an open connection starts anything, and it takes a token for it. */
  lemma StartsOnlyWhenUp(s: Client, e: Event)
    requires Apply(s, e).started != s.started
    ensures e.TakeToken? && s.phase == Up && s.waiting != []
    ensures Apply(s, e).started == s.started + [s.waiting[0].id] && Apply(s, e).tokens == s.tokens - 1
  {
  }

  /** Numbers are given one by one, to each RPC when it is issued and again when its frame is
      written, starting at one with each connection: the next number counts both since. */
  lemma {:induction false} NumbersCount(s: Client, events: seq<Event>)
    requires s.phase == Down
    requires forall e :: e in events ==> !e.Disconnect?
    ensures var t := Run(Apply(s, Connect), events);
            && t.phase != Down
            && t.counter == 1 + (t.issued - s.issued) + (|t.started| - |s.started|)
  {
    if events != [] {
      var init, e := events[..|events| - 1], events[|events| - 1];
      assert events == init + [e];
      NumbersCount(s, init);
      NumberStep(Run(Apply(s, Connect), init), e);
    }
  }

  lemma NumberStep(s: Client, e: Event)
    requires s.phase != Down && !e.Disconnect?
    ensures var t := Apply(s, e);
            t.phase != Down && t.counter == s.counter + (t.issued - s.issued) + (|t.started| - |s.started|)
  {
  }

  /** The frame of an RPC carries the next number, and the reply is matched with it. */
  lemma FrameCarries(s: Client)
    requires s.phase == Up && s.tokens > 0 && s.waiting != []
    ensures var t := Apply(s, TakeToken(0));
            && t.pending != []
            && var r := t.pending[|t.pending| - 1];
            && r.id == s.waiting[0].id && r.sequence == r.header == s.counter
            && s.counter in t.wire && t.wire[s.counter] == r.id
  {
  }

  /** The first frame of a new connection carries number one. */
  lemma FirstFrame(s: Client, ack: int, value: Bytes, s1: Client, s2: Client, t: Client)
    requires Invariant(s) && s.phase == Down && s.waiting != []
    requires s1 == Apply(s, Connect) && s2 == Apply(s1, Banner(ack, value)) && t == Apply(s2, TakeToken(0))
    ensures t.wire == map[1 := s.waiting[0].id]
    ensures |t.pending| == 1 && t.pending[0].id == s.waiting[0].id && t.pending[0].sequence == t.pending[0].header == 1
  {
    assert s1.pending == [] && s1.wire == map[];
    assert s2 == s1.(phase := Up);
  }
}
