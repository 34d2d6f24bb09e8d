/**
  When a stream of aan.c ends and that everything arrives: while a connection holds, the
  loops cannot get stuck, and when nothing more is to be moved the client on the other side
  has all of the input.
 */
module AanArrival {
  import opened AanModel
  import opened AanProof
  import AanTheorems

  // ----- one end of input

  /** Only the last chunk read can be the end of input, and the main loop stops when it has sent it. */
  ghost predicate OneEnd(e: Endpoint) {
    && (forall k :: 0 <= k < |e.input| - 1 ==> e.input[k] != [])
    && (e.client.ClientIdle? || e.client.ClientHold? ==> forall k :: 0 <= k < |e.input| ==> e.input[k] != [])
    && (e.main.MainDone? ==> |e.ackOf| == |e.input| && e.input != [] && e.input[|e.input| - 1] == [])
  }

  ghost predicate GoesOn(e: Endpoint) {
    !e.main.MainDone? ==> forall k :: 0 <= k < |e.ackOf| && k < |e.input| ==> e.input[k] != []
  }

  lemma OneEndStep(s: Side, st: Step)
    requires Local(s.e) && OneEnd(s.e) && Enabled(s, st)
    ensures OneEnd(Do(s, st).e)
  {
    var e := s.e;
    match st {
      case ClientPut => LastRead(e);
      case MainSend(_) => EndIsLast(e);
      case _ =>
    }
  }

  /** What fromclient is about to queue is the last that it has read. */
  lemma LastRead(e: Endpoint)
    requires Local(e) && e.client.ClientSend?
    ensures e.input != [] && e.client.b.data == e.input[|e.input| - 1]
  {
    assert Queue(e)[|Queue(e)| - 1] == e.client.b;
  }

  /** If the main loop is about to send the end, everything else has been sent. */
  lemma EndIsLast(e: Endpoint)
    requires Local(e) && OneEnd(e) && e.main.MainWrite?
    ensures |e.ackOf| < |e.input| && e.unacked != []
    ensures e.unacked[|e.unacked| - 1].data == [] ==>
              |e.ackOf| + 1 == |e.input| && e.input[|e.input| - 1] == []
  {
    SentIs(e);
  }

  lemma GoesOnStep(s: Side, st: Step)
    requires Local(s.e) && GoesOn(s.e) && Enabled(s, st)
    ensures GoesOn(Do(s, st).e)
  {
    if st.MainSend? {
      SentIs(s.e);
    }
  }

  /** The message that the main loop sends is the next in the input. */
  lemma SentIs(e: Endpoint)
    requires Local(e) && e.main.MainWrite?
    ensures |e.ackOf| < |e.input| && e.unacked[|e.unacked| - 1].data == e.input[|e.ackOf|]
  {
    assert Queue(e)[|e.unacked| - 1] == e.unacked[|e.unacked| - 1];
  }

  lemma BothStep(s: Side, st: Step)
    requires Local(s.e) && OneEnd(s.e) && GoesOn(s.e) && Enabled(s, st)
    ensures OneEnd(Do(s, st).e) && GoesOn(Do(s, st).e)
  {
    OneEndStep(s, st);
    GoesOnStep(s, st);
  }

  lemma {:induction false} RunOneEnd(run: seq<Event>)
    requires Possible(run)
    ensures OneEnd(After(run).a) && OneEnd(After(run).b) && GoesOn(After(run).a) && GoesOn(After(run).b)
    decreases |run|
  {
    if run != [] {
      var p, ev := After(run[..|run| - 1]), run[|run| - 1];
      RunOneEnd(run[..|run| - 1]);
      RunInv(run[..|run| - 1]);
      match ev {
        case AtA(st) => BothStep(Side(p.a, p.ba, p.ab), st);
        case AtB(st) => BothStep(Side(p.b, p.ab, p.ba), st);
        case LoseAB(_, _) =>
        case LoseBA(_, _) =>
      }
    }
  }

  /**
    y stops reading only at x's end of input, when it has accepted and delivered all that
    came before; x's main loop stops exactly when it has sent that end.
   */
  predicate Ends(x: Endpoint, y: Endpoint) {
    && (y.net.NetDone? ==> y.inmsg == |x.input| - 1 && x.input[y.inmsg] == [] && y.delivered + [[]] == x.input)
    && |x.ackOf| <= |x.input| && (x.main.MainDone? <==> x.ackOf != [] && x.input[|x.ackOf| - 1] == [])
  }

  /** In every run; a keep-alive or an old message never ends an endpoint. */
  lemma EndsAtEnd(run: seq<Event>)
    requires Possible(run)
    ensures Ends(After(run).a, After(run).b) && Ends(After(run).b, After(run).a)
  {
    EndsForB(run);
    EndsForA(run);
  }

  lemma EndsForB(run: seq<Event>)
    requires Possible(run)
    ensures Ends(After(run).a, After(run).b)
  {
    RunInv(run);
    RunOneEnd(run);
    EndsOne(After(run).a, After(run).b);
  }

  lemma EndsForA(run: seq<Event>)
    requires Possible(run)
    ensures Ends(After(run).b, After(run).a)
  {
    RunInv(run);
    RunOneEnd(run);
    EndsOne(After(run).b, After(run).a);
  }

  lemma EndsOne(x: Endpoint, y: Endpoint)
    requires Local(x) && Received(x, y) && OneEnd(x) && GoesOn(x)
    ensures Ends(x, y)
  {
    if y.net.NetDone? {
      assert x.input == x.input[..y.inmsg] + [x.input[y.inmsg]];
    }
  }

  // ----- arrival

  /** Everything a's client wrote is with b's, but for the end of input, which is not written out. */
  predicate Arrived(s: State) {
    if s.b.net.NetDone? then s.b.delivered + [[]] == s.a.input else s.b.delivered == s.a.input
  }

  /**
    With a connected to a connection that still carries everything, nothing left in that
    connection and no buffer waiting to be sent, a reader at rest has delivered all of the
    input.
   */
  lemma NothingLeft(run: seq<Event>)
    requires Possible(run)
    requires var s := After(run);
             && s.a.connected && s.ab != [] && s.ab[|s.ab| - 1].open
             && !s.a.client.ClientSend? && s.a.unsent == [] && !s.a.main.MainHold? && !s.a.main.MainWrite?
             && (s.b.net.NetDone? || (s.b.net.NetIdle? && s.ab[|s.ab| - 1].msgs == []))
    ensures Arrived(After(run))
  {
    RunInv(run);
    RunOneEnd(run);
    StateArrived(After(run));
  }

  lemma StateArrived(s: State)
    requires Half(s.a, s.b, s.ab) && OneEnd(s.a) && GoesOn(s.a)
    requires s.a.connected && s.ab != [] && s.ab[|s.ab| - 1].open
    requires !s.a.client.ClientSend? && s.a.unsent == [] && !s.a.main.MainHold? && !s.a.main.MainWrite?
    requires s.b.net.NetDone? || (s.b.net.NetIdle? && s.ab[|s.ab| - 1].msgs == [])
    ensures Arrived(s)
  {
    if s.b.net.NetDone? {
      EndsOne(s.a, s.b);
    } else {
      AllTaken(s.a, s.b, s.ab);
    }
  }

  lemma AllTaken(x: Endpoint, y: Endpoint, w: seq<Conn>)
    requires Local(x) && WireOk(x, w, Taken(y)) && Received(x, y) && y.net.NetIdle?
    requires x.connected && w != [] && w[|w| - 1].open && w[|w| - 1].msgs == []
    requires !x.client.ClientSend? && x.unsent == [] && !x.main.MainHold? && !x.main.MainWrite?
    ensures y.delivered == x.input
  {
    assert |x.input| == |x.ackOf|;
    assert x.input[..|x.input|] == x.input;
  }

  /** Both sides are on the same connection, which has not broken, and a's main loop knows of no failure. */
  predicate Linked(s: State) {
    && s.a.connected && s.b.connected && !s.a.main.MainFailed?
    && |s.ab| == 1 && s.ab[0].open
  }

  /** A step that brings what a has read nearer to b's client. */
  predicate Forward(ev: Event) {
    match ev
    case AtA(st) => st.ClientPut? || st.MainTake? || st.MainQueue? || st == MainSend(false)
    case AtB(st) =>
      st.NetReceive? || st.NetAckPop? || st.NetAckPut? || st.NetAccept? || st.NetDeliver?
    case _ => false
  }

  /** How many such steps are left at most. */
  function Rest(s: State): nat
    requires |s.ab| == 1
  {
    (if s.a.client.ClientSend? then 10 else 0) + 9 * |s.a.unsent|
    + (if s.a.main.MainHold? then 8 else if s.a.main.MainWrite? then 7 else 0)
    + 6 * |s.ab[0].msgs| + 2 * |s.b.unacked|
    + (match s.b.net case NetHand(_, _, _) => 3 case NetAck(_, _) => 2 case NetWrite(_) => 1 case _ => 0)
  }

  lemma ForwardStep(s: State, ev: Event)
    requires Linked(s) && Forward(ev) && Can(s, ev)
    ensures Linked(Next(s, ev)) && Rest(Next(s, ev)) < Rest(s) && Next(s, ev).a.input == s.a.input
  {
  }

  /** As long as something of the input is missing, some such step is possible. */
  lemma NeverStuck(run: seq<Event>)
    requires Possible(run) && Linked(After(run))
    ensures Arrived(After(run)) || exists ev :: Forward(ev) && Can(After(run), ev)
  {
    if !exists ev :: Forward(ev) && Can(After(run), ev) {
      RunInv(run);
      RunOneEnd(run);
      AanTheorems.AcksNeverWait(run);
      StuckArrived(After(run));
    }
  }

  lemma StuckArrived(s: State)
    requires Linked(s) && Half(s.a, s.b, s.ab) && OneEnd(s.a) && GoesOn(s.a) && AanTheorems.AckLoopSafe(s.b)
    requires forall ev :: Forward(ev) ==> !Can(s, ev)
    ensures Arrived(s)
  {
    SenderAtRest(s);
    ReceiverAtRest(s);
    StateArrived(s);
  }

  lemma SenderAtRest(s: State)
    requires Linked(s) && Local(s.a) && OneEnd(s.a) && forall ev :: Forward(ev) ==> !Can(s, ev)
    ensures !s.a.client.ClientSend? && s.a.unsent == [] && !s.a.main.MainHold? && !s.a.main.MainWrite?
  {
    assert !Can(s, AtA(ClientPut)) && !Can(s, AtA(MainTake));
    assert !Can(s, AtA(MainQueue)) && !Can(s, AtA(MainSend(false)));
  }

  lemma ReceiverAtRest(s: State)
    requires Linked(s) && Half(s.a, s.b, s.ab) && AanTheorems.AckLoopSafe(s.b) && OneEnd(s.a)
    requires forall ev :: Forward(ev) ==> !Can(s, ev)
    ensures s.b.net.NetDone? || (s.b.net.NetIdle? && s.ab[0].msgs == [])
  {
    assert !Can(s, AtB(NetReceive)) && !Can(s, AtB(NetAckPop)) && !Can(s, AtB(NetAckPut)) && !Can(s, AtB(NetAccept))
           && !Can(s, AtB(NetDeliver));
  }

  /**
    In whatever order the loops go on while the connection holds, they make at most
    Rest steps, and when no more is possible all of the input has arrived.
   */
  lemma {:induction false} AllArrives(run: seq<Event>, more: seq<Event>)
    requires Possible(run + more) && Possible(run) && Linked(After(run))
    requires forall i :: 0 <= i < |more| ==> Forward(more[i])
    ensures var s, t := After(run), After(run + more);
            && Linked(t) && |more| + Rest(t) <= Rest(s) && t.a.input == s.a.input
            && (Arrived(t) || exists ev :: Forward(ev) && Can(t, ev))
    decreases |more|
  {
    if more == [] {
      assert run + more == run;
      NeverStuck(run);
    } else {
      var n := |more| - 1;
      LastOf(run, more);
      AllArrives(run, more[..n]);
      ForwardStep(After(run + more[..n]), more[n]);
      NeverStuck(run + more);
    }
  }

  lemma LastOf(run: seq<Event>, more: seq<Event>)
    requires Possible(run + more) && more != []
    ensures var p, ev := run + more[..|more| - 1], more[|more| - 1];
            Possible(p) && Can(After(p), ev) && After(run + more) == Next(After(p), ev)
  {
    var all := run + more;
    assert all[..|all| - 1] == run + more[..|more| - 1] && all[|all| - 1] == more[|more| - 1];
    Unroll(all);
  }

  lemma Unroll(run: seq<Event>)
    requires Possible(run) && run != []
    ensures var p, ev := run[..|run| - 1], run[|run| - 1];
            Possible(p) && Can(After(p), ev) && After(run) == Next(After(p), ev)
  {
  }
}
