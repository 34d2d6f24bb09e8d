/**
  Nothing is lost for good in aan.c: from every state that two endpoints can get into, with
  connections broken and messages lost at will, they can connect again and deliver all.
 */
module AanRecovery {
  import opened AanModel
  import opened AanProof
  import opened AanArrival
  import AanTheorems

  function At(onA: bool, st: Step): Event { if onA then AtA(st) else AtB(st) }

  function Me(s: State, onA: bool): Endpoint { if onA then s.a else s.b }

  /** s' comes after s by steps of one endpoint, which has read nothing more and taken on no connection. */
  predicate Onward(s: State, s': State, onA: bool) {
    Me(s', !onA) == Me(s, !onA) && Me(s', onA).input == Me(s, onA).input
  }

  /** What the reader has in hand. */
  function InHand(e: Endpoint): nat {
    2 * |e.unacked|
    + match e.net case NetHand(_, _, _) => 3 case NetAck(_, _) => 2 case NetWrite(_) => 1 case _ => 0
  }

  /** The step of a reader that is not at rest. */
  function ReaderStep(e: Endpoint): Step {
    match e.net
    case NetAck(m, i) => if i == m.acked - e.lastacked then NetAccept else NetAckPop
    case NetHand(_, _, _) => NetAckPut
    case _ => NetDeliver
  }

  /** The reader comes to rest. */
  lemma {:induction false} Finish(run: seq<Event>, onA: bool) returns (run': seq<Event>)
    requires Possible(run)
    ensures run <= run' && Possible(run') && Onward(After(run), After(run'), onA)
    ensures var e, e' := Me(After(run), onA), Me(After(run'), onA);
            && (e'.net.NetIdle? || e'.net.NetDone?) && e'.main == e.main && e'.connected == e.connected
    decreases InHand(Me(After(run), onA))
  {
    run' := run;
    var s := After(run);
    var e := Me(s, onA);
    if !e.net.NetIdle? && !e.net.NetDone? {
      AanTheorems.AcksNeverWait(run);
      var s1;
      run', s1 := Go(run, s, At(onA, ReaderStep(e)));
      run' := Finish(run', onA);
    }
  }

  /** With no end in its input an endpoint's loops have not ended. */
  lemma StillOn(run: seq<Event>)
    requires Possible(run) && [] !in After(run).a.input && [] !in After(run).b.input
    ensures var s := After(run);
            !s.a.main.MainDone? && !s.b.main.MainDone? && !s.a.net.NetDone? && !s.b.net.NetDone?
  {
    EndsAtEnd(run);
  }

  /** The reader notices that the connection is gone. */
  lemma Hangup(run: seq<Event>, onA: bool) returns (run': seq<Event>)
    requires Possible(run) && Me(After(run), onA).net.NetIdle?
    ensures run <= run' && Possible(run') && Onward(After(run), After(run'), onA)
    ensures var e, e' := Me(After(run), onA), Me(After(run'), onA);
            e'.net.NetIdle? && !e'.connected && e'.main == e.main
  {
    run' := run;
    if Me(After(run), onA).connected {
      var s1;
      run', s1 := Go(run, After(run), At(onA, NetBreak));
    }
  }

  /** What the main loop is about to send is not the end. */
  lemma DataNext(run: seq<Event>, onA: bool)
    requires Possible(run) && [] !in After(run).a.input && [] !in After(run).b.input
    requires Me(After(run), onA).main.MainWrite?
    ensures var e := Me(After(run), onA); e.unacked != [] && e.unacked[|e.unacked| - 1].data != []
  {
    RunInv(run);
    NextIsData(Me(After(run), onA));
  }

  lemma NextIsData(e: Endpoint)
    requires Local(e) && e.main.MainWrite? && [] !in e.input
    ensures e.unacked != [] && e.unacked[|e.unacked| - 1].data != []
  {
    SentIs(e);
    assert e.input[|e.ackOf|] in e.input;
  }

  /** The main loop notices, with a buffer in hand or a keep-alive. */
  lemma MainNotices(run: seq<Event>, onA: bool) returns (run': seq<Event>)
    requires Possible(run) && [] !in After(run).a.input && [] !in After(run).b.input
    requires var e := Me(After(run), onA); e.net.NetIdle? && !e.connected && !e.main.MainHold? && !e.main.MainDone?
    ensures run <= run' && Possible(run') && Onward(After(run), After(run'), onA)
    ensures var e' := Me(After(run'), onA); e'.net.NetIdle? && !e'.connected && e'.main.MainFailed?
  {
    run' := run;
    var s := After(run);
    var e := Me(s, onA);
    var s1;
    if e.main.MainWrite? {
      DataNext(run, onA);
      run', s1 := Go(run, s, At(onA, MainSend(true)));
    } else if e.main.MainIdle? {
      run', s1 := Go(run, s, At(onA, MainKeepAlive(true)));
    }
  }

  /** An endpoint comes to wait for a new connection. */
  lemma GivesUp(run: seq<Event>, onA: bool) returns (run': seq<Event>)
    requires Possible(run) && [] !in After(run).a.input && [] !in After(run).b.input
    ensures run <= run' && Possible(run') && Onward(After(run), After(run'), onA)
    ensures var e' := Me(After(run'), onA); e'.net.NetIdle? && !e'.connected && e'.main.MainFailed?
  {
    run' := Finish(run, onA);
    StillOn(run');
    run' := Hangup(run', onA);
    if Me(After(run'), onA).main.MainHold? {
      var s1;
      run', s1 := Go(run', After(run'), At(onA, MainQueue));
    }
    StillOn(run');
    run' := MainNotices(run', onA);
  }

  /** Both can connect anew, whatever state they are in. */
  lemma Reconnects(run: seq<Event>) returns (run': seq<Event>)
    requires Possible(run) && [] !in After(run).a.input && [] !in After(run).b.input
    ensures run <= run' && Possible(run') && Linked(After(run'))
    ensures After(run').a.input == After(run).a.input && After(run').b.input == After(run).b.input
  {
    run' := GivesUp(run, true);
    run' := GivesUp(run', false);
    var s := After(run');
    run', s := Go(run', s, AtA(MainConnect(|s.ba|)));
    run', s := Go(run', s, AtB(MainConnect(|s.ab| - 1)));
  }

  /** On a connection that holds, everything is brought over. */
  lemma {:induction false} Drains(run: seq<Event>) returns (run': seq<Event>)
    requires Possible(run) && Linked(After(run))
    ensures run <= run' && Possible(run') && Arrived(After(run'))
    ensures After(run').a.input == After(run).a.input && After(run').b.input == After(run).b.input
    decreases Rest(After(run))
  {
    run' := run;
    if !Arrived(After(run)) {
      NeverStuck(run);
      var ev :| Forward(ev) && Can(After(run), ev);
      ForwardStep(After(run), ev);
      var s;
      run', s := Go(run, After(run), ev);
      run' := Drains(run');
    }
  }

  /**
    After every run in which neither client has ended its input, whatever was broken and
    lost, the endpoints can go on so that all that one client has written so far reaches
    the other.
   */
  lemma AllCanArrive(run: seq<Event>) returns (run': seq<Event>)
    requires Possible(run) && [] !in After(run).a.input && [] !in After(run).b.input
    ensures run <= run' && Possible(run') && After(run').b.delivered == After(run').a.input == After(run).a.input
  {
    run' := Reconnects(run);
    run' := Drains(run');
    StillOn(run');
  }
}
