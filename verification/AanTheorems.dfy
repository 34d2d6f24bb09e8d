/** What every run of the two aan endpoints guarantees (aan.c). */
module AanTheorems {
  import opened AanModel
  import opened AanProof

  /**
    Whatever breaks, reconnects and resends happen, each client receives a prefix
    of what the other side's client wrote: in order, nothing lost in between and
    nothing twice. It lags behind the accepted count by at most the one message
    that fromnet is writing out.
   */
  lemma DeliveredIsPrefix(run: seq<Event>)
    requires Possible(run)
    ensures var s := After(run);
            && s.b.delivered <= s.a.input && s.a.delivered <= s.b.input
            && |s.b.delivered| == (if s.b.net.NetWrite? then s.b.inmsg - 1 else s.b.inmsg)
            && |s.a.delivered| == (if s.a.net.NetWrite? then s.a.inmsg - 1 else s.a.inmsg)
  {
    RunInv(run);
  }

  /** A message that passes the test msg >= inmsg has number exactly inmsg. */
  lemma AcceptedIsNext(run: seq<Event>)
    requires Possible(run)
    ensures var s := After(run);
            && (Can(s, AtA(NetReceive)) && Next(s, AtA(NetReceive)).a.net.NetAck? ==>
                  Next(s, AtA(NetReceive)).a.net.m.msg == s.a.inmsg)
            && (Can(s, AtB(NetReceive)) && Next(s, AtB(NetReceive)).b.net.NetAck? ==>
                  Next(s, AtB(NetReceive)).b.net.m.msg == s.b.inmsg)
  {
    RunInv(run);
    var s := After(run);
    if Can(s, AtA(NetReceive)) {
      NetReceiveStep(s.a, s.b, s.ba, s.ab);
    }
    if Can(s, AtB(NetReceive)) {
      NetReceiveStep(s.b, s.a, s.ab, s.ba);
    }
  }

  /** The ack loop of fromnet: it has an end, never waits, and finds the buffer it expects. */
  predicate AckLoopSafe(e: Endpoint) {
    e.net.NetAck? ==>
      && 0 <= e.net.i <= e.net.m.acked - e.lastacked
      && (e.net.i != e.net.m.acked - e.lastacked ==> e.unacked != [] && e.unacked[0].msg == e.lastacked + e.net.i)
  }

  lemma AckLoopSafeOne(x: Endpoint, y: Endpoint)
    requires Local(x) && Local(y) && Received(x, y) && Received(y, x)
    ensures AckLoopSafe(y)
  {
    if y.net.NetAck? && y.net.i != y.net.m.acked - y.lastacked {
      AckedBelow(x, y);
      assert y.unacked != [];
      assert Queue(y)[0] == y.unacked[0];
    }
  }

  lemma AcksNeverWait(run: seq<Event>)
    requires Possible(run)
    ensures AckLoopSafe(After(run).a) && AckLoopSafe(After(run).b)
  {
    RunInv(run);
    AckLoopSafeOne(After(run).a, After(run).b);
    AckLoopSafeOne(After(run).b, After(run).a);
  }

  /**
    A buffer goes back to the pool only when the peer has accepted its message:
    delivered it, except that the last accepted one may still be on its way to the
    client.
   */
  lemma RecycledWasAccepted(run: seq<Event>)
    requires Possible(run)
    ensures var s := After(run);
            && Base(s.a) <= s.b.inmsg && Base(s.b) <= s.a.inmsg
            && (Base(s.a) <= |s.b.delivered| <==> !(s.b.net.NetWrite? && Base(s.a) == s.b.inmsg))
            && (Base(s.b) <= |s.a.delivered| <==> !(s.a.net.NetWrite? && Base(s.b) == s.a.inmsg))
  {
    RunInv(run);
    DeliveredIsPrefix(run);
    var s := After(run);
    BaseBelow(s.b, s.a);
    BaseBelow(s.a, s.b);
  }

  // ----- the pool

  /** How often buffer id occurs in a channel. */
  function InQueue(q: seq<Buf>, id: nat): nat {
    if q == [] then 0 else (if q[0].id == id then 1 else 0) + InQueue(q[1..], id)
  }

  function InEmpty(q: seq<nat>, id: nat): nat {
    if q == [] then 0 else (if q[0] == id then 1 else 0) + InEmpty(q[1..], id)
  }

  /** How often buffer id is in the hands of fromclient, the main loop and fromnet. */
  function InHands(e: Endpoint, id: nat): nat {
    (if e.client == ClientHold(id) || (e.client.ClientSend? && e.client.b.id == id) then 1 else 0)
    + (if e.main.MainHold? && e.main.b.id == id then 1 else 0)
    + (if e.net.NetHand? && e.net.rb.id == id then 1 else 0)
  }

  /** In how many places buffer id is. */
  function Places(e: Endpoint, id: nat): nat {
    InEmpty(e.empty, id) + InQueue(e.unsent, id) + InQueue(e.unacked, id) + InHands(e, id)
  }

  lemma {:induction false} PutLast(q: seq<Buf>, b: Buf, id: nat)
    ensures InQueue(q + [b], id) == InQueue(q, id) + (if b.id == id then 1 else 0)
  {
    if q == [] {
      assert (q + [b])[1..] == [];
    } else {
      assert (q + [b])[1..] == q[1..] + [b];
      PutLast(q[1..], b, id);
    }
  }

  lemma {:induction false} PutEmpty(q: seq<nat>, b: nat, id: nat)
    ensures InEmpty(q + [b], id) == InEmpty(q, id) + (if b == id then 1 else 0)
  {
    if q == [] {
      assert (q + [b])[1..] == [];
    } else {
      assert (q + [b])[1..] == q[1..] + [b];
      PutEmpty(q[1..], b, id);
    }
  }

  lemma PlacesStep(s: Side, st: Step, id: nat)
    requires Enabled(s, st)
    ensures Places(Do(s, st).e, id) == Places(s.e, id)
  {
    var e := s.e;
    match st {
      case ClientPut => PutLast(e.unsent, e.client.b, id);
      case MainQueue => PutLast(e.unacked, e.main.b, id);
      case MainSend(_) =>
        var n := |e.unacked| - 1;
        var b := e.unacked[n];
        assert e.unacked == e.unacked[..n] + [b];
        assert e.unacked[n := b.(acked := e.inmsg)] == e.unacked[..n] + [b.(acked := e.inmsg)];
        PutLast(e.unacked[..n], b, id);
        PutLast(e.unacked[..n], b.(acked := e.inmsg), id);
      case NetAckPut => PutEmpty(e.empty, e.net.rb.id, id);
      case _ =>
    }
  }

  lemma {:induction false} FreshPlaces(n: nat, id: nat)
    ensures InEmpty(seq(n, i => i), id) == if id < n then 1 else 0
  {
    if n > 0 {
      assert seq(n, i => i) == seq(n - 1, i => i) + [n - 1];
      PutEmpty(seq(n - 1, i => i), n - 1, id);
      FreshPlaces(n - 1, id);
    }
  }

  /** Each of the NBUF buffers is at all times in exactly one channel or one process's hands. */
  lemma {:induction false} PoolConserved(run: seq<Event>, id: nat)
    requires Possible(run)
    ensures Places(After(run).a, id) == Places(After(run).b, id) == if id < NBUF then 1 else 0
    decreases |run|
  {
    if run == [] {
      FreshPlaces(NBUF, id);
    } else {
      var p, ev := After(run[..|run| - 1]), run[|run| - 1];
      PoolConserved(run[..|run| - 1], id);
      match ev {
        case AtA(st) => PlacesStep(Side(p.a, p.ba, p.ab), st, id);
        case AtB(st) => PlacesStep(Side(p.b, p.ab, p.ba), st, id);
        case LoseAB(_, _) =>
        case LoseBA(_, _) =>
      }
    }
  }
}
