/**
  A run in which an acknowledgement overtakes the delivery it stands for: fromnet
  counts a message as received before it writes it to its client (aan.c:317-319),
  so the main loop may already acknowledge it (aan.c:208) and the peer recycle the
  buffer.
 */
module AanWitness {
  import opened AanModel
  import opened AanProof

  /** An endpoint that has read one chunk from its client and is about to send it. */
  function Loaded(data: Chunk): Endpoint {
    Endpoint(Fresh().empty[1..], [], [Buf(0, 0, 0, data)], MainWrite, ClientIdle, NetIdle,
             1, 0, 0, true, [data], [], [])
  }

  lemma Start() returns (run: seq<Event>)
    ensures Possible(run) && After(run) == State(Fresh(), Fresh(), [], [])
  {
    run := [];
  }

  /** The same endpoint before its main loop has taken the chunk. */
  function Waiting(data: Chunk): Endpoint {
    Fresh().(empty := Fresh().empty[1..], unsent := [Buf(0, 0, 0, data)], outmsg := 1, input := [data])
  }

  lemma FirstId()
    ensures Fresh().empty != [] && Fresh().empty[0] == 0
  {
  }

  lemma PutFirst(x: Chunk) returns (run: seq<Event>)
    requires x != []
    ensures Possible(run) && After(run) == State(Waiting(x), Fresh(), [], [])
  {
    run := Start();
    var s := After(run);
    FirstId();
    run, s := Go(run, s, AtA(ClientTake));
    run, s := Go(run, s, AtA(ClientRead(x)));
    run, s := Go(run, s, AtA(ClientPut));
    assert s.a == Waiting(x);
  }

  lemma LoadFirst(x: Chunk) returns (run: seq<Event>)
    requires x != []
    ensures Possible(run) && After(run) == State(Loaded(x), Fresh(), [Conn(0, [], true)], [])
  {
    run := PutFirst(x);
    var s := After(run);
    run, s := Go(run, s, AtA(MainConnect(0)));
    run, s := Go(run, s, AtA(MainTake));
    run, s := Go(run, s, AtA(MainQueue));
    assert s.a == Loaded(x);
  }

  /** Both endpoints read one chunk, connect, and have it queued as unacked. */
  lemma Setup(x: Chunk, y: Chunk) returns (run: seq<Event>)
    requires x != [] && y != []
    ensures Possible(run)
    ensures After(run) == State(Loaded(x), Loaded(y), [Conn(0, [], true)], [Conn(0, [], true)])
  {
    run := LoadFirst(x);
    FirstId();
    var s := After(run);
    run, s := Go(run, s, AtB(ClientTake));
    run, s := Go(run, s, AtB(ClientRead(y)));
    run, s := Go(run, s, AtB(ClientPut));
    run, s := Go(run, s, AtB(MainConnect(0)));
    run, s := Go(run, s, AtB(MainTake));
    run, s := Go(run, s, AtB(MainQueue));
    assert s.b == Loaded(y);
  }

  /** The first endpoint has recycled its buffer although nothing was delivered. */
  lemma AckCanPrecedeDelivery() returns (run: seq<Event>)
    ensures Possible(run)
    ensures var s := After(run);
            Base(s.a) == 1 && s.a.unacked == [] && 0 in s.a.empty && s.b.delivered == []
  {
    run := Acknowledged([7], [8]);
    var s := After(run);
    run, s := Go(run, s, AtA(NetAckPop));
    run, s := Go(run, s, AtA(NetAckPut));
  }

  /** The second endpoint's message, which acknowledges the first chunk, has come in. */
  lemma Acknowledged(x: Chunk, y: Chunk) returns (run: seq<Event>)
    requires x != [] && y != []
    ensures Possible(run) && After(run).b.delivered == []
    ensures After(run).a == Loaded(x).(ackOf := [0], main := MainIdle, net := NetAck(Msg(0, 1, y), 0))
  {
    run := HalfWay(x, y);
    var s := After(run);
    run, s := Go(run, s, AtB(MainSend(false)));
    assert s.ba[0].msgs == [Msg(0, 1, y)];
    assert s.ba == [Conn(0, [Msg(0, 1, y)], true)];
    ReceiveOne(s.a, Msg(0, 1, y), s.ab);
    run, s := Go(run, s, AtA(NetReceive));
  }

  lemma Sent(x: Chunk, y: Chunk) returns (run: seq<Event>)
    requires x != [] && y != []
    ensures Possible(run)
    ensures After(run) == State(Loaded(x).(ackOf := [0], main := MainIdle), Loaded(y),
                                [Conn(0, [Msg(0, 0, x)], true)], [Conn(0, [], true)])
  {
    run := Setup(x, y);
    var s := After(run);
    run, s := Go(run, s, AtA(MainSend(false)));
    assert s.a == Loaded(x).(ackOf := [0], main := MainIdle);
    assert s.ab[0].msgs == [Msg(0, 0, x)];
    assert s.ab == [Conn(0, [Msg(0, 0, x)], true)];
  }

  /** The first chunk has been sent, received and counted, but not written. */
  lemma HalfWay(x: Chunk, y: Chunk) returns (run: seq<Event>)
    requires x != [] && y != []
    ensures Possible(run)
    ensures After(run) == State(Loaded(x).(ackOf := [0], main := MainIdle),
                                Loaded(y).(net := NetWrite(Msg(0, 0, x)), inmsg := 1),
                                [Conn(1, [], true)], [Conn(0, [], true)])
  {
    run := Received(x, y);
    var s := After(run);
    run, s := Go(run, s, AtB(NetAccept));
  }

  lemma Received(x: Chunk, y: Chunk) returns (run: seq<Event>)
    requires x != [] && y != []
    ensures Possible(run)
    ensures After(run) == State(Loaded(x).(ackOf := [0], main := MainIdle),
                                Loaded(y).(net := NetAck(Msg(0, 0, x), 0)),
                                [Conn(1, [], true)], [Conn(0, [], true)])
  {
    run := Sent(x, y);
    var s := After(run);
    ReceiveOne(s.b, Msg(0, 0, x), s.ba);
    run, s := Go(run, s, AtB(NetReceive));
  }

  lemma ReceiveOne(e: Endpoint, m: Msg, outw: seq<Conn>)
    requires e.net.NetIdle? && e.connected && m.data != [] && m.msg >= e.inmsg
    ensures var s := Side(e, [Conn(0, [m], true)], outw);
            Enabled(s, NetReceive) && Do(s, NetReceive) == Side(e.(net := NetAck(m, 0)), [Conn(1, [], true)], outw)
  {
    var s := Side(e, [Conn(0, [m], true)], outw);
    assert Do(s, NetReceive).inw[0].msgs == [];
  }
}
