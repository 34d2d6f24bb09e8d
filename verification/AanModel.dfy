/**
  aan, the reconnecting stream (aan.c): two endpoints over connections that can
  break, as a step system.

  Each endpoint runs three loops (fromclient, the main loop and fromnet) that share
  a pool of NBUF buffers travelling through the channels empty, unsent and unacked.
  A connection carries a FIFO of messages in each direction. A break loses a suffix
  of what is in flight; after a reconnect the reader may abandon what is left of
  older connections, while the writer starts a new one and resends what is unacked.
 */
module AanModel {
  const NBUF := 10

  /** One read from the client; the empty chunk stands for end of input. */
  type Chunk = seq<int>

  /** A buffer with its header; id is its identity, the pointer in the program. */
  datatype Buf = Buf(id: nat, msg: int, acked: int, data: Chunk)

  /** A message on the wire. Keep-alives carry no data and number -1. */
  datatype Msg = Msg(msg: int, acked: int, data: Chunk)

  /**
    One connection in one direction: what is still in flight, and whether it still
    carries new messages. `next` is the number of the first data message in flight;
    it is bookkeeping that no step reads.
   */
  datatype Conn = Conn(next: int, msgs: seq<Msg>, open: bool)

  datatype MainPc = MainIdle | MainHold(b: Buf) | MainWrite | MainFailed | MainDone
  datatype ClientPc = ClientIdle | ClientHold(id: nat) | ClientSend(b: Buf) | ClientDone
  datatype NetPc = NetIdle | NetAck(m: Msg, i: nat) | NetHand(m: Msg, i: nat, rb: Buf) | NetWrite(m: Msg) | NetDone

  /**
    An endpoint. `input`, `delivered` and `ackOf` are histories: the chunks
    fromclient has read, the chunks fromnet has written to the client, and the ack
    that went out with each message when it was first sent.
   */
  datatype Endpoint = Endpoint(
    empty: seq<nat>, unsent: seq<Buf>, unacked: seq<Buf>,
    main: MainPc, client: ClientPc, net: NetPc,
    outmsg: nat, inmsg: nat, lastacked: int, connected: bool,
    input: seq<Chunk>, delivered: seq<Chunk>, ackOf: seq<int>)

  datatype Step =
    | ClientTake | ClientRead(data: Chunk) | ClientPut
    | MainTake | MainQueue | MainSend(failed: bool) | MainKeepAlive(failed: bool) | MainConnect(skip: nat)
    | NetReceive | NetAckPop | NetAckPut | NetAccept | NetDeliver | NetBreak

  /** An endpoint with the directions it reads from and writes to. */
  datatype Side = Side(e: Endpoint, inw: seq<Conn>, outw: seq<Conn>)

  // ----- the wire

  /** Write a message on the latest connection, if that still carries anything. */
  function Send(w: seq<Conn>, m: Msg): seq<Conn> {
    if w == [] || !w[|w| - 1].open then w
    else
      var c := w[|w| - 1];
      w[|w| - 1 := c.(msgs := c.msgs + [m])]
  }

  function Resend(bufs: seq<Buf>): (r: seq<Msg>)
    ensures |r| == |bufs|
  {
    seq(|bufs|, i requires 0 <= i < |bufs| => Msg(bufs[i].msg, bufs[i].acked, bufs[i].data))
  }

  predicate IsKeepAlive(m: Msg) { m.data == [] && m.msg < 0 }

  // ----- the steps

  predicate Enabled(s: Side, st: Step) {
    var e := s.e;
    match st
    case ClientTake => e.client.ClientIdle? && e.empty != []
    case ClientRead(_) => e.client.ClientHold?
    case ClientPut => e.client.ClientSend?
    case MainTake => e.main.MainIdle? && e.unsent != []
    case MainQueue => e.main.MainHold?
    case MainSend(_) => e.main.MainWrite? && e.unacked != []
    case MainKeepAlive(_) => e.main.MainIdle?
    case MainConnect(skip) => e.main.MainFailed? && !e.connected && skip <= |s.inw|
    case NetReceive => e.net.NetIdle? && e.connected && s.inw != [] && s.inw[0].msgs != []
    case NetAckPop => e.net.NetAck? && e.net.i != e.net.m.acked - e.lastacked && e.unacked != []
    case NetAckPut => e.net.NetHand?
    case NetAccept => e.net.NetAck? && e.net.i == e.net.m.acked - e.lastacked
    case NetDeliver => e.net.NetWrite?
    case NetBreak => e.net.NetIdle? && e.connected
  }

  function Do(s: Side, st: Step): Side
    requires Enabled(s, st)
  {
    var e := s.e;
    match st
    // fromclient
    case ClientTake => s.(e := e.(client := ClientHold(e.empty[0]), empty := e.empty[1..]))
    case ClientRead(data) =>
      s.(e := e.(client := ClientSend(Buf(e.client.id, e.outmsg, 0, data)), outmsg := e.outmsg + 1,
                 input := e.input + [data]))
    case ClientPut =>
      s.(e := e.(unsent := e.unsent + [e.client.b], client := if e.client.b.data == [] then ClientDone else ClientIdle))
    // the main loop
    case MainTake => s.(e := e.(main := MainHold(e.unsent[0]), unsent := e.unsent[1..]))
    case MainQueue => s.(e := e.(unacked := e.unacked + [e.main.b], main := MainWrite))
    case MainSend(failed) =>
      var b := e.unacked[|e.unacked| - 1].(acked := e.inmsg);
      Side(
        e.(unacked := e.unacked[|e.unacked| - 1 := b], ackOf := e.ackOf + [e.inmsg],
           main := if b.data == [] then MainDone else if failed || !e.connected then MainFailed else MainIdle),
        s.inw,
        if e.connected then Send(s.outw, Msg(b.msg, b.acked, b.data)) else s.outw)
    case MainKeepAlive(failed) =>
      Side(
        e.(main := if failed || !e.connected then MainFailed else MainIdle),
        s.inw,
        if e.connected then Send(s.outw, Msg(-1, e.inmsg, [])) else s.outw)
    case MainConnect(skip) =>
      Side(
        e.(connected := true, main := MainIdle),
        s.inw[skip..],
        s.outw + [Conn(if e.unacked == [] then |e.ackOf| else e.unacked[0].msg, Resend(e.unacked), true)])
    // fromnet
    case NetReceive =>
      var c := s.inw[0];
      var m := c.msgs[0];
      var rest := s.inw[0 := Conn(if IsKeepAlive(m) then c.next else c.next + 1, c.msgs[1..], c.open)];
      var pc := if m.data == [] then (if m.msg >= 0 then NetDone else NetIdle)
                else if m.msg < e.inmsg then NetIdle
                else NetAck(m, 0);
      s.(e := e.(net := pc), inw := rest)
    case NetAckPop => s.(e := e.(net := NetHand(e.net.m, e.net.i, e.unacked[0]), unacked := e.unacked[1..]))
    case NetAckPut => s.(e := e.(net := NetAck(e.net.m, e.net.i + 1), empty := e.empty + [e.net.rb.id]))
    case NetAccept => s.(e := e.(net := NetWrite(e.net.m), lastacked := e.net.m.acked, inmsg := e.inmsg + 1))
    case NetDeliver => s.(e := e.(net := NetIdle, delivered := e.delivered + [e.net.m.data]))
    case NetBreak => s.(e := e.(connected := false))
  }

  // ----- two endpoints

  /** ab carries what a writes and b reads, ba the other direction. */
  datatype State = State(a: Endpoint, b: Endpoint, ab: seq<Conn>, ba: seq<Conn>)

  /** Nothing has been read yet and no connection exists; all buffers are empty. */
  function Fresh(): Endpoint {
    Endpoint(seq(NBUF, i => i), [], [], MainFailed, ClientIdle, NetIdle, 0, 0, 0, false, [], [], [])
  }

  const INIT := State(Fresh(), Fresh(), [], [])

  /** The network loses everything after the first n messages of connection i, for good. */
  function Lose(w: seq<Conn>, i: nat, n: nat): seq<Conn>
    requires i < |w| && n <= |w[i].msgs|
  {
    w[i := w[i].(msgs := w[i].msgs[..n], open := false)]
  }

  datatype Event = AtA(st: Step) | AtB(st: Step) | LoseAB(i: nat, n: nat) | LoseBA(i: nat, n: nat)

  predicate Can(s: State, ev: Event) {
    match ev
    case AtA(st) => Enabled(Side(s.a, s.ba, s.ab), st)
    case AtB(st) => Enabled(Side(s.b, s.ab, s.ba), st)
    case LoseAB(i, n) => i < |s.ab| && n <= |s.ab[i].msgs|
    case LoseBA(i, n) => i < |s.ba| && n <= |s.ba[i].msgs|
  }

  function Next(s: State, ev: Event): State
    requires Can(s, ev)
  {
    match ev
    case AtA(st) =>
      var r := Do(Side(s.a, s.ba, s.ab), st);
      State(r.e, s.b, r.outw, r.inw)
    case AtB(st) =>
      var r := Do(Side(s.b, s.ab, s.ba), st);
      State(s.a, r.e, r.inw, r.outw)
    case LoseAB(i, n) => s.(ab := Lose(s.ab, i, n))
    case LoseBA(i, n) => s.(ba := Lose(s.ba, i, n))
  }

  /** Runs: each event possible in the state that the events before it lead to. */
  predicate Possible(run: seq<Event>)
    decreases |run|, 0
  {
    run == [] || (Possible(run[..|run| - 1]) && Can(After(run[..|run| - 1]), run[|run| - 1]))
  }

  function After(run: seq<Event>): State
    requires Possible(run)
    decreases |run|, 1
  {
    if run == [] then INIT else Next(After(run[..|run| - 1]), run[|run| - 1])
  }
}
