/** The invariant of the aan step system and what it implies for every run. */
module AanProof {
  import opened AanModel

  // ----- numbering of buffers

  /** How many of its own messages the endpoint has taken off unacked. */
  function Base(e: Endpoint): int {
    match e.net
    case NetAck(_, i) => e.lastacked + i
    case NetHand(_, i, _) => e.lastacked + i + 1
    case _ => e.lastacked
  }

  function Held(e: Endpoint): seq<Buf> { if e.main.MainHold? then [e.main.b] else [] }

  function Sending(e: Endpoint): seq<Buf> { if e.client.ClientSend? then [e.client.b] else [] }

  /** All filled buffers, oldest message first. */
  function Queue(e: Endpoint): seq<Buf> { e.unacked + Held(e) + e.unsent + Sending(e) }

  predicate Numbered(q: seq<Buf>, input: seq<Chunk>, base: int) {
    forall i :: 0 <= i < |q| ==>
      0 <= base + i < |input| && q[i].msg == base + i && q[i].data == input[base + i]
  }

  /** unacked holds the messages sent from base on, each with the ack it was sent with. */
  predicate AcksKept(unacked: seq<Buf>, ackOf: seq<int>, base: int) {
    forall i :: 0 <= i < |unacked| && 0 <= base + i < |ackOf| ==> unacked[i].acked == ackOf[base + i]
  }

  predicate Ascending(ackOf: seq<int>, top: int) {
    && (forall i :: 0 <= i < |ackOf| ==> 0 <= ackOf[i] <= top)
    && (forall i, j :: 0 <= i <= j < |ackOf| ==> ackOf[i] <= ackOf[j])
  }

  ghost predicate Local(e: Endpoint) {
    && |e.input| == e.outmsg == Base(e) + |Queue(e)|
    && 0 <= Base(e)
    && Numbered(Queue(e), e.input, Base(e))
    && |e.ackOf| == Base(e) + |e.unacked| - (if e.main.MainWrite? then 1 else 0)
    && (e.main.MainWrite? ==> e.unacked != [])
    && AcksKept(e.unacked, e.ackOf, Base(e))
    && Ascending(e.ackOf, e.inmsg)
    && (!e.connected ==> e.net.NetIdle? || e.net.NetDone?)
  }

  // ----- what is in flight

  /** m is message number k as its sender first sent it. */
  predicate Genuine(x: Endpoint, m: Msg, k: int) {
    0 <= k < |x.ackOf| && k < |x.input| && m.msg == k && m.acked == x.ackOf[k] && m.data == x.input[k]
  }

  /** Genuine messages with consecutive numbers from k on, keep-alives among them. */
  predicate Consecutive(x: Endpoint, msgs: seq<Msg>, k: int) {
    msgs == [] ||
    (if IsKeepAlive(msgs[0]) then Consecutive(x, msgs[1..], k)
     else Genuine(x, msgs[0], k) && Consecutive(x, msgs[1..], k + 1))
  }

  function End(msgs: seq<Msg>, k: int): int {
    if msgs == [] then k else if IsKeepAlive(msgs[0]) then End(msgs[1..], k) else End(msgs[1..], k + 1)
  }

  /** The number up to which the endpoint has taken messages off the wire. */
  function Taken(y: Endpoint): int {
    if y.net.NetAck? || y.net.NetHand? || y.net.NetDone? then y.inmsg + 1 else y.inmsg
  }

  ghost predicate WireOk(x: Endpoint, w: seq<Conn>, taken: int) {
    && (forall i :: 0 <= i < |w| ==> w[i].next <= taken && Consecutive(x, w[i].msgs, w[i].next))
    && (x.connected && w != [] && w[|w| - 1].open ==> End(w[|w| - 1].msgs, w[|w| - 1].next) == |x.ackOf|)
  }

  // ----- what has been received

  ghost predicate Received(x: Endpoint, y: Endpoint) {
    && y.inmsg <= |x.ackOf| <= |x.input|
    && y.lastacked == (if y.inmsg == 0 then 0 else x.ackOf[y.inmsg - 1])
    && (match y.net
        case NetAck(m, i) => Genuine(x, m, y.inmsg) && i <= m.acked - y.lastacked && m.data != []
        case NetHand(m, i, _) => Genuine(x, m, y.inmsg) && i < m.acked - y.lastacked && m.data != []
        case NetWrite(m) => y.inmsg > 0 && m.data == x.input[y.inmsg - 1]
        case NetDone => y.inmsg < |x.input| && x.input[y.inmsg] == []
        case NetIdle => true)
    && (forall k :: 0 <= k < y.inmsg ==> x.input[k] != [])
    && y.delivered == x.input[..if y.net.NetWrite? then y.inmsg - 1 else y.inmsg]
  }

  /** One direction: x sends to y over w. */
  ghost predicate Half(x: Endpoint, y: Endpoint, w: seq<Conn>) {
    Local(x) && WireOk(x, w, Taken(y)) && Received(x, y)
  }

  ghost predicate Inv(s: State) {
    Half(s.a, s.b, s.ab) && Half(s.b, s.a, s.ba)
  }

  // ----- lemmas on message sequences

  ghost predicate Extends(x: Endpoint, x': Endpoint) {
    x.input <= x'.input && x.ackOf <= x'.ackOf
  }

  lemma {:induction false} ConsecutiveExtends(x: Endpoint, x': Endpoint, msgs: seq<Msg>, k: int)
    requires Consecutive(x, msgs, k) && Extends(x, x')
    ensures Consecutive(x', msgs, k)
    decreases |msgs|
  {
    if msgs != [] {
      if IsKeepAlive(msgs[0]) {
        ConsecutiveExtends(x, x', msgs[1..], k);
      } else {
        ConsecutiveExtends(x, x', msgs[1..], k + 1);
      }
    }
  }

  lemma {:induction false} ConsecutiveAppend(x: Endpoint, msgs: seq<Msg>, k: int, m: Msg)
    requires Consecutive(x, msgs, k) && (IsKeepAlive(m) || Genuine(x, m, End(msgs, k)))
    ensures Consecutive(x, msgs + [m], k)
    ensures End(msgs + [m], k) == if IsKeepAlive(m) then End(msgs, k) else End(msgs, k) + 1
    decreases |msgs|
  {
    if msgs == [] {
      assert (msgs + [m])[1..] == [];
    } else {
      assert (msgs + [m])[1..] == msgs[1..] + [m];
      ConsecutiveAppend(x, msgs[1..], if IsKeepAlive(msgs[0]) then k else k + 1, m);
    }
  }

  lemma {:induction false} ConsecutivePrefix(x: Endpoint, msgs: seq<Msg>, k: int, n: nat)
    requires Consecutive(x, msgs, k) && n <= |msgs|
    ensures Consecutive(x, msgs[..n], k)
    decreases |msgs|
  {
    if n > 0 {
      assert msgs[..n][1..] == msgs[1..][..n - 1];
      ConsecutivePrefix(x, msgs[1..], if IsKeepAlive(msgs[0]) then k else k + 1, n - 1);
    }
  }

  /** What synchronize writes: the unacked messages in order. */
  lemma {:induction false} ResendConsecutive(x: Endpoint, bufs: seq<Buf>, k: int)
    requires Numbered(bufs, x.input, k) && AcksKept(bufs, x.ackOf, k)
    requires 0 <= k && k + |bufs| <= |x.ackOf|
    ensures Consecutive(x, Resend(bufs), k) && End(Resend(bufs), k) == k + |bufs|
    decreases |bufs|
  {
    if bufs != [] {
      assert Resend(bufs)[1..] == Resend(bufs[1..]);
      assert Genuine(x, Resend(bufs)[0], k);
      assert !IsKeepAlive(Resend(bufs)[0]);
      ResendConsecutive(x, bufs[1..], k + 1);
    }
  }

  // ----- frames

  lemma WireExtends(x: Endpoint, x': Endpoint, w: seq<Conn>, taken: int, taken': int)
    requires WireOk(x, w, taken) && Extends(x, x') && taken <= taken'
    requires x'.connected ==> x.connected && |x'.ackOf| == |x.ackOf|
    ensures WireOk(x', w, taken')
  {
    forall i | 0 <= i < |w| ensures Consecutive(x', w[i].msgs, w[i].next) {
      ConsecutiveExtends(x, x', w[i].msgs, w[i].next);
    }
  }

  /** x changes only what its own queues hold. */
  ghost predicate SameNet(x: Endpoint, x': Endpoint) {
    && x'.net == x.net && x'.inmsg == x.inmsg && x'.lastacked == x.lastacked
    && x'.delivered == x.delivered
  }

  lemma QueueFrame(x: Endpoint, x': Endpoint, y: Endpoint, inw: seq<Conn>, outw: seq<Conn>)
    requires Half(x, y, outw) && Half(y, x, inw)
    requires SameNet(x, x') && x'.connected == x.connected && x'.ackOf == x.ackOf && x.input <= x'.input
    requires Local(x')
    ensures Half(x', y, outw) && Half(y, x', inw)
  {
    WireExtends(x, x', outw, Taken(y), Taken(y));
  }

  // ----- fromclient

  /** Moving buffers along without changing their order keeps the numbering. */
  lemma SameQueueLocal(x: Endpoint, x': Endpoint)
    requires Local(x) && Queue(x') == Queue(x) && SameNet(x, x') && x'.connected == x.connected
    requires x'.input == x.input && x'.outmsg == x.outmsg && x'.ackOf == x.ackOf
    requires |x'.unacked| - (if x'.main.MainWrite? then 1 else 0) == |x.unacked| - (if x.main.MainWrite? then 1 else 0)
    requires x'.main.MainWrite? ==> x'.unacked != []
    requires x.unacked <= x'.unacked
    ensures Local(x')
  {
  }

  lemma ClientReadLocal(x: Endpoint, data: Chunk)
    requires Local(x) && x.client.ClientHold?
    ensures Local(Do(Side(x, [], []), ClientRead(data)).e)
  {
    var x' := Do(Side(x, [], []), ClientRead(data)).e;
    assert Queue(x') == Queue(x) + [x'.client.b];
  }

  lemma ClientSteps(x: Endpoint, y: Endpoint, inw: seq<Conn>, outw: seq<Conn>, st: Step)
    requires Half(x, y, outw) && Half(y, x, inw) && Enabled(Side(x, inw, outw), st)
    requires st.ClientTake? || st.ClientRead? || st.ClientPut?
    ensures var r := Do(Side(x, inw, outw), st); Half(r.e, y, r.outw) && Half(y, r.e, r.inw)
  {
    var x' := Do(Side(x, inw, outw), st).e;
    if st.ClientRead? {
      ClientReadLocal(x, st.data);
    } else {
      assert Queue(x') == Queue(x);
      SameQueueLocal(x, x');
    }
    QueueFrame(x, x', y, inw, outw);
  }

  // ----- the main loop

  lemma MainQueueSteps(x: Endpoint, y: Endpoint, inw: seq<Conn>, outw: seq<Conn>, st: Step)
    requires Half(x, y, outw) && Half(y, x, inw) && Enabled(Side(x, inw, outw), st)
    requires st.MainTake? || st.MainQueue?
    ensures var r := Do(Side(x, inw, outw), st); Half(r.e, y, r.outw) && Half(y, r.e, r.inw)
  {
    MainQueueLocal(x, st);
    QueueFrame(x, Do(Side(x, inw, outw), st).e, y, inw, outw);
  }

  lemma MainQueueLocal(x: Endpoint, st: Step)
    requires Local(x) && (st.MainTake? || st.MainQueue?) && Enabled(Side(x, [], []), st)
    ensures Local(Do(Side(x, [], []), st).e)
  {
    var x' := Do(Side(x, [], []), st).e;
    assert Queue(x') == Queue(x);
    SameQueueLocal(x, x');
  }

  /** Writing one message keeps a wire good. */
  lemma SendOk(x: Endpoint, x': Endpoint, w: seq<Conn>, taken: int, m: Msg)
    requires WireOk(x, w, taken) && Extends(x, x') && x.connected && x'.connected
    requires (IsKeepAlive(m) && |x'.ackOf| == |x.ackOf|) || (!IsKeepAlive(m) && Genuine(x', m, |x.ackOf|)
             && |x'.ackOf| == |x.ackOf| + 1)
    ensures WireOk(x', Send(w, m), taken)
  {
    forall i | 0 <= i < |w| ensures Consecutive(x', w[i].msgs, w[i].next) {
      ConsecutiveExtends(x, x', w[i].msgs, w[i].next);
    }
    if w != [] && w[|w| - 1].open {
      var c := w[|w| - 1];
      ConsecutiveAppend(x', c.msgs, c.next, m);
    }
  }

  lemma MainSendLocal(x: Endpoint, inw: seq<Conn>, outw: seq<Conn>, failed: bool)
    requires Local(x) && x.main.MainWrite?
    ensures var x' := Do(Side(x, inw, outw), MainSend(failed)).e;
            && Local(x')
            && Genuine(x', Msg(x.unacked[|x.unacked| - 1].msg, x.inmsg, x.unacked[|x.unacked| - 1].data), |x.ackOf|)
  {
    var x' := Do(Side(x, inw, outw), MainSend(failed)).e;
    var n, rest := |x.unacked| - 1, x.unsent + Sending(x);
    assert Queue(x) == x.unacked + rest && Queue(x') == x'.unacked + rest;
    assert Queue(x)[n] == x.unacked[n];
    LastSent(x.unacked, x.inmsg, rest, x.input, Base(x));
    AckSent(x.unacked, x.ackOf, x.inmsg, Base(x));
  }

  lemma AckSent(unacked: seq<Buf>, ackOf: seq<int>, inmsg: int, base: int)
    requires unacked != [] && AcksKept(unacked, ackOf, base) && Ascending(ackOf, inmsg)
    requires |ackOf| == base + |unacked| - 1 && 0 <= base && 0 <= inmsg
    ensures var n := |unacked| - 1;
            && AcksKept(unacked[n := unacked[n].(acked := inmsg)], ackOf + [inmsg], base)
            && Ascending(ackOf + [inmsg], inmsg)
  {
  }

  /** Putting the ack into the last buffer changes neither numbers nor data. */
  lemma LastSent(unacked: seq<Buf>, inmsg: int, rest: seq<Buf>, input: seq<Chunk>, base: int)
    requires unacked != [] && Numbered(unacked + rest, input, base)
    ensures var n := |unacked| - 1;
            Numbered(unacked[n := unacked[n].(acked := inmsg)] + rest, input, base)
  {
    var n := |unacked| - 1;
    var q, q' := unacked + rest, unacked[n := unacked[n].(acked := inmsg)] + rest;
    forall i | 0 <= i < |q'|
      ensures 0 <= base + i < |input| && q'[i].msg == base + i && q'[i].data == input[base + i]
    {
      assert q[i].msg == base + i && q[i].data == input[base + i];
      assert q'[i] == if i == n then q[i].(acked := inmsg) else q[i];
    }
    assert Numbered(q', input, base);
  }

  lemma MainSendStep(x: Endpoint, y: Endpoint, inw: seq<Conn>, outw: seq<Conn>, failed: bool)
    requires Half(x, y, outw) && Half(y, x, inw) && x.main.MainWrite?
    ensures var r := Do(Side(x, inw, outw), MainSend(failed)); Half(r.e, y, r.outw) && Half(y, r.e, r.inw)
  {
    var r := Do(Side(x, inw, outw), MainSend(failed));
    MainSendLocal(x, inw, outw, failed);
    var b := x.unacked[|x.unacked| - 1];
    if x.connected {
      SendOk(x, r.e, outw, Taken(y), Msg(b.msg, x.inmsg, b.data));
    } else {
      WireExtends(x, r.e, outw, Taken(y), Taken(y));
    }
  }

  lemma MainKeepAliveStep(x: Endpoint, y: Endpoint, inw: seq<Conn>, outw: seq<Conn>, failed: bool)
    requires Half(x, y, outw) && Half(y, x, inw) && x.main.MainIdle?
    ensures var r := Do(Side(x, inw, outw), MainKeepAlive(failed)); Half(r.e, y, r.outw) && Half(y, r.e, r.inw)
  {
    var r := Do(Side(x, inw, outw), MainKeepAlive(failed));
    assert Queue(r.e) == Queue(x);
    QueueFrame(x, r.e, y, inw, outw);
    if x.connected {
      SendOk(x, r.e, outw, Taken(y), Msg(-1, x.inmsg, []));
    }
  }

  /** The connection that synchronize fills starts no later than the peer has got to. */
  lemma ConnectWire(x: Endpoint, x': Endpoint, w: seq<Conn>, taken: int)
    requires Local(x) && !x.main.MainWrite? && WireOk(x, w, taken) && Base(x) <= taken
    requires Extends(x, x') && x'.ackOf == x.ackOf
    ensures var first := if x.unacked == [] then |x.ackOf| else x.unacked[0].msg;
            WireOk(x', w + [Conn(first, Resend(x.unacked), true)], taken)
  {
    assert x.unacked == Queue(x)[..|x.unacked|];
    assert x.unacked != [] ==> Queue(x)[0] == x.unacked[0];
    ResendConsecutive(x, x.unacked, Base(x));
    ConsecutiveExtends(x, x', Resend(x.unacked), Base(x));
    forall i | 0 <= i < |w| ensures Consecutive(x', w[i].msgs, w[i].next) {
      ConsecutiveExtends(x, x', w[i].msgs, w[i].next);
    }
  }

  lemma MainConnectStep(x: Endpoint, y: Endpoint, inw: seq<Conn>, outw: seq<Conn>, skip: nat)
    requires Half(x, y, outw) && Half(y, x, inw) && Enabled(Side(x, inw, outw), MainConnect(skip))
    ensures var r := Do(Side(x, inw, outw), MainConnect(skip)); Half(r.e, y, r.outw) && Half(y, r.e, r.inw)
  {
    var r := Do(Side(x, inw, outw), MainConnect(skip));
    assert Queue(r.e) == Queue(x);
    BaseBelow(y, x);
    ConnectWire(x, r.e, outw, Taken(y));
  }

  /** No endpoint takes more off unacked than its peer has accepted. */
  lemma BaseBelow(x: Endpoint, y: Endpoint)
    requires Received(x, y) && Ascending(x.ackOf, x.inmsg)
    ensures Base(y) <= x.inmsg
  {
  }

  // ----- fromnet

  /** A step of fromnet that leaves the queues alone keeps what holds of the endpoint by itself. */
  lemma NetLocal(x: Endpoint, x': Endpoint)
    requires Local(x)
    requires x' == x.(net := x'.net, inmsg := x'.inmsg, lastacked := x'.lastacked, delivered := x'.delivered,
                      empty := x'.empty, connected := x'.connected)
    requires Base(x') == Base(x) && x'.inmsg >= x.inmsg
    requires !x'.connected ==> x'.net.NetIdle? || x'.net.NetDone?
    ensures Local(x')
  {
    assert Queue(x') == Queue(x);
  }

  lemma NetReceiveStep(x: Endpoint, y: Endpoint, inw: seq<Conn>, outw: seq<Conn>)
    requires Half(x, y, outw) && Half(y, x, inw) && Enabled(Side(x, inw, outw), NetReceive)
    ensures var r := Do(Side(x, inw, outw), NetReceive); Half(r.e, y, r.outw) && Half(y, r.e, r.inw)
    ensures var r := Do(Side(x, inw, outw), NetReceive); r.e.net.NetAck? ==> r.e.net.m.msg == x.inmsg
  {
    var r := Do(Side(x, inw, outw), NetReceive);
    NetReceivePeer(x, y, inw);
    NetLocal(x, r.e);
    WireExtends(x, r.e, outw, Taken(y), Taken(y));
  }

  /** Seen from the peer: the message taken off its wire is either old or the next one. */
  lemma NetReceivePeer(x: Endpoint, y: Endpoint, inw: seq<Conn>)
    requires Half(y, x, inw) && Enabled(Side(x, inw, []), NetReceive)
    ensures var r := Do(Side(x, inw, []), NetReceive);
            Half(y, r.e, r.inw) && (r.e.net.NetAck? ==> r.e.net.m.msg == x.inmsg)
  {
    var m := inw[0].msgs[0];
    if !IsKeepAlive(m) {
      assert Genuine(y, m, inw[0].next);
    }
    assert Ascending(y.ackOf, y.inmsg);
  }

  lemma NetAckPopLocal(x: Endpoint)
    requires Local(x) && Enabled(Side(x, [], []), NetAckPop) && 0 <= x.net.m.acked - x.lastacked
    requires Base(x) < |x.ackOf|
    ensures Local(Do(Side(x, [], []), NetAckPop).e)
  {
    var x' := Do(Side(x, [], []), NetAckPop).e;
    assert Queue(x') == Queue(x)[1..];
  }

  lemma NetAckSteps(x: Endpoint, y: Endpoint, inw: seq<Conn>, outw: seq<Conn>, st: Step)
    requires Half(x, y, outw) && Half(y, x, inw) && Enabled(Side(x, inw, outw), st)
    requires st.NetAckPop? || st.NetAckPut?
    ensures var r := Do(Side(x, inw, outw), st); Half(r.e, y, r.outw) && Half(y, r.e, r.inw)
  {
    var r := Do(Side(x, inw, outw), st);
    if st.NetAckPop? {
      AckedBelow(y, x);
      NetAckPopLocal(x);
    } else {
      NetLocal(x, r.e);
    }
    WireExtends(x, r.e, outw, Taken(y), Taken(y));
  }

  /** While acks are pending, the next one is for a message the peer has accepted. */
  lemma AckedBelow(x: Endpoint, y: Endpoint)
    requires Received(x, y) && Ascending(x.ackOf, x.inmsg) && y.net.NetAck? && y.net.i != y.net.m.acked - y.lastacked
    ensures y.lastacked <= y.net.m.acked && Base(y) < x.inmsg
  {
  }

  lemma NetAcceptStep(x: Endpoint, y: Endpoint, inw: seq<Conn>, outw: seq<Conn>)
    requires Half(x, y, outw) && Half(y, x, inw) && Enabled(Side(x, inw, outw), NetAccept)
    ensures var r := Do(Side(x, inw, outw), NetAccept); Half(r.e, y, r.outw) && Half(y, r.e, r.inw)
  {
    var r := Do(Side(x, inw, outw), NetAccept);
    NetLocal(x, r.e);
    WireExtends(x, r.e, outw, Taken(y), Taken(y));
  }

  lemma DeliveredMore(y: Endpoint, x: Endpoint, x': Endpoint)
    requires Received(y, x) && x.net.NetWrite? && x' == x.(net := NetIdle, delivered := x.delivered + [x.net.m.data])
    ensures Received(y, x')
  {
    assert y.input[..x.inmsg] == y.input[..x.inmsg - 1] + [y.input[x.inmsg - 1]];
  }

  lemma NetLastSteps(x: Endpoint, y: Endpoint, inw: seq<Conn>, outw: seq<Conn>, st: Step)
    requires Half(x, y, outw) && Half(y, x, inw) && Enabled(Side(x, inw, outw), st)
    requires st.NetDeliver? || st.NetBreak?
    ensures var r := Do(Side(x, inw, outw), st); Half(r.e, y, r.outw) && Half(y, r.e, r.inw)
  {
    var r := Do(Side(x, inw, outw), st);
    if st.NetDeliver? {
      DeliveredMore(y, x, r.e);
    }
    NetLocal(x, r.e);
    WireExtends(x, r.e, outw, Taken(y), Taken(y));
  }

  // ----- every step, every run

  lemma SideStep(x: Endpoint, y: Endpoint, inw: seq<Conn>, outw: seq<Conn>, st: Step)
    requires Half(x, y, outw) && Half(y, x, inw) && Enabled(Side(x, inw, outw), st)
    ensures var r := Do(Side(x, inw, outw), st); Half(r.e, y, r.outw) && Half(y, r.e, r.inw)
  {
    match st {
      case ClientTake => ClientSteps(x, y, inw, outw, st);
      case ClientRead(_) => ClientSteps(x, y, inw, outw, st);
      case ClientPut => ClientSteps(x, y, inw, outw, st);
      case MainTake => MainQueueSteps(x, y, inw, outw, st);
      case MainQueue => MainQueueSteps(x, y, inw, outw, st);
      case MainSend(failed) => MainSendStep(x, y, inw, outw, failed);
      case MainKeepAlive(failed) => MainKeepAliveStep(x, y, inw, outw, failed);
      case MainConnect(skip) => MainConnectStep(x, y, inw, outw, skip);
      case NetReceive => NetReceiveStep(x, y, inw, outw);
      case NetAckPop => NetAckSteps(x, y, inw, outw, st);
      case NetAckPut => NetAckSteps(x, y, inw, outw, st);
      case NetAccept => NetAcceptStep(x, y, inw, outw);
      case NetDeliver => NetLastSteps(x, y, inw, outw, st);
      case NetBreak => NetLastSteps(x, y, inw, outw, st);
    }
  }

  lemma LoseOk(x: Endpoint, w: seq<Conn>, taken: int, i: nat, n: nat)
    requires WireOk(x, w, taken) && i < |w| && n <= |w[i].msgs|
    ensures WireOk(x, Lose(w, i, n), taken)
  {
    ConsecutivePrefix(x, w[i].msgs, w[i].next, n);
  }

  lemma NextInv(s: State, ev: Event)
    requires Inv(s) && Can(s, ev)
    ensures Inv(Next(s, ev))
  {
    match ev {
      case AtA(st) => SideStep(s.a, s.b, s.ba, s.ab, st);
      case AtB(st) => SideStep(s.b, s.a, s.ab, s.ba, st);
      case LoseAB(i, n) => LoseOk(s.a, s.ab, Taken(s.b), i, n);
      case LoseBA(i, n) => LoseOk(s.b, s.ba, Taken(s.a), i, n);
    }
  }

  /** The invariant holds after every run. */
  lemma {:induction false} RunInv(run: seq<Event>)
    requires Possible(run)
    ensures Inv(After(run))
    decreases |run|
  {
    if run != [] {
      RunInv(run[..|run| - 1]);
      NextInv(After(run[..|run| - 1]), run[|run| - 1]);
    }
  }

  /** One more event. */
  lemma Go(run: seq<Event>, s: State, ev: Event) returns (run': seq<Event>, s': State)
    requires Possible(run) && After(run) == s && Can(s, ev)
    ensures run' == run + [ev] && Possible(run') && After(run') == s' == Next(s, ev)
  {
    run', s' := run + [ev], Next(s, ev);
    assert run'[..|run'| - 1] == run;
  }
}
