/** sr_arpcache: the requests in a linked list that is changed while it is walked. The ghost state
    is that of the abstract queue, and every method is one of its steps. */
module ArpQueue {
  import opened Wrappers
  import opened Arp

  /** struct sr_arpreq, in its list. */
  class Req {
    ghost const id: nat
    const ip: nat
    var sent: int
    var timesSent: nat
    var packets: seq<Packet>
    var next: Req?

    constructor (ip: nat, next: Req?, ghost id: nat)
      ensures this.id == id && this.ip == ip && sent == 0 && timesSent == 0 && packets == [] && this.next == next
    {
      this.id, this.ip, this.next := id, ip, next;
      sent, timesSent, packets := 0, 0, [];
    }
  }

  /** rs is the list that begins with head. */
  ghost predicate Linked(head: Req?, rs: seq<Req>)
    reads rs`next
  {
    && head == (if rs == [] then null else rs[0])
    && (forall i, j :: 0 <= i < j < |rs| ==> rs[i] != rs[j])
    && (forall i {:trigger rs[i].next} :: 0 <= i < |rs| ==> rs[i].next == if i + 1 < |rs| then rs[i + 1] else null)
  }

  /** The requests hold what the abstract queue does. */
  ghost predicate Holds(rs: seq<Req>, q: seq<Request>)
    reads rs`sent, rs`timesSent, rs`packets
  {
    && |rs| == |q|
    && forall i {:trigger q[i]} {:trigger rs[i]} :: 0 <= i < |q| ==>
         q[i] == Request(rs[i].id, rs[i].ip, rs[i].sent, rs[i].timesSent, rs[i].packets)
  }

  function Without<T>(s: seq<T>, k: nat): (r: seq<T>)
    requires k < |s|
    ensures |r| == |s| - 1
    ensures forall i {:trigger r[i]} :: 0 <= i < |r| ==> r[i] == if i < k then s[i] else s[i + 1]
  {
    s[..k] + s[k + 1..]
  }

  lemma InWithout<T>(s: seq<T>, k: nat)
    requires k < |s|
    ensures forall x :: x in Without(s, k) ==> x in s
  {
  }

  lemma LinkedAt(head: Req?, rs: seq<Req>, i: nat)
    requires Linked(head, rs) && i <= |rs|
    ensures i < |rs| ==> rs[i].next == if i + 1 < |rs| then rs[i + 1] else null
    ensures head == if rs == [] then null else rs[0]
  {
  }

  lemma SameReq(head: Req?, rs: seq<Req>, i: nat, j: nat)
    requires Linked(head, rs) && i < |rs| && j < |rs|
    ensures rs[i] == rs[j] <==> i == j
  {
  }

  lemma HeldAt(rs: seq<Req>, q: seq<Request>, i: nat)
    requires Holds(rs, q) && i < |rs|
    ensures |rs| == |q| && q[i] == Request(rs[i].id, rs[i].ip, rs[i].sent, rs[i].timesSent, rs[i].packets)
  {
  }

  lemma HeldLength(rs: seq<Req>, q: seq<Request>)
    requires Holds(rs, q)
    ensures |rs| == |q|
  {
  }

  lemma HoldsWithout(rs: seq<Req>, q: seq<Request>, k: nat)
    requires Holds(rs, q) && k < |rs|
    ensures Holds(Without(rs, k), Replaced(q, k, []))
  {
  }

  lemma OutcomeSame(s: State, k: nat)
    requires k < |s.queue|
    ensures Outcome(s, k, [s.queue[k]], []) == s
  {
  }

  lemma FramesNone()
    ensures Frames([]) == []
  {
  }

  lemma NoPackets(ps: seq<Packet>)
    ensures Frames(Unreachables(ps[..0])) == [] && Frames(Forwards(ps[..0])) == []
  {
    assert ps[..0] == [];
  }

  lemma ServedAll(es: seq<Event>)
    ensures var s := Run(EMPTY, es);
            Pending(s.queue) + Gone(Frames(s.log)) + Refused(Frames(s.log)) == Accepted(es)
  {
    hide Run, Accepted, Gone, Refused, Frames;
    PacketsAreConserved(EMPTY, es);
    WireTells(Run(EMPTY, es).log);
  }

  lemma InFront(head: Req?, rs: seq<Req>, q: seq<Request>, req: Req)
    requires Linked(head, rs) && Holds(rs, q) && req !in rs && req.next == head
    ensures Linked(req, [req] + rs)
    ensures Holds([req] + rs, [Request(req.id, req.ip, req.sent, req.timesSent, req.packets)] + q)
  {
  }

  lemma NotLeft(head: Req?, rs: seq<Req>, k: nat)
    requires Linked(head, rs)
    ensures k < |rs| ==> rs[k] !in Without(rs, k)
  {
  }

  lemma SweepNext(s: State, i: nat, now: int)
    requires i < |s.queue|
    ensures SweepFrom(s, i, now) == SweepFrom(HandleAt(s, i, now), i + |Handle(s.queue[i], now).keep|, now)
  {
  }

  /** What goes through sr_send_packet: an ARP request, an ICMP host unreachable to the sender of a
      packet, or a packet. */
  datatype Frame = ArpRequest(ip: nat, time: int) | HostUnreachable(packet: Packet) | Forwarded(packet: Packet)

  function FrameOf(o: Out): (fs: seq<Frame>) {
    match o
    case Broadcast(_, ip, time) => [ArpRequest(ip, time)]
    case Unreachable(packet) => [HostUnreachable(packet)]
    case Forward(packet) => [Forwarded(packet)]
    case _ => []
  }

  /** The frames among the outs, in order. */
  function Frames(log: seq<Out>): (fs: seq<Frame>) {
    if log == [] then [] else Frames(log[..|log| - 1]) + FrameOf(log[|log| - 1])
  }

  lemma {:induction false} FramesAppend(a: seq<Out>, b: seq<Out>)
    ensures Frames(a + b) == Frames(a) + Frames(b)
  {
    hide FrameOf;
    if b == [] {
      assert a + b == a;
    } else {
      assert (a + b)[..|a + b| - 1] == a + b[..|b| - 1];
      FramesAppend(a, b[..|b| - 1]);
    }
  }

  lemma FramesOne(o: Out)
    ensures Frames([o]) == FrameOf(o)
  {
    assert [o][..0] == [];
  }

  /** The outs of a list of packets grow with it. */
  lemma NextPacket(ps: seq<Packet>, i: nat)
    requires i < |ps|
    ensures Frames(Unreachables(ps[..i + 1])) == Frames(Unreachables(ps[..i])) + [HostUnreachable(ps[i])]
    ensures Frames(Forwards(ps[..i + 1])) == Frames(Forwards(ps[..i])) + [Forwarded(ps[i])]
  {
    assert ps[..i + 1][..i] == ps[..i];
    FramesAppend(Unreachables(ps[..i]), [Unreachable(ps[i])]);
    FramesAppend(Forwards(ps[..i]), [Forward(ps[i])]);
    FramesOne(Unreachable(ps[i]));
    FramesOne(Forward(ps[i]));
  }

  /** An end mark is no frame. */
  lemma EndIsSilent(outs: seq<Out>, id: nat)
    ensures Frames(outs + [Expired(id)]) == Frames(outs) && Frames(outs + [Answered(id)]) == Frames(outs)
  {
    FramesAppend(outs, [Expired(id)]);
    FramesAppend(outs, [Answered(id)]);
    FramesOne(Expired(id));
    FramesOne(Answered(id));
  }

  /** The packets that have gone out, and those whose senders have been told. */
  function Gone(wire: seq<Frame>): (ps: multiset<Packet>) {
    if wire == [] then multiset{}
    else Gone(wire[..|wire| - 1]) + match wire[|wire| - 1]
                                    case Forwarded(packet) => multiset{packet}
                                    case _ => multiset{}
  }

  function Refused(wire: seq<Frame>): (ps: multiset<Packet>) {
    if wire == [] then multiset{}
    else Refused(wire[..|wire| - 1]) + match wire[|wire| - 1]
                                       case HostUnreachable(packet) => multiset{packet}
                                       case _ => multiset{}
  }

  lemma {:induction false} WireTells(log: seq<Out>)
    ensures Gone(Frames(log)) == ForwardedIn(log) && Refused(Frames(log)) == UnreachableIn(log)
  {
    hide Gone, Refused;
    NothingSent();
    if log != [] {
      var front, o := log[..|log| - 1], log[|log| - 1];
      WireTells(front);
      WireNext(Frames(front), FrameOf(o));
    }
  }

  predicate IsEnd(o: Out) {
    o.Expired? || o.Answered?
  }

  /** How many outs are no end marks. */
  function Heard(log: seq<Out>): (n: nat) {
    if log == [] then 0 else Heard(log[..|log| - 1]) + if IsEnd(log[|log| - 1]) then 0 else 1
  }

  predicate Sends(o: Out, f: Frame) {
    match f
    case ArpRequest(ip, time) => o.Broadcast? && o.ip == ip && o.time == time
    case HostUnreachable(packet) => o == Unreachable(packet)
    case Forwarded(packet) => o == Forward(packet)
  }

  /** Each out that is no end mark is one frame, and the frames are in the order of the outs. */
  lemma {:induction false} FramesInOrder(log: seq<Out>, j: nat)
    requires j < |log|
    ensures |Frames(log)| == Heard(log)
    ensures !IsEnd(log[j]) ==> Heard(log[..j]) < Heard(log) && Sends(log[j], Frames(log)[Heard(log[..j])])
  {
    var front := log[..|log| - 1];
    if front != [] {
      FramesInOrder(front, if j < |front| then j else 0);
    }
    assert j < |front| ==> front[..j] == log[..j];
  }

  lemma NothingSent()
    ensures Gone([]) == multiset{} && Refused([]) == multiset{}
  {
  }

  lemma WireNext(wire: seq<Frame>, fs: seq<Frame>)
    requires |fs| <= 1
    ensures Gone(wire + fs) == Gone(wire) + if fs != [] && fs[0].Forwarded? then multiset{fs[0].packet} else multiset{}
    ensures Refused(wire + fs) ==
            Refused(wire) + if fs != [] && fs[0].HostUnreachable? then multiset{fs[0].packet} else multiset{}
  {
    if fs == [] {
      assert wire + fs == wire;
    } else {
      assert (wire + fs)[..|wire|] == wire;
    }
  }

  class ArpCache {
    var requests: Req?
    var wire: seq<Frame>
    ghost var reqs: seq<Req>
    ghost var state: State

    /** The list is that of the abstract queue. */
    ghost predicate Listed()
      reads `requests, `reqs, `state, reqs
    {
      Linked(requests, reqs) && Holds(reqs, state.queue)
    }

    ghost predicate Valid()
      reads this, reqs
    {
      Listed() && wire == Frames(state.log)
    }

    /** sr_arpcache_init */
    constructor ()
      ensures Valid() && state == EMPTY && reqs == [] && wire == []
    {
      requests, wire, reqs, state := null, [], [], EMPTY;
    }

    /** The first request for ip, if there is one. */
    method Find(ip: nat) returns (prev: Req?, req: Req?)
      requires Listed()
      ensures var k := IndexOf(state.queue, ip);
              && |reqs| == |state.queue| && req == (if k < |reqs| then reqs[k] else null)
              && prev == if k > 0 then reqs[k - 1] else null
    {
      hide Linked, Holds, IndexOf;
      HeldLength(reqs, state.queue);
      LinkedAt(requests, reqs, 0);
      prev, req := null, requests;
      ghost var k := 0;
      while req != null
        invariant k <= |reqs| && req == (if k < |reqs| then reqs[k] else null) &&
                  prev == if k > 0 then reqs[k - 1] else null
        invariant forall i :: 0 <= i < k ==> state.queue[i].ip != ip
        invariant req == null ==> k == |reqs|
        decreases |reqs| - k
      {
        HeldAt(reqs, state.queue, k);
        if req.ip == ip { break; }
        LinkedAt(requests, reqs, k);
        prev, req := req, req.next;
        k := k + 1;
      }
      IndexOfIs(state.queue, ip, k);
    }

    /** sr_arpcache_queuereq: the packet is none if one of the three arguments that describe it is. */
    method QueueReq(ip: nat, packet: Option<Packet>) returns (req: Req)
      requires Valid()
      modifies this, reqs`packets
      ensures Valid() && forall x :: x in reqs ==> x in old(reqs) || fresh(x)
      ensures state == if packet.Some? then Queued(old(state), ip, packet.value) else Asked(old(state), ip)
      ensures var k := IndexOf(state.queue, ip); k < |reqs| && req == reqs[k]
    {
      hide Linked, Holds, IndexOf, Added;
      req := Ask(ip);
      assert req in reqs;
      if packet.Some? {
        AddPacket(req, packet.value, ip);
      }
    }

    /** Find the request, or make it at the front of the list. */
    method Ask(ip: nat) returns (req: Req)
      requires Valid()
      modifies this
      ensures Valid() && forall x :: x in reqs ==> x in old(reqs) || fresh(x)
      ensures state == Asked(old(state), ip)
      ensures var k := IndexOf(state.queue, ip); k < |reqs| && req == reqs[k]
    {
      hide IndexOf, Linked, Holds;
      var prev, found := Find(ip);
      if found != null {
        req := found;
      } else {
        req := new Req(ip, requests, state.nextId);
        InFront(requests, reqs, state.queue, req);
        requests := req;
        reqs, state := [req] + reqs, Asked(state, ip);
        IndexOfIs(state.queue, ip, 0);
      }
    }

    method AddPacket(req: Req, packet: Packet, ghost ip: nat)
      requires Valid() && IndexOf(state.queue, ip) < |reqs| && req == reqs[IndexOf(state.queue, ip)]
      modifies this`state, req`packets
      ensures Valid() && state == Added(old(state), ip, packet)
      ensures IndexOf(state.queue, ip) == IndexOf(old(state.queue), ip)
    {
      hide IndexOf;
      ghost var k := IndexOf(state.queue, ip);
      req.packets := [packet] + req.packets;
      state := Added(state, ip, packet);
      IndexOfIs(state.queue, ip, k);
    }

    /** handle_cached_request */
    method HandleRequest(req: Req, now: int, ghost k: nat)
      requires Valid() && k < |reqs| && req == reqs[k]
      modifies this, reqs`next, req`sent, req`timesSent
      ensures Valid() && |old(reqs)| == |old(state).queue| && state == HandleAt(old(state), k, now)
      ensures reqs == if Handle(old(state).queue[k], now).keep == [] then Without(old(reqs), k) else old(reqs)
      ensures forall x :: x in reqs ==> x in old(reqs)
    {
      hide Linked, Holds, Outcome, Without, Unreachables, Frames;
      InWithout(reqs, k);
      HeldAt(reqs, state.queue, k);
      ghost var r := state.queue[k];
      if now - req.sent > 1 {
        if req.timesSent >= 5 {
          SendUnreachables(req);
          EndIsSilent(Unreachables(r.packets), r.id);
          GiveUp(req, k, Unreachables(r.packets) + [Expired(r.id)]);
        } else if req.packets == [] {
          FramesNone();
          assert wire == wire + [];
          Mark(req, k, now, 5, []);
        } else {
          FramesOne(Broadcast(r.id, r.ip, now));
          wire := wire + [ArpRequest(req.ip, now)];
          Mark(req, k, now, req.timesSent + 1, [Broadcast(r.id, r.ip, now)]);
        }
      } else {
        OutcomeSame(state, k);
      }
    }

    /** An ICMP host unreachable for every packet that waits. */
    method SendUnreachables(req: Req)
      modifies this`wire
      ensures wire == old(wire) + Frames(Unreachables(req.packets))
    {
      hide Unreachables, Frames;
      NoPackets(req.packets);
      var i := 0;
      while i < |req.packets|
        invariant 0 <= i <= |req.packets| && wire == old(wire) + Frames(Unreachables(req.packets[..i]))
      {
        NextPacket(req.packets, i);
        wire := wire + [HostUnreachable(req.packets[i])];
        i := i + 1;
      }
      assert req.packets[..i] == req.packets;
    }

    /** The request has been sent, or passed over, and keeps its place. */
    method Mark(req: Req, ghost k: nat, now: int, times: nat, ghost outs: seq<Out>)
      requires Listed() && k < |reqs| == |state.queue| && req == reqs[k]
      requires wire == Frames(state.log) + Frames(outs)
      modifies this`state, req`sent, req`timesSent
      ensures Valid()
      ensures state == Outcome(old(state), k, [old(state).queue[k].(sent := now, timesSent := times)], outs)
    {
      hide Replaced, Frames;
      FramesAppend(state.log, outs);
      req.sent := now;
      req.timesSent := times;
      ghost var r := state.queue[k].(sent := now, timesSent := times);
      ReplacedOne(state.queue, k, r);
      state := Outcome(state, k, [r], outs);
    }

    /** The request is destroyed. */
    method GiveUp(req: Req, ghost k: nat, ghost outs: seq<Out>)
      requires Listed() && k < |reqs| == |state.queue| && req == reqs[k]
      requires wire == Frames(state.log) + Frames(outs)
      modifies this`requests, this`reqs, this`state, reqs`next
      ensures Valid() && state == Outcome(old(state), k, [], outs) && reqs == Without(old(reqs), k)
    {
      hide Linked, Holds, Without, Replaced, Frames;
      FramesAppend(state.log, outs);
      HoldsWithout(reqs, state.queue, k);
      Destroy(req, k);
      state := Outcome(state, k, [], outs);
    }

    /** sr_arpreq_destroy: the entry leaves the list if it is in it. */
    method Destroy(entry: Req, ghost k: nat)
      requires Linked(requests, reqs) && k <= |reqs| && if k < |reqs| then entry == reqs[k] else entry !in reqs
      modifies this`requests, this`reqs, reqs`next
      ensures Linked(requests, reqs) && reqs == if k < |old(reqs)| then Without(old(reqs), k) else old(reqs)
    {
      hide Linked, Without;
      LinkedAt(requests, reqs, 0);
      var prev: Req?, req := null, requests;
      ghost var i := 0;
      while req != null
        invariant i <= k && Linked(requests, reqs) && reqs == old(reqs)
        invariant req == (if i < |reqs| then reqs[i] else null) && prev == if i > 0 then reqs[i - 1] else null
        decreases |reqs| - i
      {
        if req == entry {
          if i < k { SameReq(requests, reqs, i, k); }
          Unlink(prev, req, i);
          return;
        }
        LinkedAt(requests, reqs, i);
        prev, req := req, req.next;
        i := i + 1;
      }
    }

    /** Both ways to take a request out: behind another, or from the front. */
    method Unlink(prev: Req?, req: Req, ghost k: nat)
      requires Linked(requests, reqs) && k < |reqs| && req == reqs[k] && prev == if k > 0 then reqs[k - 1] else null
      modifies this`requests, this`reqs, reqs`next
      ensures Linked(requests, reqs) && reqs == Without(old(reqs), k)
    {
      LinkedAt(requests, reqs, k);
      if prev != null {
        prev.next := req.next;
      } else {
        requests := req.next;
      }
      reqs := Without(reqs, k);
    }

    /** sr_arpcache_sweepreqs: the successor is saved before a request is handled, which may free it. */
    method SweepReqs(now: int)
      requires Valid()
      modifies this, reqs`next, reqs`sent, reqs`timesSent
      ensures Valid() && state == Step(old(state), Sweep(now)) && forall x :: x in reqs ==> x in old(reqs)
    {
      hide Linked, Holds, HandleAt, Handle, Frames;
      LinkedAt(requests, reqs, 0);
      HeldLength(reqs, state.queue);
      var currReq := requests;
      ghost var i: nat := 0;
      while currReq != null
        invariant Valid() && i <= |reqs| == |state.queue| && currReq == if i < |reqs| then reqs[i] else null
        invariant SweepFrom(state, i, now) == SweepFrom(old(state), 0, now)
        invariant forall x :: x in reqs ==> x in old(reqs)
        decreases |reqs| - i
      {
        assert forall j :: 0 <= j < |reqs| ==> reqs[j] in reqs;
        currReq, i := SweepTurn(currReq, now, i);
      }
    }

    method SweepTurn(currReq: Req, now: int, ghost i: nat) returns (nextReq: Req?, ghost i': nat)
      requires Valid() && i < |reqs| == |state.queue| && currReq == reqs[i]
      modifies this, reqs`next, currReq`sent, currReq`timesSent
      ensures Valid() && i' <= |reqs| == |state.queue| && nextReq == if i' < |reqs| then reqs[i'] else null
      ensures |reqs| - i' < |old(reqs)| - i && SweepFrom(state, i', now) == SweepFrom(old(state), i, now)
      ensures forall x :: x in reqs ==> x in old(reqs)
    {
      hide Linked, Holds, HandleAt, Handle, Frames, SweepFrom, Without;
      LinkedAt(requests, reqs, i);
      nextReq := currReq.next;
      SweepNext(state, i, now);
      i' := i + |Handle(state.queue[i], now).keep|;
      HandleRequest(currReq, now, i);
      HeldLength(reqs, state.queue);
    }

    /** sr_arpcache_insert, as far as the queue is concerned: the request leaves it. */
    method Insert(ip: nat) returns (req: Req?)
      requires Valid()
      modifies this`requests, this`reqs, reqs`next
      ensures Linked(requests, reqs) && |old(reqs)| == |state.queue|
      ensures var k := IndexOf(state.queue, ip);
              && req == (if k < |old(reqs)| then old(reqs)[k] else null)
              && reqs == if k < |old(reqs)| then Without(old(reqs), k) else old(reqs)
    {
      hide Linked, Holds, IndexOf, Without;
      HeldLength(reqs, state.queue);
      var prev, found := Find(ip);
      req := found;
      if req != null {
        Unlink(prev, req, IndexOf(state.queue, ip));
      }
    }

    /** sr_handle_arp_reply: what waits is sent, if the reply is to one of the router's addresses. */
    method HandleReply(ip: nat, ours: bool)
      requires Valid()
      modifies this, reqs`next
      ensures Valid() && state == (if ours then Step(old(state), Reply(ip)) else old(state))
      ensures forall x :: x in reqs ==> x in old(reqs)
    {
      hide Linked, Holds, IndexOf, Without, AnswerAt, Frames;
      if !ours { return; }
      ghost var k := IndexOf(state.queue, ip);
      HeldLength(reqs, state.queue);
      NotLeft(requests, reqs, k);
      if k < |reqs| {
        HeldAt(reqs, state.queue, k);
        HoldsWithout(reqs, state.queue, k);
      }
      var isThere := Insert(ip);
      if isThere != null {
        Deliver(isThere, k);
        Destroy(isThere, |reqs|);
      }
    }

    /** The request has been answered. */
    method Deliver(req: Req, ghost k: nat)
      requires wire == Frames(state.log) && k < |state.queue| && req.packets == state.queue[k].packets
      modifies this`wire, this`state
      ensures state == AnswerAt(old(state), k) && state.queue == Replaced(old(state.queue), k, [])
      ensures wire == Frames(state.log)
    {
      hide Frames, AnswerAt, Forwards;
      SendPackets(req);
      Answer(k);
    }

    /** Every packet that waits is sent. */
    method SendPackets(req: Req)
      modifies this`wire
      ensures wire == old(wire) + Frames(Forwards(req.packets))
    {
      hide Forwards, Frames;
      NoPackets(req.packets);
      var i := 0;
      while i < |req.packets|
        invariant 0 <= i <= |req.packets| && wire == old(wire) + Frames(Forwards(req.packets[..i]))
      {
        NextPacket(req.packets, i);
        wire := wire + [Forwarded(req.packets[i])];
        i := i + 1;
      }
      assert req.packets[..i] == req.packets;
    }

    ghost method Answer(k: nat)
      requires k < |state.queue| && wire == Frames(state.log) + Frames(Forwards(state.queue[k].packets))
      modifies this`state
      ensures state == AnswerAt(old(state), k) && state.queue == Replaced(old(state.queue), k, [])
      ensures wire == Frames(state.log)
    {
      hide Frames, Forwards, Replaced;
      FramesAppend(state.log, Forwards(state.queue[k].packets));
      EndIsSilent(state.log + Forwards(state.queue[k].packets), state.queue[k].id);
      state := AnswerAt(state, k);
    }

    /** The ARP-miss branch of sr_handle_ip_packet. */
    method HandleMiss(ip: nat, packet: Packet, now: int)
      requires Valid()
      modifies this, reqs
      ensures Valid() && state == Step(old(state), Enqueue(ip, packet, now))
      ensures forall x :: x in reqs ==> x in old(reqs) || fresh(x)
    {
      hide Linked, Holds, IndexOf, Queued, HandleAt, Without;
      var req := QueueReq(ip, Some(packet));
      assert forall j :: 0 <= j < |reqs| ==> reqs[j] in reqs;
      HandleRequest(req, now, IndexOf(state.queue, ip));
    }

    /** Any run of the events, from a fresh cache, is the abstract run: every packet accepted waits in
        the list, or has been sent, or its sender has been told, once. */
    method Serve(es: seq<Event>)
      requires Valid() && state == EMPTY && reqs == []
      modifies this
      ensures Valid() && state == Run(EMPTY, es)
      ensures Pending(state.queue) + Gone(wire) + Refused(wire) == Accepted(es)
    {
      hide Linked, Holds, Step, Frames, Gone, Refused, Pending;
      ServedAll(es);
      var i := 0;
      while i < |es|
        invariant 0 <= i <= |es| && Valid() && Run(state, es[i..]) == Run(EMPTY, es)
        invariant forall x :: x in reqs ==> fresh(x)
      {
        assert forall j :: 0 <= j < |reqs| ==> reqs[j] in reqs;
        assert es[i..][0] == es[i] && es[i..][1..] == es[i + 1..];
        match es[i] {
          case Enqueue(ip, packet, now) => HandleMiss(ip, packet, now);
          case Sweep(now) => SweepReqs(now);
          case Reply(ip) => HandleReply(ip, true);
        }
        i := i + 1;
      }
    }
  }
}
