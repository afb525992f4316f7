/** The router's ARP request queue: packets wait for the address of their next hop while the
    request for it is broadcast up to five times. Each step is one atomic handling of a packet, a
    reply or the timer. */
module Arp {
  /** A frame that waits, told apart from all others. */
  type Packet = int

  /** struct sr_arpreq. The id tells one allocation from another. */
  datatype Request = Request(id: nat, ip: nat, sent: int, timesSent: nat, packets: seq<Packet>)

  /** What leaves the queue: an ARP request on the wire, an ICMP host unreachable to the sender of a
      packet, a packet on its way; and the two ends of a request. */
  datatype Out = Broadcast(id: nat, ip: nat, time: int)
               | Unreachable(packet: Packet)
               | Forward(packet: Packet)
               | Expired(id: nat)
               | Answered(id: nat)

  datatype State = State(queue: seq<Request>, nextId: nat, log: seq<Out>)

  datatype Event = Enqueue(ip: nat, packet: Packet, now: int) | Sweep(now: int) | Reply(ip: nat)

  const EMPTY := State([], 0, [])

  function Unreachables(ps: seq<Packet>): seq<Out> {
    if ps == [] then [] else Unreachables(ps[..|ps| - 1]) + [Unreachable(ps[|ps| - 1])]
  }

  function Forwards(ps: seq<Packet>): seq<Out> {
    if ps == [] then [] else Forwards(ps[..|ps| - 1]) + [Forward(ps[|ps| - 1])]
  }

  datatype Handled = Handled(keep: seq<Request>, outs: seq<Out>)

  /** handle_cached_request */
  function Handle(r: Request, now: int): (h: Handled)
    ensures |h.keep| <= 1
  {
    if now - r.sent > 1 then
      if r.timesSent >= 5 then Handled([], Unreachables(r.packets) + [Expired(r.id)])
      else if r.packets == [] then Handled([r.(sent := now, timesSent := 5)], [])
      else Handled([r.(sent := now, timesSent := r.timesSent + 1)], [Broadcast(r.id, r.ip, now)])
    else Handled([r], [])
  }

  /** The first request for ip, or the length of the queue. */
  function IndexOf(q: seq<Request>, ip: nat): (k: nat)
    ensures k <= |q| && (k < |q| ==> q[k].ip == ip) && forall i :: 0 <= i < k ==> q[i].ip != ip
  {
    if q == [] then 0 else if q[0].ip == ip then 0 else 1 + IndexOf(q[1..], ip)
  }

  /** The queue with the element at k replaced by what is kept of it. */
  function Replaced(q: seq<Request>, k: nat, keep: seq<Request>): seq<Request>
    requires k < |q|
  {
    q[..k] + keep + q[k + 1..]
  }

  /** The request at k leaves behind what is kept of it, and the outs are sent. */
  function Outcome(s: State, k: nat, keep: seq<Request>, outs: seq<Out>): (s': State)
    requires k < |s.queue|
    ensures |s'.queue| == |s.queue| - 1 + |keep| && s'.nextId == s.nextId
  {
    s.(queue := Replaced(s.queue, k, keep), log := s.log + outs)
  }

  function HandleAt(s: State, k: nat, now: int): (s': State)
    requires k < |s.queue|
    ensures |s'.queue| == |s.queue| - 1 + |Handle(s.queue[k], now).keep| && s'.nextId == s.nextId
  {
    Outcome(s, k, Handle(s.queue[k], now).keep, Handle(s.queue[k], now).outs)
  }

  /** A request for an address that nobody has asked for yet goes to the front. */
  function Asked(s: State, ip: nat): (s': State)
    ensures IndexOf(s'.queue, ip) < |s'.queue|
  {
    if IndexOf(s.queue, ip) < |s.queue| then s
    else
      var q := [Request(s.nextId, ip, 0, 0, [])] + s.queue;
      assert q[0].ip == ip;
      s.(queue := q, nextId := s.nextId + 1)
  }

  /** The newest packet of a request is the first. */
  function Added(s: State, ip: nat, packet: Packet): (s': State)
    requires IndexOf(s.queue, ip) < |s.queue|
    ensures IndexOf(s'.queue, ip) < |s'.queue|
  {
    var k := IndexOf(s.queue, ip);
    var r := s.queue[k];
    var q := s.queue[k := r.(packets := [packet] + r.packets)];
    assert q[k].ip == ip;
    s.(queue := q)
  }

  /** sr_arpcache_queuereq with a packet. */
  function Queued(s: State, ip: nat, packet: Packet): (s': State)
    ensures IndexOf(s'.queue, ip) < |s'.queue|
  {
    Added(Asked(s, ip), ip, packet)
  }

  /** The sweep from position i: a request that goes leaves its position to the next one. */
  function SweepFrom(s: State, i: nat, now: int): State
    requires i <= |s.queue|
    decreases |s.queue| - i
  {
    if i == |s.queue| then s
    else
      var s' := HandleAt(s, i, now);
      SweepFrom(s', i + |Handle(s.queue[i], now).keep|, now)
  }

  /** The requests are looked up, answered and freed. */
  function AnswerAt(s: State, k: nat): State
    requires k < |s.queue|
  {
    s.(queue := Replaced(s.queue, k, []), log := s.log + Forwards(s.queue[k].packets) + [Answered(s.queue[k].id)])
  }

  /** The ARP-miss branch of sr_handle_ip_packet, sr_arpcache_sweepreqs and sr_handle_arp_reply. */
  function Step(s: State, e: Event): State {
    match e
    case Enqueue(ip, packet, now) =>
      var s' := Queued(s, ip, packet);
      HandleAt(s', IndexOf(s'.queue, ip), now)
    case Sweep(now) => SweepFrom(s, 0, now)
    case Reply(ip) =>
      var k := IndexOf(s.queue, ip);
      if k < |s.queue| then AnswerAt(s, k) else s
  }

  function Run(s: State, es: seq<Event>): State
    decreases es
  {
    if es == [] then s else Run(Step(s, es[0]), es[1..])
  }

  // Conservation

  function Pending(q: seq<Request>): multiset<Packet> {
    if q == [] then multiset{} else multiset(q[0].packets) + Pending(q[1..])
  }

  function ForwardedIn(log: seq<Out>): multiset<Packet> {
    if log == [] then multiset{}
    else ForwardedIn(log[..|log| - 1]) + if log[|log| - 1].Forward? then multiset{log[|log| - 1].packet} else multiset{}
  }

  function UnreachableIn(log: seq<Out>): multiset<Packet> {
    if log == [] then multiset{}
    else
      UnreachableIn(log[..|log| - 1])
      + if log[|log| - 1].Unreachable? then multiset{log[|log| - 1].packet} else multiset{}
  }

  function Accepted(es: seq<Event>): multiset<Packet> {
    if es == [] then multiset{}
    else (if es[0].Enqueue? then multiset{es[0].packet} else multiset{}) + Accepted(es[1..])
  }

  /** Where every packet of the state is. */
  function Whereabouts(s: State): multiset<Packet> {
    Pending(s.queue) + ForwardedIn(s.log) + UnreachableIn(s.log)
  }

  lemma {:induction false} PendingAppend(a: seq<Request>, b: seq<Request>)
    ensures Pending(a + b) == Pending(a) + Pending(b)
  {
    if a == [] {
      assert a + b == b;
    } else {
      assert (a + b)[1..] == a[1..] + b;
      PendingAppend(a[1..], b);
    }
  }

  lemma PendingReplaced(q: seq<Request>, k: nat, keep: seq<Request>)
    requires k < |q|
    ensures Pending(Replaced(q, k, keep)) + multiset(q[k].packets) == Pending(q) + Pending(keep)
  {
    PendingAppend(q[..k] + keep, q[k + 1..]);
    PendingAppend(q[..k], keep);
    PendingAppend(q[..k], q[k..]);
    assert q[..k] + q[k..] == q && q[k..][1..] == q[k + 1..];
  }

  lemma {:induction false} LogAppend(a: seq<Out>, b: seq<Out>)
    ensures ForwardedIn(a + b) == ForwardedIn(a) + ForwardedIn(b)
    ensures UnreachableIn(a + b) == UnreachableIn(a) + UnreachableIn(b)
  {
    if b == [] {
      assert a + b == a;
    } else {
      assert (a + b)[..|a + b| - 1] == a + b[..|b| - 1];
      LogAppend(a, b[..|b| - 1]);
    }
  }

  lemma {:induction false} SentAll(ps: seq<Packet>)
    ensures UnreachableIn(Unreachables(ps)) == multiset(ps) && ForwardedIn(Unreachables(ps)) == multiset{}
    ensures ForwardedIn(Forwards(ps)) == multiset(ps) && UnreachableIn(Forwards(ps)) == multiset{}
  {
    if ps != [] {
      SentAll(ps[..|ps| - 1]);
      assert ps == ps[..|ps| - 1] + [ps[|ps| - 1]];
    }
  }

  lemma OneOut(o: Out)
    ensures ForwardedIn([o]) == if o.Forward? then multiset{o.packet} else multiset{}
    ensures UnreachableIn([o]) == if o.Unreachable? then multiset{o.packet} else multiset{}
  {
  }

  lemma OnePending(r: Request)
    ensures Pending([r]) == multiset(r.packets)
  {
  }

  lemma HandleConserves(r: Request, now: int)
    ensures var h := Handle(r, now);
            multiset(r.packets) == Pending(h.keep) + ForwardedIn(h.outs) + UnreachableIn(h.outs)
  {
    hide Pending, ForwardedIn, UnreachableIn, Unreachables;
    Nothing();
    OnePending(r);
    OnePending(r.(sent := now, timesSent := 5));
    OnePending(r.(sent := now, timesSent := r.timesSent + 1));
    SentAll(r.packets);
    LogAppend(Unreachables(r.packets), [Expired(r.id)]);
    OneOut(Expired(r.id));
    OneOut(Broadcast(r.id, r.ip, now));
  }

  lemma Nothing()
    ensures Pending([]) == multiset{} && ForwardedIn([]) == multiset{} && UnreachableIn([]) == multiset{}
  {
  }

  lemma HandleAtConserves(s: State, k: nat, now: int)
    requires k < |s.queue|
    ensures Whereabouts(HandleAt(s, k, now)) == Whereabouts(s)
  {
    hide Handle, Replaced, Pending, ForwardedIn, UnreachableIn;
    var h := Handle(s.queue[k], now);
    HandleConserves(s.queue[k], now);
    PendingReplaced(s.queue, k, h.keep);
    LogAppend(s.log, h.outs);
    Cancel(Pending(Replaced(s.queue, k, h.keep)), s.queue[k].packets, Pending(s.queue), Pending(h.keep),
           ForwardedIn(h.outs), UnreachableIn(h.outs));
  }

  lemma Cancel(after: multiset<Packet>, ps: seq<Packet>, before: multiset<Packet>, kept: multiset<Packet>,
               f: multiset<Packet>, u: multiset<Packet>)
    requires after + multiset(ps) == before + kept && multiset(ps) == kept + f + u
    ensures after + f + u == before
  {
    forall x
      ensures (after + f + u)[x] == before[x]
    {
      assert (after + multiset(ps))[x] == (before + kept)[x];
      assert multiset(ps)[x] == (kept + f + u)[x];
    }
  }

  lemma AnswerAtConserves(s: State, k: nat)
    requires k < |s.queue|
    ensures Whereabouts(AnswerAt(s, k)) == Whereabouts(s)
  {
    hide Replaced, Pending, ForwardedIn, UnreachableIn, Forwards;
    var ps := s.queue[k].packets;
    SentAll(ps);
    PendingReplaced(s.queue, k, []);
    LogAppend(s.log + Forwards(ps), [Answered(s.queue[k].id)]);
    LogAppend(s.log, Forwards(ps));
    OneOut(Answered(s.queue[k].id));
    Nothing();
    Cancel(Pending(Replaced(s.queue, k, [])), ps, Pending(s.queue), multiset{}, multiset(ps), multiset{});
  }

  lemma {:induction false} SweepConserves(s: State, i: nat, now: int)
    requires i <= |s.queue|
    ensures Whereabouts(SweepFrom(s, i, now)) == Whereabouts(s)
    decreases |s.queue| - i
  {
    hide Whereabouts, HandleAt, Handle;
    if i < |s.queue| {
      HandleAtConserves(s, i, now);
      SweepConserves(HandleAt(s, i, now), i + |Handle(s.queue[i], now).keep|, now);
    }
  }

  lemma QueuedConserves(s: State, ip: nat, packet: Packet)
    ensures Whereabouts(Queued(s, ip, packet)) == Whereabouts(s) + multiset{packet}
  {
    hide Replaced, Pending, IndexOf, Asked;
    var s' := Asked(s, ip);
    AskedPending(s, ip);
    var k := IndexOf(s'.queue, ip);
    var r := s'.queue[k];
    var r' := r.(packets := [packet] + r.packets);
    PendingReplaced(s'.queue, k, [r']);
    OnePending(r');
    ReplacedOne(s'.queue, k, r');
    Add(Pending(s'.queue[k := r']), r.packets, Pending(s'.queue), packet);
  }

  lemma ReplacedOne(q: seq<Request>, k: nat, r: Request)
    requires k < |q|
    ensures Replaced(q, k, [r]) == q[k := r]
  {
  }

  lemma Add(after: multiset<Packet>, ps: seq<Packet>, before: multiset<Packet>, p: Packet)
    requires after + multiset(ps) == before + multiset([p] + ps)
    ensures after == before + multiset{p}
  {
    assert multiset([p] + ps) == multiset{p} + multiset(ps);
    forall x
      ensures after[x] == (before + multiset{p})[x]
    {
      assert (after + multiset(ps))[x] == (before + multiset([p] + ps))[x];
    }
  }

  lemma AskedPending(s: State, ip: nat)
    ensures Pending(Asked(s, ip).queue) == Pending(s.queue) && Asked(s, ip).log == s.log
  {
  }

  lemma StepConserves(s: State, e: Event)
    ensures Whereabouts(Step(s, e)) == Whereabouts(s) + if e.Enqueue? then multiset{e.packet} else multiset{}
  {
    hide Whereabouts, Queued, HandleAt, AnswerAt, SweepFrom;
    match e
    case Enqueue(ip, packet, now) =>
      QueuedConserves(s, ip, packet);
      var s' := Queued(s, ip, packet);
      HandleAtConserves(s', IndexOf(s'.queue, ip), now);
    case Sweep(now) => SweepConserves(s, 0, now);
    case Reply(ip) =>
      var k := IndexOf(s.queue, ip);
      if k < |s.queue| { AnswerAtConserves(s, k); }
  }

  /** In any run, every accepted packet is in exactly one place: it waits, or it has been forwarded
      once, or its sender has been told once that the host is unreachable. */
  lemma {:induction false} PacketsAreConserved(s: State, es: seq<Event>)
    ensures Whereabouts(Run(s, es)) == Whereabouts(s) + Accepted(es)
    decreases es
  {
    hide Whereabouts, Step;
    if es != [] {
      StepConserves(s, es[0]);
      PacketsAreConserved(Step(s, es[0]), es[1..]);
    }
  }

  // The life of a request

  predicate Concerns(o: Out, id: nat) {
    match o
    case Broadcast(i, _, _) => i == id
    case Expired(i) => i == id
    case Answered(i) => i == id
    case _ => false
  }

  /** What the log tells of a request. */
  function Of(log: seq<Out>, id: nat): seq<Out> {
    if log == [] then []
    else Of(log[..|log| - 1], id) + if Concerns(log[|log| - 1], id) then [log[|log| - 1]] else []
  }

  /** At most five broadcasts, each more than a second after the one before. */
  ghost predicate Tries(h: seq<Out>, id: nat) {
    && |h| <= 5
    && (forall k :: 0 <= k < |h| ==> h[k].Broadcast? && h[k].id == id)
    && (forall j, k {:trigger h[j], h[k]} :: 0 <= j && k == j + 1 && k < |h| ==> h[k].time - h[j].time > 1)
  }

  /** A request in the queue has been tried as often as it says, and no second has passed since the
      last time that it says. */
  ghost predicate Live(h: seq<Out>, r: Request) {
    && Tries(h, r.id) && |h| == r.timesSent && r.packets != []
    && (h != [] ==> h[|h| - 1].time == r.sent && h[|h| - 1].ip == r.ip)
  }

  /** A request that has left the queue was answered, or given up after five broadcasts. */
  ghost predicate Closed(h: seq<Out>, id: nat) {
    && |h| > 0 && Tries(h[..|h| - 1], id)
    && (h[|h| - 1] == Answered(id) || (h[|h| - 1] == Expired(id) && |h| == 6))
  }

  /** Every request ever made, by its id, is live, closed, or not made yet. */
  ghost predicate Story(s: State, id: nat) {
    && (forall k :: 0 <= k < |s.queue| && s.queue[k].id == id ==> Live(Of(s.log, id), s.queue[k]))
    && ((forall k :: 0 <= k < |s.queue| ==> s.queue[k].id != id) ==>
          if id < s.nextId then Closed(Of(s.log, id), id) else Of(s.log, id) == [])
  }

  /** The queued requests differ in id and in address. */
  ghost predicate Distinct(q: seq<Request>, nextId: nat) {
    && (forall j, k :: 0 <= j < k < |q| ==> q[j].id != q[k].id && q[j].ip != q[k].ip)
    && (forall k :: 0 <= k < |q| ==> q[k].id < nextId)
  }

  ghost predicate Inv(s: State) {
    Distinct(s.queue, s.nextId) && forall id: nat :: Story(s, id)
  }

  lemma {:induction false} OfAppend(a: seq<Out>, b: seq<Out>, id: nat)
    ensures Of(a + b, id) == Of(a, id) + Of(b, id)
  {
    if b == [] {
      assert a + b == a;
    } else {
      assert (a + b)[..|a + b| - 1] == a + b[..|b| - 1];
      OfAppend(a, b[..|b| - 1], id);
    }
  }

  lemma {:induction false} OfPackets(ps: seq<Packet>, id: nat)
    ensures Of(Unreachables(ps), id) == [] && Of(Forwards(ps), id) == []
  {
    if ps != [] { OfPackets(ps[..|ps| - 1], id); }
  }

  lemma OfOne(o: Out, id: nat)
    ensures Of([o], id) == if Concerns(o, id) then [o] else []
  {
  }

  lemma OfHandle(r: Request, now: int, id: nat)
    requires r.packets != []
    ensures Of(Handle(r, now).outs, id) ==
              if id != r.id || now - r.sent <= 1 then []
              else if r.timesSent >= 5 then [Expired(id)] else [Broadcast(id, r.ip, now)]
  {
    hide Of;
    OfNothing(id);
    OfPackets(r.packets, id);
    OfAppend(Unreachables(r.packets), [Expired(r.id)], id);
    OfOne(Expired(r.id), id);
    OfOne(Broadcast(r.id, r.ip, now), id);
  }

  lemma OfNothing(id: nat)
    ensures Of([], id) == []
  {
  }

  lemma OfAnswer(r: Request, id: nat)
    ensures Of(Forwards(r.packets) + [Answered(r.id)], id) == if id == r.id then [Answered(id)] else []
  {
    OfPackets(r.packets, id);
    OfAppend(Forwards(r.packets), [Answered(r.id)], id);
    OfOne(Answered(r.id), id);
  }

  /** A live request that is handled stays live or is given up. */
  lemma LiveHandled(h: seq<Out>, r: Request, now: int)
    requires Live(h, r)
    ensures var d := Handle(r, now); var h' := h + Of(d.outs, r.id);
            if d.keep == [] then Closed(h', r.id)
            else d.keep[0].id == r.id && d.keep[0].ip == r.ip && Live(h', d.keep[0])
  {
    hide Of;
    OfHandle(r, now, r.id);
    assert h + [] == h;
    assert (h + [Expired(r.id)])[..|h|] == h;
  }

  lemma ReplacedParts(q: seq<Request>, k: nat, keep: seq<Request>)
    requires k < |q| && |keep| <= 1
    ensures var q' := Replaced(q, k, keep);
            && |q'| == |q| - 1 + |keep|
            && forall j {:trigger q'[j]} :: 0 <= j < |q'| ==>
                 q'[j] == if j < k then q[j] else if j < k + |keep| then keep[0] else q[j - |keep| + 1]
  {
  }

  /** What is left of the queue when position k is replaced, and the ids in it. */
  lemma DistinctReplaced(q: seq<Request>, nextId: nat, k: nat, keep: seq<Request>)
    requires Distinct(q, nextId) && k < |q| && |keep| <= 1
    requires keep != [] ==> keep[0].id == q[k].id && keep[0].ip == q[k].ip
    ensures Distinct(Replaced(q, k, keep), nextId)
    ensures forall j :: 0 <= j < |Replaced(q, k, keep)| ==>
              var r := Replaced(q, k, keep)[j];
              if r.id == q[k].id then keep == [r] else exists i :: 0 <= i < |q| && q[i] == r
    ensures forall j :: 0 <= j < |q| && j != k ==> q[j] in Replaced(q, k, keep)
  {
    hide Replaced;
    var q' := Replaced(q, k, keep);
    ReplacedParts(q, k, keep);
    forall j | 0 <= j < |q'|
      ensures if q'[j].id == q[k].id then keep == [q'[j]] else exists i :: 0 <= i < |q| && q[i] == q'[j]
    {
      if j < k {
        assert q'[j] == q[j];
      } else if j < k + |keep| {
        assert keep == [q'[j]];
      } else {
        assert q'[j] == q[j - |keep| + 1];
      }
    }
    forall j | 0 <= j < |q| && j != k
      ensures q[j] in q'
    {
      assert q'[if j < k then j else j - 1 + |keep|] == q[j];
    }
  }

  lemma ReplacedStory(s: State, k: nat, keep: seq<Request>, outs: seq<Out>, id: nat)
    requires k < |s.queue| && |keep| <= 1 && Distinct(s.queue, s.nextId) && Story(s, id)
    requires keep != [] ==> keep[0].id == s.queue[k].id && keep[0].ip == s.queue[k].ip
    requires id != s.queue[k].id ==> Of(outs, id) == []
    requires id == s.queue[k].id ==>
               var h' := Of(s.log, id) + Of(outs, id);
               if keep == [] then Closed(h', id) else Live(h', keep[0])
    ensures Story(s.(queue := Replaced(s.queue, k, keep), log := s.log + outs), id)
  {
    hide Replaced, Of, Live, Closed;
    var q, q' := s.queue, Replaced(s.queue, k, keep);
    DistinctReplaced(q, s.nextId, k, keep);
    OfAppend(s.log, outs, id);
    assert Of(s.log, id) + [] == Of(s.log, id);
    if id == q[k].id {
      if keep != [] {
        ReplacedAt(q, k, keep);
      }
    } else if forall j :: 0 <= j < |q'| ==> q'[j].id != id {
      forall j | 0 <= j < |q|
        ensures q[j].id != id
      {
        if j != k { assert q[j] in q'; }
      }
    }
  }

  lemma ReplacedAt(q: seq<Request>, k: nat, keep: seq<Request>)
    requires k < |q| && |keep| == 1
    ensures k < |Replaced(q, k, keep)| && Replaced(q, k, keep)[k] == keep[0]
  {
  }

  lemma HandleAtKeepsInv(s: State, k: nat, now: int)
    requires Inv(s) && k < |s.queue|
    ensures Inv(HandleAt(s, k, now))
  {
    hide Of, Live, Closed, Handle, Replaced, Story;
    var r := s.queue[k];
    var d := Handle(r, now);
    var h := Of(s.log, r.id);
    LiveAt(s, k);
    LiveHandled(h, r, now);
    DistinctReplaced(s.queue, s.nextId, k, d.keep);
    forall id: nat
      ensures Story(HandleAt(s, k, now), id)
    {
      HasPackets(h, r);
      OfHandle(r, now, id);
      ReplacedStory(s, k, d.keep, d.outs, id);
    }
  }

  lemma LiveAt(s: State, k: nat)
    requires k < |s.queue| && Inv(s)
    ensures Live(Of(s.log, s.queue[k].id), s.queue[k])
  {
    hide Of, Live, Closed;
    assert Story(s, s.queue[k].id);
  }

  lemma HasPackets(h: seq<Out>, r: Request)
    requires Live(h, r)
    ensures r.packets != [] && r.timesSent <= 5
  {
  }

  lemma AnswerAtKeepsInv(s: State, k: nat)
    requires Inv(s) && k < |s.queue|
    ensures Inv(AnswerAt(s, k))
  {
    hide Of, Live, Replaced, Story, Forwards;
    var r := s.queue[k];
    LiveAt(s, k);
    AnsweredCloses(Of(s.log, r.id), r);
    DistinctReplaced(s.queue, s.nextId, k, []);
    var outs := Forwards(r.packets) + [Answered(r.id)];
    assert s.log + Forwards(r.packets) + [Answered(r.id)] == s.log + outs;
    forall id: nat
      ensures Story(AnswerAt(s, k), id)
    {
      OfAnswer(r, id);
      ReplacedStory(s, k, [], outs, id);
    }
  }

  lemma AnsweredCloses(h: seq<Out>, r: Request)
    requires Live(h, r)
    ensures Closed(h + [Answered(r.id)], r.id)
  {
  }

  lemma {:induction false} SweepKeepsInv(s: State, i: nat, now: int)
    requires Inv(s) && i <= |s.queue|
    ensures Inv(SweepFrom(s, i, now))
    decreases |s.queue| - i
  {
    hide Inv, HandleAt, Handle;
    if i < |s.queue| {
      HandleAtKeepsInv(s, i, now);
      SweepKeepsInv(HandleAt(s, i, now), i + |Handle(s.queue[i], now).keep|, now);
    }
  }

  /** Queueing a packet either extends one request or makes one. */
  lemma QueuedIs(s: State, ip: nat, packet: Packet)
    ensures var k := IndexOf(s.queue, ip);
            Queued(s, ip, packet) ==
              if k < |s.queue| then
                s.(queue := Replaced(s.queue, k, [s.queue[k].(packets := [packet] + s.queue[k].packets)]))
              else s.(queue := [Request(s.nextId, ip, 0, 0, [packet])] + s.queue, nextId := s.nextId + 1)
  {
    hide IndexOf;
    var k := IndexOf(s.queue, ip);
    if k < |s.queue| {
      ReplacedOne(s.queue, k, s.queue[k].(packets := [packet] + s.queue[k].packets));
    } else {
      var q := [Request(s.nextId, ip, 0, 0, [])] + s.queue;
      assert q[0].ip == ip && IndexOf(q, ip) == 0;
      assert [packet] + q[0].packets == [packet];
      assert q[0 := Request(s.nextId, ip, 0, 0, [packet])] == [Request(s.nextId, ip, 0, 0, [packet])] + s.queue;
    }
  }

  lemma QueuedKeepsInv(s: State, ip: nat, packet: Packet)
    requires Inv(s)
    ensures Inv(Queued(s, ip, packet))
  {
    hide Of, Live, Closed, Replaced, Story, IndexOf, Queued;
    QueuedIs(s, ip, packet);
    var k := IndexOf(s.queue, ip);
    if k < |s.queue| {
      var r := s.queue[k];
      var r' := r.(packets := [packet] + r.packets);
      LiveAt(s, k);
      StaysLive(Of(s.log, r.id), r, r');
      DistinctReplaced(s.queue, s.nextId, k, [r']);
      assert s.log + [] == s.log;
      forall id: nat
        ensures Story(Queued(s, ip, packet), id)
      {
        OfNothing(id);
        assert Of(s.log, id) + [] == Of(s.log, id);
        ReplacedStory(s, k, [r'], [], id);
      }
    } else {
      forall id: nat
        ensures Story(Queued(s, ip, packet), id)
      {
        NewStory(s, Request(s.nextId, ip, 0, 0, [packet]), id);
      }
    }
  }

  lemma StaysLive(h: seq<Out>, r: Request, r': Request)
    requires Live(h, r) && r' == r.(packets := r'.packets) && r'.packets != []
    ensures Live(h, r')
  {
  }

  lemma NewStory(s: State, r: Request, id: nat)
    requires Inv(s) && r.id == s.nextId && r.timesSent == 0 && r.packets != []
    ensures Story(s.(queue := [r] + s.queue, nextId := s.nextId + 1), id)
  {
    hide Of, Closed;
    assert Story(s, id);
    var q := [r] + s.queue;
    assert forall j :: 0 <= j < |s.queue| ==> q[j + 1] == s.queue[j];
    assert q[0] == r;
  }

  lemma StepKeepsInv(s: State, e: Event)
    requires Inv(s)
    ensures Inv(Step(s, e))
  {
    hide Inv, Queued, HandleAt, AnswerAt, SweepFrom;
    match e
    case Enqueue(ip, packet, now) =>
      QueuedKeepsInv(s, ip, packet);
      var s' := Queued(s, ip, packet);
      HandleAtKeepsInv(s', IndexOf(s'.queue, ip), now);
    case Sweep(now) => SweepKeepsInv(s, 0, now);
    case Reply(ip) =>
      var k := IndexOf(s.queue, ip);
      if k < |s.queue| { AnswerAtKeepsInv(s, k); }
  }

  lemma {:induction false} RunKeepsInv(s: State, es: seq<Event>)
    requires Inv(s)
    ensures Inv(Run(s, es))
    decreases es
  {
    hide Inv, Step;
    if es != [] {
      StepKeepsInv(s, es[0]);
      RunKeepsInv(Step(s, es[0]), es[1..]);
    }
  }

  lemma EmptyInv()
    ensures Inv(EMPTY)
  {
  }

  /** In every run the queued requests have pairwise distinct addresses and packets to answer for,
      so that the branch for a request without packets is never taken, and every request ever made
      has a proper story. */
  lemma EveryRun(es: seq<Event>, id: nat)
    ensures var s := Run(EMPTY, es);
            && (forall j, k :: 0 <= j < k < |s.queue| ==> s.queue[j].ip != s.queue[k].ip)
            && (forall k :: 0 <= k < |s.queue| ==> s.queue[k].packets != [] && s.queue[k].timesSent <= 5)
            && Story(s, id)
  {
    hide Of, Live, Closed, Story, Run;
    EmptyInv();
    RunKeepsInv(EMPTY, es);
    var s := Run(EMPTY, es);
    forall k | 0 <= k < |s.queue|
      ensures s.queue[k].packets != [] && s.queue[k].timesSent <= 5
    {
      LiveAt(s, k);
      HasPackets(Of(s.log, s.queue[k].id), s.queue[k]);
    }
  }

  // The end of a request

  /** The clock of an event; a reply has none. */
  predicate AtLeast(e: Event, t: int) {
    match e
    case Enqueue(_, _, now) => now >= t
    case Sweep(now) => now >= t
    case Reply(_) => true
  }

  /** The clock never goes back. */
  predicate Monotone(es: seq<Event>, t: int)
    decreases es
  {
    es == [] || (AtLeast(es[0], t) && Monotone(es[1..], if es[0].Reply? then t else es[0].now))
  }

  /** The number of sweeps that come more than a second after the one counted before. */
  function Ticks(es: seq<Event>, last: int): nat
    decreases es
  {
    if es == [] then 0
    else if es[0].Sweep? && es[0].now - last > 1 then 1 + Ticks(es[1..], es[0].now)
    else Ticks(es[1..], last)
  }

  ghost predicate Fired(r: Request, r': Request, now: int) {
    now - r.sent > 1 && r'.timesSent == r.timesSent + 1 && r'.sent == now
  }

  ghost predicate Waited(r: Request, r': Request) {
    r'.timesSent == r.timesSent && r'.sent == r.sent
  }

  /** What an event has made of a request that is still queued. */
  ghost predicate Evolved(r: Request, r': Request, e: Event) {
    && r'.id == r.id && r'.ip == r.ip
    && match e
       case Enqueue(ip, packet, now) =>
         if r.ip == ip then
           r'.packets == [packet] + r.packets && if now - r.sent > 1 then Fired(r, r', now) else Waited(r, r')
         else r' == r
       case Sweep(now) =>
         r'.packets == r.packets && if now - r.sent > 1 then Fired(r, r', now) else Waited(r, r')
       case Reply(_) => r' == r
  }

  /** What is left after a sweep comes from one request, handled once. */
  function Swept(q: seq<Request>, now: int): seq<Request> {
    if q == [] then [] else Handle(q[0], now).keep + Swept(q[1..], now)
  }

  function SweptOuts(q: seq<Request>, now: int): seq<Out> {
    if q == [] then [] else Handle(q[0], now).outs + SweptOuts(q[1..], now)
  }

  /** The sweep handles every request of the queue exactly once, in order, whatever it removes. */
  lemma {:induction false} SweepHandlesEachOnce(s: State, i: nat, now: int)
    requires i <= |s.queue|
    ensures SweepFrom(s, i, now) ==
              s.(queue := s.queue[..i] + Swept(s.queue[i..], now), log := s.log + SweptOuts(s.queue[i..], now))
    decreases |s.queue| - i
  {
    hide Handle, Replaced;
    if i == |s.queue| {
      assert s.queue[..i] + [] == s.queue && s.log + [] == s.log;
    } else {
      var h := Handle(s.queue[i], now);
      var s' := HandleAt(s, i, now);
      var i' := i + |h.keep|;
      SweepHandlesEachOnce(s', i', now);
      SweptParts(s.queue, i, h.keep);
      assert s.queue[i..][1..] == s.queue[i + 1..];
      assert s.queue[..i] + h.keep + Swept(s.queue[i + 1..], now) ==
             s.queue[..i] + (h.keep + Swept(s.queue[i + 1..], now));
      assert s.log + h.outs + SweptOuts(s.queue[i + 1..], now) == s.log + (h.outs + SweptOuts(s.queue[i + 1..], now));
    }
  }

  lemma SweptParts(q: seq<Request>, i: nat, keep: seq<Request>)
    requires i < |q|
    ensures |Replaced(q, i, keep)| == |q| - 1 + |keep|
    ensures Replaced(q, i, keep)[..i + |keep|] == q[..i] + keep
    ensures Replaced(q, i, keep)[i + |keep|..] == q[i + 1..]
  {
  }

  lemma {:induction false} SweptFrom(q: seq<Request>, now: int, r': Request)
    requires r' in Swept(q, now)
    ensures exists r :: r in q && Handle(r, now).keep == [r']
  {
    hide Handle;
    var h := Handle(q[0], now);
    if r' in h.keep {
      assert h.keep == [r'] && q[0] in q;
    } else {
      SweptFrom(q[1..], now, r');
      var r :| r in q[1..] && Handle(r, now).keep == [r'];
      assert r in q;
    }
  }

  lemma HandleEvolves(r: Request, now: int, r': Request)
    requires r.packets != [] && Handle(r, now).keep == [r']
    ensures Evolved(r, r', Sweep(now))
  {
  }

  /** A request that an event leaves in the queue was there before, if it was made before. */
  lemma StepBack(s: State, e: Event, r': Request) returns (r: Request)
    requires Inv(s) && r' in Step(s, e).queue && r'.id < s.nextId
    ensures r in s.queue && Evolved(r, r', e)
  {
    hide Story, Live, Of, Queued, IndexOf, Replaced, Handle, SweepFrom;
    match e
    case Enqueue(ip, packet, now) =>
      r := EnqueueBack(s, ip, packet, now, r');
    case Sweep(now) =>
      SweepHandlesEachOnce(s, 0, now);
      assert s.queue[..0] == [] && s.queue[0..] == s.queue;
      SweptFrom(s.queue, now, r');
      r :| r in s.queue && Handle(r, now).keep == [r'];
      InQueue(s, r);
      HandleEvolves(r, now, r');
    case Reply(ip) =>
      var k := IndexOf(s.queue, ip);
      if k < |s.queue| { InReplaced(s.queue, k, [], r'); }
      r := r';
  }

  lemma InReplaced(q: seq<Request>, k: nat, keep: seq<Request>, r': Request)
    requires k < |q| && r' in Replaced(q, k, keep)
    ensures r' in keep || r' in q
  {
  }

  lemma InQueue(s: State, r: Request)
    requires Inv(s) && r in s.queue
    ensures r.packets != [] && r.timesSent <= 5 && r.id < s.nextId
  {
    hide Of, Live, Story;
    var k :| 0 <= k < |s.queue| && s.queue[k] == r;
    LiveAt(s, k);
    HasPackets(Of(s.log, r.id), r);
  }

  lemma EnqueueBack(s: State, ip: nat, packet: Packet, now: int, r': Request) returns (r: Request)
    requires Inv(s) && r' in Step(s, Enqueue(ip, packet, now)).queue && r'.id < s.nextId
    ensures r in s.queue && Evolved(r, r', Enqueue(ip, packet, now))
  {
    hide Story, IndexOf, Replaced, Handle, Step;
    EnqueueIs(s, ip, packet, now);
    var k := IndexOf(s.queue, ip);
    if k < |s.queue| {
      var m := s.queue[k].(packets := [packet] + s.queue[k].packets);
      ReplacedParts(s.queue, k, Handle(m, now).keep);
      r := if r' in Handle(m, now).keep then s.queue[k] else r';
      if r' in Handle(m, now).keep {
        assert Handle(m, now).keep == [r'];
        HandleEvolves(m, now, r');
      } else {
        OtherAddress(s, k, Handle(m, now).keep, r');
      }
    } else {
      var m := Request(s.nextId, ip, 0, 0, [packet]);
      r := r';
      if r' in Handle(m, now).keep { HandleEvolves(m, now, r'); }
    }
  }

  lemma OtherAddress(s: State, k: nat, keep: seq<Request>, r': Request)
    requires Inv(s) && k < |s.queue| && |keep| <= 1 && r' in Replaced(s.queue, k, keep) && r' !in keep
    ensures r' in s.queue && r'.ip != s.queue[k].ip
  {
    hide Story, Replaced;
    ReplacedParts(s.queue, k, keep);
  }

  /** Queueing a packet handles the request for its address, the new one if there is none. */
  lemma EnqueueIs(s: State, ip: nat, packet: Packet, now: int)
    ensures var k := IndexOf(s.queue, ip);
            var m := if k < |s.queue| then s.queue[k].(packets := [packet] + s.queue[k].packets)
                     else Request(s.nextId, ip, 0, 0, [packet]);
            var h := Handle(m, now);
            Step(s, Enqueue(ip, packet, now)) ==
              State(if k < |s.queue| then Replaced(s.queue, k, h.keep) else h.keep + s.queue,
                    if k < |s.queue| then s.nextId else s.nextId + 1, s.log + h.outs)
  {
    hide IndexOf, Handle, Queued;
    QueuedIs(s, ip, packet);
    var k, s1 := IndexOf(s.queue, ip), Queued(s, ip, packet);
    if k < |s.queue| {
      var m := s.queue[k].(packets := [packet] + s.queue[k].packets);
      ReplacedParts(s.queue, k, [m]);
      IndexOfIs(s1.queue, ip, k);
      ReplacedTwice(s.queue, k, m, Handle(m, now).keep);
    } else {
      IndexOfIs(s1.queue, ip, 0);
      assert Replaced(s1.queue, 0, Handle(s1.queue[0], now).keep) == Handle(s1.queue[0], now).keep + s.queue;
    }
  }

  lemma ReplacedTwice(q: seq<Request>, k: nat, m: Request, keep: seq<Request>)
    requires k < |q|
    ensures |Replaced(q, k, [m])| == |q| && Replaced(Replaced(q, k, [m]), k, keep) == Replaced(q, k, keep)
  {
  }

  lemma {:induction false} IndexOfIs(q: seq<Request>, ip: nat, k: nat)
    requires k <= |q| && (forall i :: 0 <= i < k ==> q[i].ip != ip) && (k < |q| ==> q[k].ip == ip)
    ensures IndexOf(q, ip) == k
  {
  }

  lemma NextIdGrows(s: State, e: Event)
    ensures Step(s, e).nextId >= s.nextId
  {
    match e
    case Enqueue(ip, packet, now) => QueuedIs(s, ip, packet);
    case Sweep(now) => SweepHandlesEachOnce(s, 0, now);
    case Reply(ip) =>
  }

  lemma {:induction false} Ancestor(s: State, es: seq<Event>, r': Request) returns (r: Request)
    requires Inv(s) && r' in Run(s, es).queue && r'.id < s.nextId
    ensures r in s.queue && r.id == r'.id && r.ip == r'.ip
    decreases es
  {
    hide Inv, Step;
    if es == [] {
      r := r';
    } else {
      StepKeepsInv(s, es[0]);
      NextIdGrows(s, es[0]);
      var r1 := Ancestor(Step(s, es[0]), es[1..], r');
      r := StepBack(s, es[0], r1);
    }
  }

  lemma SameRequest(s: State, r: Request, r': Request)
    requires Inv(s) && r in s.queue && r' in s.queue && r.id == r'.id
    ensures r == r'
  {
  }

  /** Between two sweeps that count, a request that is still queued has been tried once more; only
      the first of them may find that it was tried just before. */
  lemma {:induction false} TriedAtEachTick(s: State, es: seq<Event>, last: int, t: int, r: Request, r': Request)
    requires Inv(s) && Monotone(es, t) && last <= t
    requires r in s.queue && r.sent <= t && r' in Run(s, es).queue && r'.id == r.id
    ensures r'.timesSent >= r.timesSent + Ticks(es, last) - if r.sent > last then 1 else 0
    decreases es
  {
    hide Inv, Step;
    if es == [] {
      SameRequest(s, r, r');
    } else {
      var e := es[0];
      InQueue(s, r);
      StepKeepsInv(s, e);
      NextIdGrows(s, e);
      var r1 := Ancestor(Step(s, e), es[1..], r');
      var r0 := StepBack(s, e, r1);
      SameRequest(s, r, r0);
      var last' := if e.Sweep? && e.now - last > 1 then e.now else last;
      TriedAtEachTick(Step(s, e), es[1..], last', if e.Reply? then t else e.now, r1, r');
    }
  }

  /** Whatever packets are queued meanwhile, a request that is sent once more at every sweep that
      counts leaves the queue with the sixth. */
  lemma RequestsEnd(s: State, es: seq<Event>, last: int, t: int, r: Request, k: nat)
    requires Inv(s) && Monotone(es, t) && r in s.queue && r.sent <= last <= t
    requires r.timesSent + Ticks(es, last) >= 6
    ensures k < |Run(s, es).queue| ==> Run(s, es).queue[k].id != r.id
  {
    hide Inv;
    if k < |Run(s, es).queue| && Run(s, es).queue[k].id == r.id {
      var r' := Run(s, es).queue[k];
      TriedAtEachTick(s, es, last, t, r, r');
      RunKeepsInv(s, es);
      InQueue(Run(s, es), r');
      assert false;
    }
  }

  ghost predicate NoReply(es: seq<Event>, ip: nat) {
    forall k :: 0 <= k < |es| ==> es[k] != Reply(ip)
  }

  /** The request with this id, if it is queued, is for ip. */
  ghost predicate IsFor(s: State, id: nat, ip: nat) {
    forall r :: r in s.queue && r.id == id ==> r.ip == ip
  }

  lemma {:induction false} OutsOfSweep(q: seq<Request>, now: int, id: nat)
    ensures Answered(id) !in SweptOuts(q, now)
  {
    if q != [] {
      OutsOfHandle(q[0], now, id);
      OutsOfSweep(q[1..], now, id);
    }
  }

  lemma OutsOfHandle(r: Request, now: int, id: nat)
    ensures Answered(id) !in Handle(r, now).outs
  {
    OutsOfPackets(r.packets, id);
  }

  lemma {:induction false} OutsOfPackets(ps: seq<Packet>, id: nat)
    ensures Answered(id) !in Unreachables(ps) && Answered(id) !in Forwards(ps)
  {
    if ps != [] { OutsOfPackets(ps[..|ps| - 1], id); }
  }

  lemma StepAnswers(s: State, e: Event, id: nat, ip: nat)
    requires Inv(s) && IsFor(s, id, ip) && id < s.nextId && e != Reply(ip) && Answered(id) !in s.log
    ensures Answered(id) !in Step(s, e).log && IsFor(Step(s, e), id, ip)
  {
    hide Inv, Queued, Handle, SweepFrom, Forwards;
    forall r' | r' in Step(s, e).queue && r'.id == id
      ensures r'.ip == ip
    {
      var r := StepBack(s, e, r');
    }
    match e
    case Enqueue(ip', packet, now) =>
      QueuedIs(s, ip', packet);
      var s1 := Queued(s, ip', packet);
      OutsOfHandle(s1.queue[IndexOf(s1.queue, ip')], now, id);
    case Sweep(now) =>
      SweepHandlesEachOnce(s, 0, now);
      OutsOfSweep(s.queue[0..], now, id);
    case Reply(ip') =>
      var k := IndexOf(s.queue, ip');
      if k < |s.queue| {
        assert s.queue[k] in s.queue && s.queue[k].id != id;
        OutsOfPackets(s.queue[k].packets, id);
      }
  }

  lemma {:induction false} NeverAnswered(s: State, es: seq<Event>, id: nat, ip: nat)
    requires Inv(s) && IsFor(s, id, ip) && id < s.nextId && NoReply(es, ip) && Answered(id) !in s.log
    ensures Answered(id) !in Run(s, es).log
    decreases es
  {
    hide Inv, Step, IsFor;
    if es != [] {
      assert es[0] != Reply(ip);
      StepAnswers(s, es[0], id, ip);
      StepKeepsInv(s, es[0]);
      NextIdGrows(s, es[0]);
      assert forall k :: 0 <= k < |es[1..]| ==> es[1..][k] == es[k + 1];
      NeverAnswered(Step(s, es[0]), es[1..], id, ip);
    }
  }

  lemma {:induction false} OfIn(log: seq<Out>, id: nat, o: Out)
    requires Concerns(o, id)
    ensures o in Of(log, id) <==> o in log
  {
    if log != [] {
      OfIn(log[..|log| - 1], id, o);
      assert log == log[..|log| - 1] + [log[|log| - 1]];
    }
  }

  /** A request that no one answers is broadcast five times in all and then given up. */
  lemma UnansweredIsGivenUp(s: State, es: seq<Event>, last: int, t: int, r: Request)
    requires Inv(s) && Monotone(es, t) && r in s.queue && r.sent <= last <= t
    requires r.timesSent + Ticks(es, last) >= 6 && NoReply(es, r.ip)
    ensures var h := Of(Run(s, es).log, r.id);
            |h| == 6 && h[5] == Expired(r.id) && forall k :: 0 <= k < 5 ==> h[k].Broadcast? && h[k].id == r.id
  {
    hide Run, Ticks, Monotone, Of, Live;
    var s' := Run(s, es);
    InQueue(s, r);
    RunKeepsInv(s, es);
    RunGrows(s, es);
    forall k | 0 <= k < |s'.queue|
      ensures s'.queue[k].id != r.id
    {
      RequestsEnd(s, es, last, t, r, k);
    }
    NotAnsweredYet(s, r);
    forall r0 | r0 in s.queue && r0.id == r.id
      ensures r0.ip == r.ip
    {
      SameRequest(s, r, r0);
    }
    NeverAnswered(s, es, r.id, r.ip);
    OfIn(s'.log, r.id, Answered(r.id));
    assert Story(s', r.id);
    var h := Of(s'.log, r.id);
    assert h[|h| - 1] in h;
  }

  lemma {:induction false} RunGrows(s: State, es: seq<Event>)
    ensures Run(s, es).nextId >= s.nextId
    decreases es
  {
    if es != [] {
      NextIdGrows(s, es[0]);
      RunGrows(Step(s, es[0]), es[1..]);
    }
  }

  lemma NotAnsweredYet(s: State, r: Request)
    requires Inv(s) && r in s.queue
    ensures Answered(r.id) !in s.log
  {
    hide Of, Story;
    var k :| 0 <= k < |s.queue| && s.queue[k] == r;
    LiveAt(s, k);
    OfIn(s.log, r.id, Answered(r.id));
  }

  // The pace of the broadcasts

  /** In every run, two broadcasts of a request that follow each other are at least two seconds apart. */
  lemma BroadcastsTwoApart(es: seq<Event>, id: nat, j: nat)
    ensures var h := Of(Run(EMPTY, es).log, id);
            j + 1 < |h| && h[j].Broadcast? && h[j + 1].Broadcast? ==> h[j + 1].time - h[j].time >= 2
  {
    hide Run, Of;
    EveryRun(es, id);
    var s := Run(EMPTY, es);
    StoryTwoApart(s, id, j);
  }

  lemma StoryTwoApart(s: State, id: nat, j: nat)
    requires Story(s, id)
    ensures var h := Of(s.log, id);
            j + 1 < |h| && h[j].Broadcast? && h[j + 1].Broadcast? ==> h[j + 1].time - h[j].time >= 2
  {
    hide Of;
    var h := Of(s.log, id);
    if exists k :: 0 <= k < |s.queue| && s.queue[k].id == id {
      var k :| 0 <= k < |s.queue| && s.queue[k].id == id;
      assert Live(h, s.queue[k]);
    } else if j + 1 < |h| - 1 {
      var tries := h[..|h| - 1];
      assert tries[j] == h[j] && tries[j + 1] == h[j + 1];
    }
  }

  lemma {:induction false} SweptEnds(q: seq<Request>, now: int, r: Request)
    requires forall x :: x in q ==> x.packets != []
    ensures Expired(r.id) in SweptOuts(q, now) <==>
              exists x :: x in q && x.id == r.id && x.timesSent >= 5 && now - x.sent > 1
  {
    if q != [] {
      assert q[0] in q && forall x :: x in q <==> x == q[0] || x in q[1..];
      SweptEnds(q[1..], now, r);
      NotUnreachable(q[0].packets, Expired(r.id));
    }
  }

  lemma {:induction false} SweptBroadcasts(q: seq<Request>, now: int, r: Request)
    requires forall x :: x in q ==> x.packets != []
    ensures Broadcast(r.id, r.ip, now) in SweptOuts(q, now) <==>
              exists x :: x in q && x.id == r.id && x.ip == r.ip && x.timesSent < 5 && now - x.sent > 1
  {
    if q != [] {
      assert q[0] in q && forall x :: x in q <==> x == q[0] || x in q[1..];
      SweptBroadcasts(q[1..], now, r);
      NotUnreachable(q[0].packets, Broadcast(r.id, r.ip, now));
    }
  }

  lemma {:induction false} NotUnreachable(ps: seq<Packet>, o: Out)
    requires !o.Unreachable?
    ensures o !in Unreachables(ps)
  {
    if ps != [] { NotUnreachable(ps[..|ps| - 1], o); }
  }

  /** A sweep broadcasts a queued request that has tries left, and gives up one that has none, if and
      only if more than a second has passed since the last time. */
  lemma SweepSendsExactly(s: State, now: int, r: Request)
    requires Inv(s) && r in s.queue
    ensures var s' := Step(s, Sweep(now));
            && s.log <= s'.log
            && (Broadcast(r.id, r.ip, now) in s'.log[|s.log|..] <==> now - r.sent > 1 && r.timesSent < 5)
            && (Expired(r.id) in s'.log[|s.log|..] <==> now - r.sent > 1 && r.timesSent >= 5)
  {
    hide Inv, Handle, SweepFrom;
    SweepHandlesEachOnce(s, 0, now);
    assert s.queue[0..] == s.queue;
    forall x | x in s.queue
      ensures x.packets != [] && (x.id == r.id ==> x == r)
    {
      InQueue(s, x);
      if x.id == r.id { SameRequest(s, r, x); }
    }
    SweptBroadcasts(s.queue, now, r);
    SweptEnds(s.queue, now, r);
  }

  /** A sweep in each of the n seconds after c. */
  function EachSecond(c: int, n: nat): (es: seq<Event>) {
    if n == 0 then [] else EachSecond(c, n - 1) + [Sweep(c + n)]
  }

  /** k broadcasts, every two seconds from c on. */
  function EveryTwo(ip: nat, c: int, k: nat): (outs: seq<Out>) {
    if k == 0 then [] else EveryTwo(ip, c, k - 1) + [Broadcast(0, ip, c + 2 * (k - 1))]
  }

  lemma {:induction false} RunNext(s: State, es: seq<Event>, e: Event)
    ensures Run(s, es + [e]) == Step(Run(s, es), e)
    decreases es
  {
    hide Step;
    if es == [] {
      assert es + [e] == [e] && [e][1..] == [];
    } else {
      assert (es + [e])[1..] == es[1..] + [e];
      RunNext(Step(s, es[0]), es[1..], e);
    }
  }

  lemma SweepOne(s: State, r: Request, now: int)
    requires s.queue == [r]
    ensures Step(s, Sweep(now)) == s.(queue := Handle(r, now).keep, log := s.log + Handle(r, now).outs)
  {
    hide Handle;
    SweepHandlesEachOnce(s, 0, now);
    assert s.queue[0..] == [r] && [r][1..] == [] && s.queue[..0] == [];
    assert Swept([r], now) == Handle(r, now).keep + [] == Handle(r, now).keep;
    assert SweptOuts([r], now) == Handle(r, now).outs + [] == Handle(r, now).outs;
  }

  lemma FirstMiss(ip: nat, p: Packet, c: int)
    requires c > 1
    ensures Step(EMPTY, Enqueue(ip, p, c)) == State([Request(0, ip, c, 1, [p])], 1, EveryTwo(ip, c, 1))
  {
    QueuedIs(EMPTY, ip, p);
    var s := Queued(EMPTY, ip, p);
    var r := Request(0, ip, 0, 0, [p]);
    assert s.queue == [r] + [] == [r] && IndexOf(s.queue, ip) == 0;
    assert Replaced([r], 0, Handle(r, c).keep) == Handle(r, c).keep;
    assert EveryTwo(ip, c, 0) == [];
  }

  /** With a sweep in every second, a packet that nobody answers for is asked after every two seconds,
      five times, and given up ten seconds after it came. */
  lemma {:induction false} EveryOtherSecond(ip: nat, p: Packet, c: int, n: nat)
    requires c > 1
    ensures Run(EMPTY, [Enqueue(ip, p, c)] + EachSecond(c, n)) ==
            if n < 10 then State([Request(0, ip, c + 2 * (n / 2), 1 + n / 2, [p])], 1, EveryTwo(ip, c, 1 + n / 2))
            else State([], 1, EveryTwo(ip, c, 5) + [Unreachable(p), Expired(0)])
  {
    hide Run, Step, EveryTwo;
    var miss := Enqueue(ip, p, c);
    if n == 0 {
      RunNext(EMPTY, [], miss);
      RunNothing(EMPTY);
      assert [miss] + [] == [] + [miss];
      FirstMiss(ip, p, c);
    } else {
      EveryOtherSecond(ip, p, c, n - 1);
      var es := [miss] + EachSecond(c, n - 1);
      assert [miss] + EachSecond(c, n) == es + [Sweep(c + n)];
      RunNext(EMPTY, es, Sweep(c + n));
      var s := Run(EMPTY, es);
      if n <= 10 {
        SweepOne(s, s.queue[0], c + n);
        TryOrWait(ip, p, c, n);
      } else {
        SweepNone(s, c + n);
      }
    }
  }

  lemma RunNothing(s: State)
    ensures Run(s, []) == s
  {
  }

  lemma SweepNone(s: State, now: int)
    requires s.queue == []
    ensures Step(s, Sweep(now)) == s
  {
  }

  /** Second n: nothing after an odd number, a try or the end after an even one. */
  lemma TryOrWait(ip: nat, p: Packet, c: int, n: nat)
    requires 0 < n <= 10
    ensures var m := n - 1; var h := Handle(Request(0, ip, c + 2 * (m / 2), 1 + m / 2, [p]), c + n);
            if n == 10 then
              h.keep == [] && EveryTwo(ip, c, 5) + h.outs == EveryTwo(ip, c, 5) + [Unreachable(p), Expired(0)]
            else h.keep == [Request(0, ip, c + 2 * (n / 2), 1 + n / 2, [p])]
                 && EveryTwo(ip, c, 1 + m / 2) + h.outs == EveryTwo(ip, c, 1 + n / 2)
  {
    var k := n / 2;
    assert Unreachables([p]) == [] + [Unreachable(p)] == [Unreachable(p)];
    if n % 2 == 1 {
      assert n == 2 * k + 1 && EveryTwo(ip, c, 1 + k) + [] == EveryTwo(ip, c, 1 + k);
    } else {
      assert n == 2 * k;
    }
  }

  // What each event sends

  lemma {:induction false} UnreachablesAre(ps: seq<Packet>)
    ensures |Unreachables(ps)| == |Forwards(ps)| == |ps|
    ensures forall k :: 0 <= k < |ps| ==> Unreachables(ps)[k] == Unreachable(ps[k]) && Forwards(ps)[k] == Forward(ps[k])
  {
    if ps != [] { UnreachablesAre(ps[..|ps| - 1]); }
  }

  lemma HandleSends(r: Request, now: int)
    requires r.packets != []
    ensures var added := Handle(r, now).outs;
            && (now - r.sent <= 1 ==> added == [])
            && (now - r.sent > 1 && r.timesSent < 5 ==> added == [Broadcast(r.id, r.ip, now)])
            && (now - r.sent > 1 && r.timesSent >= 5 ==>
                  && |added| == |r.packets| + 1 && added[|r.packets|] == Expired(r.id)
                  && forall k :: 0 <= k < |r.packets| ==> added[k] == Unreachable(r.packets[k]))
  {
    UnreachablesAre(r.packets);
  }

  /** A packet for an address that is asked for already joins the request in front of the others, and
      triggers a try at once if more than a second has passed since the last one: a broadcast while
      there are tries left, and otherwise the end, with a host unreachable for the new packet and for
      all that wait. Nothing else is sent. */
  lemma EnqueueSendsExactly(s: State, ip: nat, packet: Packet, now: int, r: Request)
    requires Inv(s) && r in s.queue && r.ip == ip
    ensures var s' := Step(s, Enqueue(ip, packet, now));
            && s.log <= s'.log
            && var added := s'.log[|s.log|..];
               && (now - r.sent <= 1 ==> added == [])
               && (now - r.sent > 1 && r.timesSent < 5 ==> added == [Broadcast(r.id, ip, now)])
               && (now - r.sent > 1 && r.timesSent >= 5 ==>
                     && |added| == |r.packets| + 2
                     && added[0] == Unreachable(packet) && added[|added| - 1] == Expired(r.id)
                     && forall k :: 0 <= k < |r.packets| ==> added[k + 1] == Unreachable(r.packets[k]))
    ensures var q' := Step(s, Enqueue(ip, packet, now)).queue;
            && (now - r.sent <= 1 ==> r.(packets := [packet] + r.packets) in q')
            && (now - r.sent > 1 && r.timesSent < 5 ==>
                  r.(packets := [packet] + r.packets, sent := now, timesSent := r.timesSent + 1) in q')
            && (now - r.sent > 1 && r.timesSent >= 5 ==> forall x :: x in q' ==> x.ip != ip)
            && forall x: Request :: x.ip != ip ==> (x in q' <==> x in s.queue)
  {
    hide Story, IndexOf, Replaced, Handle, Step;
    EnqueueIs(s, ip, packet, now);
    var k := QueuedAt(s, r);
    var m := r.(packets := [packet] + r.packets);
    HandleSends(m, now);
    HandleKeeps(m, now);
    KeptIn(s, k, Handle(m, now).keep);
    var s', outs := Step(s, Enqueue(ip, packet, now)), Handle(m, now).outs;
    assert s'.log == s.log + outs && s'.log[|s.log|..] == outs;
    if now - r.sent > 1 && r.timesSent >= 5 {
      assert forall j :: 0 <= j < |r.packets| ==> m.packets[j + 1] == r.packets[j];
    }
  }

  lemma NotQueued(q: seq<Request>, ip: nat)
    requires forall x :: x in q ==> x.ip != ip
    ensures IndexOf(q, ip) == |q|
  {
    assert forall i :: 0 <= i < |q| ==> q[i] in q;
    IndexOfIs(q, ip, |q|);
  }

  lemma QueuedAt(s: State, r: Request) returns (k: nat)
    requires Inv(s) && r in s.queue
    ensures k < |s.queue| && s.queue[k] == r && IndexOf(s.queue, r.ip) == k
  {
    hide Story, IndexOf;
    k :| 0 <= k < |s.queue| && s.queue[k] == r;
    IndexOfIs(s.queue, r.ip, k);
  }

  lemma HandleKeeps(r: Request, now: int)
    requires r.packets != []
    ensures Handle(r, now).keep ==
            if now - r.sent <= 1 then [r]
            else if r.timesSent < 5 then [r.(sent := now, timesSent := r.timesSent + 1)] else []
  {
  }

  lemma KeptIn(s: State, k: nat, keep: seq<Request>)
    requires Inv(s) && k < |s.queue| && |keep| <= 1 && (keep != [] ==> keep[0].ip == s.queue[k].ip)
    ensures var q' := Replaced(s.queue, k, keep);
            && (keep != [] ==> keep[0] in q')
            && (keep == [] ==> forall x :: x in q' ==> x.ip != s.queue[k].ip)
            && forall x: Request :: x.ip != s.queue[k].ip ==> (x in q' <==> x in s.queue)
  {
    hide Story, Replaced;
    var q' := Replaced(s.queue, k, keep);
    ReplacedParts(s.queue, k, keep);
    if keep != [] { assert q'[k] == keep[0]; }
    forall x | x in s.queue && x.ip != s.queue[k].ip
      ensures x in q'
    {
      var j :| 0 <= j < |s.queue| && s.queue[j] == x;
      assert q'[if j < k then j else j - 1 + |keep|] == x;
    }
  }

  /** A packet for an address that nobody has asked for makes a request, the first of the queue, which is
      broadcast at once, unless the clock stands at its beginning. */
  lemma EnqueueAsks(s: State, ip: nat, packet: Packet, now: int)
    requires forall x :: x in s.queue ==> x.ip != ip
    ensures Step(s, Enqueue(ip, packet, now)) ==
            if now > 1 then
              State([Request(s.nextId, ip, now, 1, [packet])] + s.queue, s.nextId + 1,
                    s.log + [Broadcast(s.nextId, ip, now)])
            else State([Request(s.nextId, ip, 0, 0, [packet])] + s.queue, s.nextId + 1, s.log)
  {
    hide IndexOf, Step;
    NotQueued(s.queue, ip);
    EnqueueIs(s, ip, packet, now);
    assert s.log + [] == s.log;
  }

  /** A reply sends the packets that wait for the address, in the order of their list, and nothing else;
      their request is gone, and no other. */
  lemma ReplySendsExactly(s: State, ip: nat)
    requires Inv(s)
    ensures (forall x :: x in s.queue ==> x.ip != ip) ==> Step(s, Reply(ip)) == s
    ensures forall r :: r in s.queue && r.ip == ip ==>
              var s' := Step(s, Reply(ip));
              && s.log <= s'.log
              && (var added := s'.log[|s.log|..];
                  && |added| == |r.packets| + 1 && added[|r.packets|] == Answered(r.id)
                  && forall k :: 0 <= k < |r.packets| ==> added[k] == Forward(r.packets[k]))
              && (forall x :: x in s'.queue <==> x in s.queue && x != r)
  {
    hide Inv, IndexOf;
    forall r | r in s.queue && r.ip == ip
      ensures var s' := Step(s, Reply(ip));
              && s.log <= s'.log
              && (var added := s'.log[|s.log|..];
                  && |added| == |r.packets| + 1 && added[|r.packets|] == Answered(r.id)
                  && forall k :: 0 <= k < |r.packets| ==> added[k] == Forward(r.packets[k]))
              && (forall x :: x in s'.queue <==> x in s.queue && x != r)
    {
      ReplySends(s, ip, r);
    }
    if forall x :: x in s.queue ==> x.ip != ip { NotQueued(s.queue, ip); }
  }

  lemma ReplySends(s: State, ip: nat, r: Request)
    requires Inv(s) && r in s.queue && r.ip == ip
    ensures var s' := Step(s, Reply(ip));
            && s.log <= s'.log
            && (var added := s'.log[|s.log|..];
                && |added| == |r.packets| + 1 && added[|r.packets|] == Answered(r.id)
                && forall k :: 0 <= k < |r.packets| ==> added[k] == Forward(r.packets[k]))
            && (forall x :: x in s'.queue <==> x in s.queue && x != r)
  {
    hide Story, IndexOf, Replaced, Forwards;
    var k := QueuedAt(s, r);
    UnreachablesAre(r.packets);
    KeptIn(s, k, []);
    ReplacedParts(s.queue, k, []);
    var added := Forwards(r.packets) + [Answered(r.id)];
    assert s.log + Forwards(r.packets) + [Answered(r.id)] == s.log + added;
    assert Step(s, Reply(ip)).log[|s.log|..] == added;
    forall x | x in s.queue && x != r
      ensures x.ip != ip
    {
      var j :| 0 <= j < |s.queue| && s.queue[j] == x;
    }
  }
}
