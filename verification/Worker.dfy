/** The blocking-worker protocol of libntp/ntp_worker.c, libntp/work_fork.c and
    the completion side of libntp/ntp_intres.c: a parent that queues name-service
    requests, worker processes that answer them over pipes, retries, and the idle
    timer that sends the workers home. */
module Worker {
  import opened Options
  import opened Words

  const INITIAL_DNS_RETRY := 2
  const MAX_RETRY := 64

  datatype Kind = GetAddrInfo | GetNameInfo

  /** What the resolver returned. */
  datatype Outcome = Success | EaiFail | EaiAgain | EaiNoName | EaiSystem | EaiOther

  /** A request block in the parent.  retry is the current interval; retry0 and
      tries record how it came about. */
  datatype Context = Context(kind: Kind, dns: nat, scheduled: int, earliest: int, retry: int, retry0: int, tries: nat)

  /** Messages name their request block and carry a copy of its interval, requests also
      of its start time. */
  datatype Msg = Msg(ctx: nat, retry: int, earliest: int)
  datatype Reply = Reply(ctx: nat, retry: int, outcome: Outcome)

  /** An entry of blocking_children, with its pipes' contents. */
  datatype Child =
    | Vacant
    | Worker(reusable: bool, writeOpen: bool, readOpen: bool,
             requests: seq<Msg>, working: Option<Msg>, replies: seq<Reply>, exited: bool)

  /** Parent state of one DNS worker; queued lists the start times handed out
      since the time slot was last reset. */
  datatype Dns = Dns(slot: int, queued: seq<int>)

  datatype World = World(
    perQuery: bool, children: seq<Child>, intresSlot: Option<nat>, pending: int, timer: bool,
    contexts: map<nat, Context>, nextContext: nat, fired: seq<nat>,
    dns: seq<Dns>, eaiAgainSeen: bool, now: int)

  function Init(perQuery: bool, now: int): World
  {
    World(perQuery, [], None, 0, false, map[], 0, [], if perQuery then [] else [Dns(0, [])], false, now)
  }

  // ------------------------------------------------------------- parent side

  predicate Free(c: Child) { c.Vacant? || c.reusable }

  /** Index of the first free entry from k on, or the length. */
  function FirstFree(children: seq<Child>, k: nat): (r: nat)
    requires k <= |children|
    ensures k <= r <= |children| && (r < |children| ==> Free(children[r]))
    ensures forall i :: k <= i < r ==> !Free(children[i])
    decreases |children| - k
  {
    if k == |children| || Free(children[k]) then k else FirstFree(children, k + 1)
  }

  /** available_blocking_child_slot: the array after it, and the slot. */
  function AvailableSlot(children: seq<Child>): (seq<Child>, nat)
  {
    var r := FirstFree(children, 0);
    if r == |children| then (children + [Vacant, Vacant, Vacant, Vacant], r)
    else if children[r].Vacant? then (children, r)
    else (children[r := children[r].(reusable := false)], r)
  }

  /** send_blocking_req_internal, with the fork it may need: new pipes replace
      whatever the entry had. */
  function Send(c: Child, msg: Msg): Child
  {
    var d := if c.Vacant? then Worker(false, false, false, [], None, [], false) else c;
    var forked := Worker(d.reusable, true, true, [], None, [], false);
    var e := if d.writeOpen then d else forked;
    e.(requests := e.requests + [msg])
  }

  /** The entry queue_blocking_request picks, and the array after picking it. */
  function ChosenSlot(w: World): (seq<Child>, nat)
    requires SlotInRange(w)
  {
    var search := w.perQuery || w.intresSlot.None? || Reusable(w.children[w.intresSlot.value]);
    var (children, found) := if search then AvailableSlot(w.children) else (w.children, 0);
    (children, if w.perQuery || w.intresSlot.None? then found else w.intresSlot.value)
  }

  /** queue_blocking_request */
  function Queue(w: World, msg: Msg): World
    requires SlotInRange(w)
  {
    var (children, slot) := ChosenSlot(w);
    w.(children := children[slot := Send(children[slot], msg)],
       intresSlot := if w.perQuery then w.intresSlot else Some(slot),
       timer := w.timer && (w.perQuery || w.pending != 0),
       pending := w.pending + 1)
  }

  predicate Reusable(c: Child) { c.Worker? && c.reusable }

  predicate SlotInRange(w: World) { w.intresSlot.Some? ==> w.intresSlot.value < |w.children| }

  /** The message of a request block. */
  function Request(w: World, id: nat): Msg
    requires id in w.contexts
  {
    Msg(id, w.contexts[id].retry, w.contexts[id].earliest)
  }

  /** The DNS context of a new request: a per-query request reserves its own. */
  function Reserved(w: World): (seq<Dns>, nat)
  {
    if w.perQuery then (w.dns + [Dns(0, [])], |w.dns|) else (w.dns, 0)
  }

  /** Its start time is taken from the slot of that context. */
  function HandedOut(w: World): World
    requires !w.perQuery ==> |w.dns| > 0
  {
    var (dns, idx) := Reserved(w);
    var earliest := if w.now > dns[idx].slot then w.now else dns[idx].slot;
    w.(dns := dns[idx := Dns(earliest, dns[idx].queued + [earliest])])
  }

  /** A new request block.  A name lookup starts at the initial interval. */
  function Booked(w: World, kind: Kind, retry: int): (v: World)
    requires !w.perQuery ==> |w.dns| > 0
    ensures w.nextContext in v.contexts
  {
    var v, idx := HandedOut(w), Reserved(w).1;
    var r := if kind == GetNameInfo then INITIAL_DNS_RETRY else retry;
    v.(contexts := w.contexts[w.nextContext := Context(kind, idx, w.now, v.dns[idx].slot, r, r, 0)],
       nextContext := w.nextContext + 1)
  }

  /** getaddrinfo_sometime and getnameinfo_sometime */
  function NewRequest(w: World, kind: Kind, retry: int): World
    requires SlotInRange(w) && (!w.perQuery ==> |w.dns| > 0)
  {
    var v := Booked(w, kind, retry);
    Queue(v, Request(v, w.nextContext))
  }

  /** should_retry_dns: the verdict and the remembered EAI_AGAIN. */
  function ShouldRetry(seen: bool, outcome: Outcome): (bool, bool)
  {
    match outcome
    case EaiFail => (true, seen)
    case EaiAgain => (true, true)
    case EaiNoName => (!seen, seen)
    case EaiSystem => (true, seen)
    case _ => (false, seen)
  }

  /** manage_dns_retry_interval, on the request block and on the time slot. */
  function Postponed(c: Context, slot: int, now: int): Context
  {
    var when := if now + c.retry > slot then now + c.retry else slot;
    c.(scheduled := now, earliest := when, retry := if 2 * c.retry < MAX_RETRY then 2 * c.retry else MAX_RETRY,
       tries := c.tries + 1)
  }

  /** A failed request with an interval goes again when the failure may pass. */
  predicate Retries(w: World, reply: Reply)
    requires reply.ctx in w.contexts
  {
    reply.outcome != Success && w.contexts[reply.ctx].retry > 0 && ShouldRetry(w.eaiAgainSeen, reply.outcome).0
  }

  /** What a reply does to the time slot of its DNS context: a success after retries
      resets it, and a name lookup that is given up still takes its turn. */
  function SlotAfter(w: World, reply: Reply): Dns
    requires reply.ctx in w.contexts && w.contexts[reply.ctx].dns < |w.dns|
  {
    var c := w.contexts[reply.ctx];
    var d := w.dns[c.dns];
    if reply.outcome == Success then if reply.retry > INITIAL_DNS_RETRY then Dns(w.now, []) else d
    else if c.kind == GetNameInfo && c.retry > 0 && !Retries(w, reply) then
      d.(slot := Postponed(c, d.slot, w.now).earliest)
    else d
  }

  function Settled(w: World, reply: Reply): World
    requires reply.ctx in w.contexts && w.contexts[reply.ctx].dns < |w.dns|
  {
    w.(eaiAgainSeen := ShouldRetry(w.eaiAgainSeen, reply.outcome).1,
       dns := w.dns[w.contexts[reply.ctx].dns := SlotAfter(w, reply)])
  }

  /** The completion routines.  On a retry the block goes back on the queue; else
      its callback runs, it is released, and the callback may queue more. */
  function Complete(w: World, reply: Reply, more: seq<(Kind, int)>): World
    requires reply.ctx in w.contexts && w.contexts[reply.ctx].dns < |w.dns| && SlotInRange(w)
    requires !w.perQuery ==> |w.dns| > 0
  {
    if Retries(w, reply) then Requeue(Settled(w, reply), reply.ctx)
    else CallBack(Settled(w, reply), reply.ctx, more)
  }

  /** A block postponed to its next start time. */
  function Rebooked(w: World, id: nat): (v: World)
    requires id in w.contexts && w.contexts[id].dns < |w.dns|
    ensures id in v.contexts
  {
    var c := w.contexts[id];
    var p := Postponed(c, w.dns[c.dns].slot, w.now);
    w.(contexts := w.contexts[id := p],
       dns := w.dns[c.dns := Dns(p.earliest, w.dns[c.dns].queued + [p.earliest])])
  }

  function Requeue(w: World, id: nat): World
    requires id in w.contexts && w.contexts[id].dns < |w.dns| && SlotInRange(w)
  {
    var v := Rebooked(w, id);
    Queue(v, Request(v, id))
  }

  /** The callback with the requests it makes.  The block is released after it;
      nothing a new request does depends on that. */
  function CallBack(w: World, id: nat, more: seq<(Kind, int)>): World
    requires SlotInRange(w) && (!w.perQuery ==> |w.dns| > 0)
  {
    NewRequests(w.(fired := w.fired + [id], contexts := w.contexts - {id}), more)
  }

  function NewRequests(w: World, more: seq<(Kind, int)>): World
    requires SlotInRange(w) && (!w.perQuery ==> |w.dns| > 0)
    decreases |more|
  {
    if more == [] then w
    else
      NewRequests(NewRequest(w, more[0].0, more[0].1), more[1..])
  }

  /** req_child_exit */
  function ExitRequested(c: Child): Child { if c.Worker? then c.(writeOpen := false) else c }

  /** process_blocking_resp on entry i, whose reply pipe is readable: one reply, or
      the end of file a gone worker leaves. */
  function ProcessReply(w: World, i: nat, more: seq<(Kind, int)>): World
    requires i < |w.children| && Readable(w.children[i]) && SlotInRange(w) && (!w.perQuery ==> |w.dns| > 0)
    requires w.children[i].replies != [] ==>
               var id := w.children[i].replies[0].ctx; id in w.contexts && w.contexts[id].dns < |w.dns|
  {
    var c := w.children[i];
    var w1 :=
      if c.replies != [] then
        var w0 := w.(children := w.children[i := c.(replies := c.replies[1..])], pending := w.pending - 1);
        Complete(w0, c.replies[0], more)
      else
        w.(children := w.children[i := c.(writeOpen := false, readOpen := false, reusable := true)]);
    if !w.perQuery && w1.pending == 0 then w1.(timer := true)
    else if w.perQuery && i < |w1.children| then w1.(children := w1.children[i := ExitRequested(w1.children[i])])
    else w1
  }

  predicate Readable(c: Child) { c.Worker? && c.readOpen && (c.replies != [] || c.exited) }

  /** worker_idle_timer_fired */
  function IdleFired(w: World): World
  {
    w.(timer := false, children := seq(|w.children|, i requires 0 <= i < |w.children| => ExitRequested(w.children[i])))
  }

  // --------------------------------------------------------------- invariant

  function Ids(s: seq<Msg>): seq<nat> { seq(|s|, i requires 0 <= i < |s| => s[i].ctx) }

  function ReplyIds(s: seq<Reply>): seq<nat> { seq(|s|, i requires 0 <= i < |s| => s[i].ctx) }

  /** The request blocks an entry has messages for: in its request pipe, with the
      worker, and in its reply pipe. */
  ghost function Load(c: Child): multiset<nat>
  {
    if c.Vacant? then multiset{}
    else multiset(Ids(c.requests)) + (if c.working.Some? then multiset{c.working.value.ctx} else multiset{})
         + multiset(ReplyIds(c.replies))
  }

  ghost function InFlight(children: seq<Child>): multiset<nat>
  {
    if children == [] then multiset{}
    else InFlight(children[..|children| - 1]) + Load(children[|children| - 1])
  }

  /** Messages in flight and pending count match the live request blocks, hole
      being the blocks whose message the parent has just taken. */
  ghost predicate Ledger(w: World, hole: set<nat>)
  {
    && InFlight(w.children) == multiset(w.contexts.Keys - hole)
    && w.pending == |InFlight(w.children)|
  }

  /** An entry's doors: a closed request pipe has nothing unanswered behind it. */
  ghost predicate ChildOk(c: Child, perQuery: bool)
  {
    c.Worker? ==>
      && (c.reusable ==> !c.writeOpen)
      && (!c.writeOpen ==> Load(c) == multiset{})
      && (c.writeOpen ==> c.readOpen && !c.exited)
      && (perQuery ==> |Load(c)| <= 1)
  }

  ghost predicate Doors(w: World)
  {
    && SlotInRange(w) && (forall i :: 0 <= i < |w.children| ==> ChildOk(w.children[i], w.perQuery))
    && (w.perQuery ==> w.intresSlot == None)
    && (!w.perQuery ==> forall i :: 0 <= i < |w.children| && w.intresSlot != Some(i) ==> w.children[i] == Vacant)
    && (!w.perQuery && w.intresSlot.None? ==> w.children == [])
    && (w.intresSlot.Some? ==> w.intresSlot.value == 0 && w.children[0].Worker?)
  }

  /** The interval after `tries` retries: doubled each time, up to the cap. */
  ghost predicate RetryOk(c: Context)
  {
    && (c.retry0 <= 0 ==> c.tries == 0)
    && c.retry == if c.tries == 0 then c.retry0 else Capped(c.retry0 * Pow2(c.tries))
  }

  function Capped(x: int): int { if x < MAX_RETRY then x else MAX_RETRY }

  predicate IsCopy(m: Msg, contexts: map<nat, Context>)
  {
    m.ctx in contexts && m.retry == contexts[m.ctx].retry && m.earliest == contexts[m.ctx].earliest
  }

  /** Messages carry the current interval and start time of their block. */
  ghost predicate CopiesOk(c: Child, contexts: map<nat, Context>)
  {
    c.Worker? ==>
      && (forall i :: 0 <= i < |c.requests| ==> IsCopy(c.requests[i], contexts))
      && (c.working.Some? ==> IsCopy(c.working.value, contexts))
      && (forall i :: 0 <= i < |c.replies| ==>
            c.replies[i].ctx in contexts && c.replies[i].retry == contexts[c.replies[i].ctx].retry)
  }

  ghost predicate Blocks(w: World)
  {
    && (forall id :: id in w.contexts ==> id < w.nextContext && w.contexts[id].dns < |w.dns| && RetryOk(w.contexts[id]))
    && (forall i :: 0 <= i < |w.children| ==> CopiesOk(w.children[i], w.contexts))
    && (!w.perQuery ==> |w.dns| > 0)
  }

  /** Callbacks ran for released blocks only, once each. */
  ghost predicate History(w: World)
  {
    && (forall i, j :: 0 <= i < j < |w.fired| ==> w.fired[i] != w.fired[j])
    && (forall i :: 0 <= i < |w.fired| ==> w.fired[i] < w.nextContext && w.fired[i] !in w.contexts)
  }

  /** Start times are handed out in non-decreasing order. */
  ghost predicate DnsOk(d: Dns)
  {
    && (forall i, j :: 0 <= i < j < |d.queued| ==> d.queued[i] <= d.queued[j])
    && (forall i :: 0 <= i < |d.queued| ==> d.queued[i] <= d.slot)
  }

  ghost predicate Slots(w: World) { forall i :: 0 <= i < |w.dns| ==> DnsOk(w.dns[i]) }

  ghost predicate TimerOk(w: World) { w.timer ==> !w.perQuery && w.pending == 0 }

  ghost predicate Between(w: World, hole: set<nat>)
  {
    Ledger(w, hole) && Doors(w) && Blocks(w) && History(w) && Slots(w) && TimerOk(w)
  }

  ghost predicate Inv(w: World) { Between(w, {}) }

  // ---------------------------------------------------------- counting lemmas

  lemma {:induction false} InFlightUpdate(children: seq<Child>, i: nat, c: Child)
    requires i < |children|
    ensures InFlight(children[i := c]) + Load(children[i]) == InFlight(children) + Load(c)
    decreases |children|
  {
    hide Load;
    var n := |children| - 1;
    if i < n {
      InFlightUpdate(children[..n], i, c);
      assert children[i := c][..n] == children[..n][i := c];
      var rest, rest', last := InFlight(children[..n]), InFlight(children[..n][i := c]), Load(children[n]);
      assert InFlight(children[i := c]) == rest' + last && InFlight(children) == rest + last;
      assert rest' + last + Load(children[i]) == rest' + Load(children[i]) + last;
      assert rest + last + Load(c) == rest + Load(c) + last;
    } else {
      assert children[i := c][..n] == children[..n];
    }
  }

  lemma {:induction false} LoadIn(children: seq<Child>, i: nat)
    requires i < |children|
    ensures Load(children[i]) <= InFlight(children)
    decreases |children|
  {
    hide Load;
    if i < |children| - 1 {
      LoadIn(children[..|children| - 1], i);
    }
  }

  lemma {:induction false} InFlightSame(s: seq<Child>, t: seq<Child>)
    requires |s| == |t| && forall i :: 0 <= i < |s| ==> Load(s[i]) == Load(t[i])
    ensures InFlight(s) == InFlight(t)
    decreases |s|
  {
    hide Load;
    if s != [] {
      InFlightSame(s[..|s| - 1], t[..|s| - 1]);
    }
  }

  lemma InFlightGrow(children: seq<Child>)
    ensures InFlight(children + [Vacant, Vacant, Vacant, Vacant]) == InFlight(children)
  {
    GrowOne(children);
    GrowOne(children + [Vacant]);
    GrowOne(children + [Vacant] + [Vacant]);
    GrowOne(children + [Vacant] + [Vacant] + [Vacant]);
    assert children + [Vacant, Vacant, Vacant, Vacant] == children + [Vacant] + [Vacant] + [Vacant] + [Vacant];
  }

  lemma GrowOne(children: seq<Child>)
    ensures InFlight(children + [Vacant]) == InFlight(children)
  {
    assert (children + [Vacant])[..|children|] == children;
  }

  lemma SendLoad(c: Child, msg: Msg, perQuery: bool)
    requires ChildOk(c, perQuery)
    ensures Load(Send(c, msg)) == Load(c) + multiset{msg.ctx}
    ensures Send(c, msg).Worker? && Send(c, msg).writeOpen && Send(c, msg).readOpen && !Send(c, msg).exited
  {
    if c.Worker? && c.writeOpen {
      IdsSnoc(c.requests, msg);
    } else {
      IdsSnoc([], msg);
      NoIds();
    }
    hide Ids, ReplyIds;
  }

  lemma IdsSnoc(s: seq<Msg>, msg: Msg)
    ensures Ids(s + [msg]) == Ids(s) + [msg.ctx]
  {
  }

  lemma NoIds()
    ensures Ids([]) == [] && ReplyIds([]) == []
  {
  }

  /** A block outside an entry's load is not named by its messages. */
  lemma NotNamed(c: Child, id: nat)
    requires c.Worker? && id !in Load(c)
    ensures forall k :: 0 <= k < |c.requests| ==> c.requests[k].ctx != id
    ensures c.working.Some? ==> c.working.value.ctx != id
    ensures forall k :: 0 <= k < |c.replies| ==> c.replies[k].ctx != id
  {
    forall k | 0 <= k < |c.requests|
      ensures c.requests[k].ctx != id
    {
      Member(Ids(c.requests), k);
    }
    forall k | 0 <= k < |c.replies|
      ensures c.replies[k].ctx != id
    {
      Member(ReplyIds(c.replies), k);
    }
  }

  lemma Member(s: seq<nat>, k: nat)
    requires k < |s|
    ensures s[k] in multiset(s)
  {
    assert s[k] in s;
  }

  // ----------------------------------------------------------- queueing keeps it

  lemma AvailableSlotOk(children: seq<Child>, perQuery: bool)
    requires forall i :: 0 <= i < |children| ==> ChildOk(children[i], perQuery)
    ensures var (after, r) := AvailableSlot(children);
            && r < |after| && |children| <= |after| && InFlight(after) == InFlight(children)
            && Load(after[r]) == multiset{} && (after[r].Worker? ==> !after[r].reusable && !after[r].writeOpen)
            && ChildOk(after[r], perQuery)
            && (forall i :: 0 <= i < |after| && i != r ==> after[i] == if i < |children| then children[i] else Vacant)
  {
    hide Load, InFlight;
    LoadVacant();
    InFlightGrow(children);
    var r := FirstFree(children, 0);
    if r < |children| && children[r].Worker? {
      var c := children[r].(reusable := false);
      LoadFlag(children[r]);
      InFlightUpdate(children, r, c);
      Cancel(InFlight(children[r := c]), InFlight(children), Load(c));
    }
  }

  /** Where a request goes: an entry that is in order, in an array with the same
      messages in flight. */
  lemma SlotChosen(w: World)
    requires Doors(w)
    ensures var (children, slot) := ChosenSlot(w);
            && slot < |children| && InFlight(children) == InFlight(w.children)
            && (children[slot].Worker? ==> !children[slot].reusable) && ChildOk(children[slot], w.perQuery)
            && (w.perQuery ==> Load(children[slot]) == multiset{})
            && (!w.perQuery ==> slot == 0)
            && (forall i :: 0 <= i < |children| && i != slot ==>
                  children[i] == if i < |w.children| then w.children[i] else Vacant)
            && |w.children| <= |children|
  {
    hide Load, InFlight, ChildOk;
    AvailableSlotOk(w.children, w.perQuery);
    if w.intresSlot.Some? && Reusable(w.children[0]) {
      assert FirstFree(w.children, 0) == 0;
    }
  }

  lemma Cancel(a: multiset<nat>, b: multiset<nat>, c: multiset<nat>)
    requires a + c == b + c
    ensures a == b
  {
    assert a == (a + c) - c && b == (b + c) - c;
  }

  lemma LoadVacant()
    ensures Load(Vacant) == multiset{}
  {
  }

  lemma LoadFlag(c: Child)
    requires c.Worker?
    ensures forall b :: Load(c.(reusable := b)) == Load(c)
    ensures forall b :: Load(c.(writeOpen := b)) == Load(c)
  {
  }

  lemma QueueLedger(w: World, msg: Msg)
    requires Ledger(w, {msg.ctx}) && Doors(w) && msg.ctx in w.contexts
    ensures Ledger(Queue(w, msg), {})
    ensures InFlight(Queue(w, msg).children) == InFlight(w.children) + multiset{msg.ctx}
  {
    hide Load, InFlight, ChosenSlot, Send;
    SlotChosen(w);
    var (children, slot) := ChosenSlot(w);
    var before, after := children[slot], Send(children[slot], msg);
    SendLoad(before, msg, w.perQuery);
    InFlightUpdate(children, slot, after);
    var q := Queue(w, msg);
    assert InFlight(q.children) + Load(before) == (InFlight(w.children) + multiset{msg.ctx}) + Load(before);
    Cancel(InFlight(q.children), InFlight(w.children) + multiset{msg.ctx}, Load(before));
    KeysSplit(w.contexts.Keys, msg.ctx);
  }

  lemma KeysSplit(keys: set<nat>, id: nat)
    requires id in keys
    ensures keys - {} == keys && multiset(keys) == multiset(keys - {id}) + multiset{id}
  {
    assert keys == (keys - {id}) + {id};
  }

  lemma QueueDoors(w: World, msg: Msg)
    requires Doors(w)
    ensures Doors(Queue(w, msg))
  {
    hide Load, InFlight, ChosenSlot, Send;
    SlotChosen(w);
    var (children, slot) := ChosenSlot(w);
    SendLoad(children[slot], msg, w.perQuery);
    SendFlags(children[slot], msg);
  }

  lemma SendFlags(c: Child, msg: Msg)
    ensures Send(c, msg).Worker? && Send(c, msg).reusable == (c.Worker? && c.reusable)
  {
  }

  lemma QueueBlocks(w: World, msg: Msg)
    requires Doors(w) && Blocks(w) && IsCopy(msg, w.contexts)
    ensures Blocks(Queue(w, msg))
  {
    hide Load, InFlight, ChildOk, RetryOk, CopiesOk, ChosenSlot, Send;
    SlotChosen(w);
    ChosenCopies(w);
    var (children, slot) := ChosenSlot(w);
    SendCopies(children[slot], msg, w.contexts);
  }

  lemma SendCopies(c: Child, msg: Msg, contexts: map<nat, Context>)
    requires CopiesOk(c, contexts) && IsCopy(msg, contexts)
    ensures CopiesOk(Send(c, msg), contexts)
  {
  }

  lemma ChosenCopies(w: World)
    requires Doors(w) && forall i :: 0 <= i < |w.children| ==> CopiesOk(w.children[i], w.contexts)
    ensures forall i :: 0 <= i < |ChosenSlot(w).0| ==> CopiesOk(ChosenSlot(w).0[i], w.contexts)
  {
    hide Load, InFlight, ChildOk;
  }

  /** Queueing the message of the one block in the hole closes it. */
  lemma QueueKeeps(w: World, msg: Msg)
    requires Between(w, {msg.ctx}) && IsCopy(msg, w.contexts)
    ensures Inv(Queue(w, msg)) && Queue(w, msg).pending > 0
  {
    hide Ledger, Doors, Blocks, History, Slots, TimerOk, Queue;
    Ready(w, {msg.ctx});
    QueueLedger(w, msg);
    QueueDoors(w, msg);
    QueueBlocks(w, msg);
    QueueOthers(w, msg);
  }

  lemma QueueOthers(w: World, msg: Msg)
    requires SlotInRange(w) && w.pending >= 0 && History(w) && Slots(w) && TimerOk(w)
    ensures var q := Queue(w, msg); History(q) && Slots(q) && TimerOk(q) && q.pending > 0
  {
    hide ChosenSlot, Send;
  }

  // -------------------------------------------------- requests and completions

  /** A fresh block, not yet queued. */
  lemma FreshBlock(w: World, c: Context)
    requires Inv(w) && c.dns < |w.dns| && RetryOk(c)
    ensures Between(w.(contexts := w.contexts[w.nextContext := c], nextContext := w.nextContext + 1), {w.nextContext})
  {
    hide Load, InFlight, RetryOk, ChildOk;
    var id := w.nextContext;
    assert w.contexts.Keys - {} == w.contexts[id := c].Keys - {id};
  }

  /** Handing out a start time from a slot that is in order. */
  lemma SlotHandsOut(w: World, dns: seq<Dns>, idx: nat, when: int)
    requires Inv(w) && |w.dns| <= |dns| && idx < |dns| && when >= dns[idx].slot
    requires forall i :: 0 <= i < |dns| ==> DnsOk(dns[i])
    ensures Inv(w.(dns := dns[idx := Dns(when, dns[idx].queued + [when])]))
  {
    hide Ledger, Doors, RetryOk, CopiesOk;
    SameLedger(w, w.(dns := dns[idx := Dns(when, dns[idx].queued + [when])]), {});
  }

  lemma BookedKeeps(w: World, kind: Kind, retry: int)
    requires Inv(w)
    ensures (!w.perQuery ==> |w.dns| > 0) && Between(Booked(w, kind, retry), {w.nextContext})
  {
    hide Between, RetryOk, HandedOut;
    HandedOutKeeps(w);
    var c := Booked(w, kind, retry).contexts[w.nextContext];
    FirstTry(c);
    assert w.contexts == HandedOut(w).contexts && w.nextContext == HandedOut(w).nextContext by { OnlySlots(w); }
    FreshBlock(HandedOut(w), c);
  }

  lemma OnlySlots(w: World)
    requires !w.perQuery ==> |w.dns| > 0
    ensures HandedOut(w) == w.(dns := HandedOut(w).dns)
  {
  }

  lemma HandedOutKeeps(w: World)
    requires Inv(w)
    ensures (!w.perQuery ==> |w.dns| > 0) && Inv(HandedOut(w)) && Reserved(w).1 < |HandedOut(w).dns|
  {
    hide Between, DnsOk;
    Ready(w, {});
    var (dns, idx) := Reserved(w);
    NewSlot(w, dns);
    SlotHandsOut(w, dns, idx, if w.now > dns[idx].slot then w.now else dns[idx].slot);
  }

  lemma NewSlot(w: World, dns: seq<Dns>)
    requires Inv(w) && (dns == w.dns || dns == w.dns + [Dns(0, [])])
    ensures forall i :: 0 <= i < |dns| ==> DnsOk(dns[i])
  {
    hide Ledger, Doors, Blocks, History, TimerOk;
    assert DnsOk(Dns(0, []));
    hide DnsOk;
  }

  lemma NewRequestKeeps(w: World, kind: Kind, retry: int)
    requires Inv(w)
    ensures SlotInRange(w) && (!w.perQuery ==> |w.dns| > 0) && Inv(NewRequest(w, kind, retry))
  {
    hide Between, Queue, Booked;
    Ready(w, {});
    BookedKeeps(w, kind, retry);
    QueueKeeps(Booked(w, kind, retry), Request(Booked(w, kind, retry), w.nextContext));
  }

  lemma FirstTry(c: Context)
    requires c.tries == 0 && c.retry == c.retry0
    ensures RetryOk(c)
  {
  }

  lemma {:induction false} NewRequestsKeep(w: World, more: seq<(Kind, int)>)
    requires Inv(w)
    ensures Inv(NewRequests(w, more))
    decreases |more|
  {
    hide Ledger, Blocks, History, Slots, NewRequest;
    assert SlotInRange(w) && (!w.perQuery ==> |w.dns| > 0) by { Ready(w, {}); }
    if more != [] {
      NewRequestKeeps(w, more[0].0, more[0].1);
      NewRequestsKeep(NewRequest(w, more[0].0, more[0].1), more[1..]);
    }
  }

  lemma Ready(w: World, hole: set<nat>)
    requires Between(w, hole)
    ensures SlotInRange(w) && w.pending >= 0 && (!w.perQuery ==> |w.dns| > 0)
  {
  }

  /** A retry doubles the interval, up to the cap. */
  lemma PostponedOk(c: Context, slot: int, now: int)
    requires RetryOk(c) && c.retry > 0
    ensures RetryOk(Postponed(c, slot, now)) && Postponed(c, slot, now).earliest >= slot
  {
    assert Pow2(c.tries + 1) == 2 * Pow2(c.tries);
    var x := c.retry0 * Pow2(c.tries);
    assert c.retry0 * Pow2(c.tries + 1) == 2 * x;
  }

  lemma RebookedKeeps(w: World, id: nat)
    requires Between(w, {id}) && id in w.contexts && w.contexts[id].retry > 0
    ensures w.contexts[id].dns < |w.dns| && Between(Rebooked(w, id), {id})
  {
    hide Load, InFlight, RetryOk, ChildOk, Postponed, CopiesOk;
    var c := w.contexts[id];
    PostponedOk(c, w.dns[c.dns].slot, w.now);
    SameDns(c, w.dns[c.dns].slot, w.now);
    var v := Rebooked(w, id);
    CopiesElsewhere(w, id, v.contexts);
    assert v.contexts.Keys - {id} == w.contexts.Keys - {id};
  }

  lemma RequeueKeeps(w: World, id: nat)
    requires Between(w, {id}) && id in w.contexts && w.contexts[id].retry > 0
    ensures w.contexts[id].dns < |w.dns| && SlotInRange(w) && Inv(Requeue(w, id))
  {
    hide Between, Queue, Rebooked;
    Ready(w, {id});
    RebookedKeeps(w, id);
    QueueKeeps(Rebooked(w, id), Request(Rebooked(w, id), id));
  }

  lemma SameDns(c: Context, slot: int, now: int)
    ensures Postponed(c, slot, now).dns == c.dns
  {
  }

  lemma CallBackKeeps(w: World, id: nat, more: seq<(Kind, int)>)
    requires Between(w, {id}) && id in w.contexts
    ensures Inv(CallBack(w, id, more))
  {
    hide Inv, Between, NewRequests;
    var w1 := w.(fired := w.fired + [id], contexts := w.contexts - {id});
    BlockReleased(w, id);
    NewRequestsKeep(w1, more);
  }

  lemma BlockReleased(w: World, id: nat)
    requires Between(w, {id}) && id in w.contexts
    ensures Inv(w.(fired := w.fired + [id], contexts := w.contexts - {id}))
  {
    hide Ledger, Doors, RetryOk, CopiesOk;
    CopiesElsewhere(w, id, w.contexts - {id});
    var v := w.(fired := w.fired + [id], contexts := w.contexts - {id});
    LedgerReleased(w, v, id);
  }

  lemma LedgerReleased(w: World, v: World, id: nat)
    requires Ledger(w, {id}) && Doors(w) && v == w.(fired := v.fired, contexts := w.contexts - {id})
    ensures Ledger(v, {}) && Doors(v)
  {
    hide InFlight, ChildOk;
    assert v.contexts.Keys - {} == w.contexts.Keys - {id};
  }

  /** No message names the block in the hole, so it may change or go. */
  lemma CopiesElsewhere(w: World, id: nat, contexts: map<nat, Context>)
    requires Ledger(w, {id}) && Blocks(w) && SameBut(contexts, w.contexts, id)
    ensures forall i :: 0 <= i < |w.children| ==> CopiesOk(w.children[i], contexts)
  {
    hide Load, InFlight, RetryOk, CopiesOk, SameBut;
    forall i | 0 <= i < |w.children|
      ensures CopiesOk(w.children[i], contexts)
    {
      LoadIn(w.children, i);
      OtherCopies(w.children[i], id, contexts, w.contexts);
    }
  }

  predicate SameBut(a: map<nat, Context>, b: map<nat, Context>, id: nat)
  {
    && (forall k :: k in b && k != id ==> k in a)
    && (forall k :: k in a && k != id ==> k in b && a[k] == b[k])
  }

  lemma OtherCopies(c: Child, id: nat, contexts: map<nat, Context>, before: map<nat, Context>)
    requires CopiesOk(c, before) && id !in Load(c) && SameBut(contexts, before, id)
    ensures CopiesOk(c, contexts)
  {
    if c.Worker? {
      NotNamed(c, id);
    }
    hide Load;
  }

  lemma CompleteKeeps(w: World, reply: Reply, more: seq<(Kind, int)>)
    requires Between(w, {reply.ctx}) && reply.ctx in w.contexts
    ensures Inv(Complete(w, reply, more))
  {
    SettledKeeps(w, reply);
    Ready(w, {reply.ctx});
    assert w.contexts[reply.ctx].dns < |w.dns|;
    hide Between, Requeue, CallBack, SlotAfter;
    if Retries(w, reply) {
      RequeueKeeps(Settled(w, reply), reply.ctx);
    } else {
      CallBackKeeps(Settled(w, reply), reply.ctx, more);
    }
  }

  lemma SettledKeeps(w: World, reply: Reply)
    requires Between(w, {reply.ctx}) && reply.ctx in w.contexts
    ensures Between(Settled(w, reply), {reply.ctx})
  {
    hide Ledger, Doors, RetryOk, CopiesOk, SlotAfter, DnsOk;
    SameLedger(w, Settled(w, reply), {reply.ctx});
    SlotAfterOk(w, reply);
  }

  lemma SlotAfterOk(w: World, reply: Reply)
    requires reply.ctx in w.contexts && w.contexts[reply.ctx].dns < |w.dns|
    requires DnsOk(w.dns[w.contexts[reply.ctx].dns]) && RetryOk(w.contexts[reply.ctx])
    ensures DnsOk(SlotAfter(w, reply))
  {
    var c := w.contexts[reply.ctx];
    if c.retry > 0 {
      PostponedOk(c, w.dns[c.dns].slot, w.now);
    }
    hide RetryOk, Postponed;
  }

  /** The ledger and the doors depend on the array and the blocks alone. */
  lemma SameLedger(w: World, v: World, hole: set<nat>)
    requires Ledger(w, hole) && Doors(w)
    requires v.children == w.children && v.contexts == w.contexts && v.pending == w.pending
    requires v.perQuery == w.perQuery && v.intresSlot == w.intresSlot
    ensures Ledger(v, hole) && Doors(v)
  {
  }

  // ------------------------------------------------------------ reading replies

  /** The parent takes the first reply of entry i. */
  lemma ReplyTaken(w: World, i: nat)
    requires Inv(w) && i < |w.children| && w.children[i].Worker? && w.children[i].replies != []
    ensures var c := w.children[i];
            var id := c.replies[0].ctx;
            && id in w.contexts && !w.timer && w.contexts[id].dns < |w.dns|
            && c.replies[0].retry == w.contexts[id].retry
            && Between(w.(children := w.children[i := c.(replies := c.replies[1..])], pending := w.pending - 1), {id})
            && Load(c) == Load(c.(replies := c.replies[1..])) + multiset{id}
  {
    hide Load, InFlight, RetryOk, ChildOk;
    var c := w.children[i];
    var id, d := c.replies[0].ctx, c.(replies := c.replies[1..]);
    LoadOfReplies(c);
    LoadIn(w.children, i);
    assert id in Load(c) && id in InFlight(w.children);
    assert CopiesOk(c, w.contexts);
    TakenLedger(w, i, d, id);
    TakenDoors(w, i, d, id);
    assert CopiesOk(d, w.contexts);
    hide CopiesOk, Ledger, Doors;
    assert w.pending > 0 by { PendingPositive(w, i, id); }
  }

  lemma PendingPositive(w: World, i: nat, id: nat)
    requires Ledger(w, {}) && i < |w.children| && id in Load(w.children[i])
    ensures w.pending > 0
  {
    hide Load;
    LoadIn(w.children, i);
    assert id in InFlight(w.children);
  }

  lemma LoadOfReplies(c: Child)
    requires c.Worker? && c.replies != []
    ensures Load(c) == Load(c.(replies := c.replies[1..])) + multiset{c.replies[0].ctx}
  {
    assert ReplyIds(c.replies) == [c.replies[0].ctx] + ReplyIds(c.replies[1..]);
  }

  /** Changing an entry but not what it has in flight. */
  lemma Replaced(w: World, i: nat, c: Child)
    requires Inv(w) && i < |w.children| && w.children[i].Worker? && c.Worker?
    requires Load(c) == Load(w.children[i]) && ChildOk(c, w.perQuery) && CopiesOk(c, w.contexts)
    ensures Inv(w.(children := w.children[i := c]))
  {
    hide Load, InFlight, RetryOk, CopiesOk, ChildOk;
    InFlightUpdate(w.children, i, c);
    Cancel(InFlight(w.children[i := c]), InFlight(w.children), Load(c));
  }

  lemma TakenLedger(w: World, i: nat, d: Child, id: nat)
    requires Ledger(w, {}) && i < |w.children| && id in w.contexts
    requires Load(w.children[i]) == Load(d) + multiset{id}
    ensures Ledger(w.(children := w.children[i := d], pending := w.pending - 1), {id})
  {
    hide Load, InFlight;
    InFlightUpdate(w.children, i, d);
    var a, b := InFlight(w.children[i := d]), InFlight(w.children);
    assert (a + multiset{id}) + Load(d) == b + Load(d);
    Cancel(a + multiset{id}, b, Load(d));
    var keys := w.contexts.Keys;
    KeysSplit(keys, id);
    Cancel(a, multiset(keys - {id}), multiset{id});
  }

  lemma TakenDoors(w: World, i: nat, d: Child, id: nat)
    requires Doors(w) && i < |w.children| && w.children[i].Worker? && w.children[i].replies != []
    requires d == w.children[i].(replies := w.children[i].replies[1..])
    requires Load(w.children[i]) == Load(d) + multiset{id}
    ensures Doors(w.(children := w.children[i := d], pending := w.pending - 1))
  {
    hide Load;
    assert id in Load(w.children[i]);
  }

  // In per-query mode nothing a completion queues goes to an entry still in use.

  lemma QueueElsewhere(w: World, msg: Msg, i: nat)
    requires SlotInRange(w) && w.perQuery && i < |w.children| && w.children[i].Worker? && !w.children[i].reusable
    ensures var v := Queue(w, msg); v.perQuery && i < |v.children| && v.children[i] == w.children[i] && SlotInRange(v)
  {
  }

  lemma {:induction false} NewRequestsElsewhere(w: World, more: seq<(Kind, int)>, i: nat)
    requires SlotInRange(w) && w.perQuery && i < |w.children| && w.children[i].Worker? && !w.children[i].reusable
    ensures var v := NewRequests(w, more); i < |v.children| && v.children[i] == w.children[i]
    decreases |more|
  {
    hide Queue;
    if more != [] {
      QueueElsewhere(Booked(w, more[0].0, more[0].1), Request(Booked(w, more[0].0, more[0].1), w.nextContext), i);
      NewRequestsElsewhere(NewRequest(w, more[0].0, more[0].1), more[1..], i);
    }
  }

  lemma CompleteElsewhere(w: World, reply: Reply, more: seq<(Kind, int)>, i: nat)
    requires reply.ctx in w.contexts && w.contexts[reply.ctx].dns < |w.dns| && SlotInRange(w)
    requires w.perQuery && i < |w.children| && w.children[i].Worker? && !w.children[i].reusable
    ensures var v := Complete(w, reply, more); i < |v.children| && v.children[i] == w.children[i]
  {
    hide Queue, NewRequests, Postponed;
    var id, w1 := reply.ctx, Settled(w, reply);
    if Retries(w, reply) {
      QueueElsewhere(Rebooked(w1, id), Request(Rebooked(w1, id), id), i);
    } else {
      NewRequestsElsewhere(w1.(fired := w1.fired + [id], contexts := w1.contexts - {id}), more, i);
    }
  }

  lemma ProcessReplyKeeps(w: World, i: nat, more: seq<(Kind, int)>)
    requires Inv(w) && i < |w.children| && Readable(w.children[i])
    ensures w.children[i].replies != [] ==>
              var id := w.children[i].replies[0].ctx; id in w.contexts && w.contexts[id].dns < |w.dns|
    ensures Inv(ProcessReply(w, i, more))
  {
    Ready(w, {});
    if w.children[i].replies != [] {
      AnswerKeeps(w, i, more);
    } else {
      Gone(w, i);
      hide Between;
      var v := w.(children := w.children[i := w.children[i].(writeOpen := false, readOpen := false, reusable := true)]);
      assert v.children[i := v.children[i]] == v.children;
      TimerSet(v);
    }
  }

  lemma TimerSet(w: World)
    requires Inv(w)
    ensures !w.perQuery && w.pending == 0 ==> Inv(w.(timer := true))
  {
    hide Load, InFlight, RetryOk, CopiesOk, ChildOk;
  }

  lemma AnswerKeeps(w: World, i: nat, more: seq<(Kind, int)>)
    requires Inv(w) && i < |w.children| && Readable(w.children[i]) && w.children[i].replies != []
    ensures var id := w.children[i].replies[0].ctx; id in w.contexts && w.contexts[id].dns < |w.dns|
    ensures SlotInRange(w) && (!w.perQuery ==> |w.dns| > 0)
    ensures Inv(ProcessReply(w, i, more))
  {
    hide Load, Complete, Ledger, Blocks, History, Slots, TimerOk, Doors;
    Ready(w, {});
    var c := w.children[i];
    ReplyTaken(w, i);
    var d, id := c.(replies := c.replies[1..]), c.replies[0].ctx;
    var w0 := w.(children := w.children[i := d], pending := w.pending - 1);
    CompleteKeeps(w0, c.replies[0], more);
    CompleteMode(w0, c.replies[0], more);
    var w1 := Complete(w0, c.replies[0], more);
    TimerSet(w1);
    if w.perQuery {
      AloneInPipe(w, i, id);
      CompleteElsewhere(w0, c.replies[0], more, i);
      Closed(w1, i);
    }
  }

  /** A per-query worker had just the one message, and is not up for reuse. */
  lemma AloneInPipe(w: World, i: nat, id: nat)
    requires Doors(w) && w.perQuery && i < |w.children| && w.children[i].Worker? && w.children[i].replies != []
    requires id == w.children[i].replies[0].ctx
    ensures Load(w.children[i].(replies := w.children[i].replies[1..])) == multiset{} && !w.children[i].reusable
  {
    var c := w.children[i];
    LoadOfReplies(c);
    OneReplyOnly(c, c.(replies := c.replies[1..]), id);
    hide Load;
    assert id in Load(c);
  }

  lemma OneReplyOnly(c: Child, d: Child, id: nat)
    requires Load(c) == Load(d) + multiset{id} && |Load(c)| <= 1
    ensures Load(d) == multiset{}
  {
    hide Load;
    assert |Load(d)| == 0;
  }

  lemma CompleteMode(w: World, reply: Reply, more: seq<(Kind, int)>)
    requires reply.ctx in w.contexts && w.contexts[reply.ctx].dns < |w.dns| && SlotInRange(w)
    requires !w.perQuery ==> |w.dns| > 0
    ensures Complete(w, reply, more).perQuery == w.perQuery
  {
    hide Queue, NewRequests, Postponed, SlotAfter;
    var w1 := Settled(w, reply);
    if Retries(w, reply) {
      QueueMode(Rebooked(w1, reply.ctx), Request(Rebooked(w1, reply.ctx), reply.ctx));
    } else {
      NewRequestsMode(w1.(fired := w1.fired + [reply.ctx], contexts := w1.contexts - {reply.ctx}), more);
    }
  }

  lemma QueueMode(w: World, msg: Msg)
    requires SlotInRange(w)
    ensures Queue(w, msg).perQuery == w.perQuery && Queue(w, msg).dns == w.dns
  {
    hide ChosenSlot, Send;
  }

  lemma {:induction false} NewRequestsMode(w: World, more: seq<(Kind, int)>)
    requires SlotInRange(w) && (!w.perQuery ==> |w.dns| > 0)
    ensures NewRequests(w, more).perQuery == w.perQuery
    decreases |more|
  {
    if more != [] {
      NewRequestsMode(NewRequest(w, more[0].0, more[0].1), more[1..]);
    }
  }

  /** Closing the request pipe of an entry with nothing in flight. */
  lemma Closed(w: World, i: nat)
    requires Inv(w) && i < |w.children| && Load(w.children[i]) == multiset{}
    ensures Inv(w.(children := w.children[i := ExitRequested(w.children[i])]))
  {
    hide Load, InFlight, RetryOk;
    var c := w.children[i];
    if c.Worker? {
      LoadFlag(c);
      assert ChildOk(c, w.perQuery) && CopiesOk(c, w.contexts);
      Replaced(w, i, c.(writeOpen := false));
    } else {
      assert w.children[i := c] == w.children;
    }
  }

  /** cleanup_after_child, on the end of file. */
  lemma Gone(w: World, i: nat)
    requires Inv(w) && i < |w.children| && w.children[i].Worker? && w.children[i].exited
    ensures var c := w.children[i].(writeOpen := false, readOpen := false, reusable := true);
            Inv(w.(children := w.children[i := c]))
  {
    var c := w.children[i].(writeOpen := false, readOpen := false, reusable := true);
    assert Load(c) == Load(w.children[i]);
    hide Load, InFlight, RetryOk;
    assert ChildOk(w.children[i], w.perQuery) && CopiesOk(w.children[i], w.contexts);
    Replaced(w, i, c);
  }

  // -------------------------------------------------------------- worker side

  /** receive_blocking_req_internal: the worker takes the next request. */
  lemma ReadKeeps(w: World, i: nat)
    requires Inv(w) && i < |w.children| && CanRead(w.children[i])
    ensures Inv(w.(children := w.children[i := Reading(w.children[i])]))
  {
    hide Load, InFlight, RetryOk, ChildOk, CopiesOk;
    var c := w.children[i];
    assert ChildOk(c, w.perQuery) && CopiesOk(c, w.contexts);
    hide Inv;
    Busy(w, i, c.requests[0].ctx);
    ReadingOk(c, w.perQuery, w.contexts);
    Replaced(w, i, Reading(c));
  }

  lemma ReadingOk(c: Child, perQuery: bool, contexts: map<nat, Context>)
    requires CanRead(c) && c.requests[0].ctx in Load(c) && ChildOk(c, perQuery) && CopiesOk(c, contexts)
    ensures Load(Reading(c)) == Load(c) && ChildOk(Reading(c), perQuery) && CopiesOk(Reading(c), contexts)
  {
    LoadOfReading(c);
    hide Load;
  }

  lemma LoadOfReading(c: Child)
    requires CanRead(c)
    ensures Load(Reading(c)) == Load(c)
  {
    assert Ids(c.requests) == [c.requests[0].ctx] + Ids(c.requests[1..]);
  }

  lemma Busy(w: World, i: nat, id: nat)
    requires i < |w.children| && w.children[i].Worker?
    requires (w.children[i].requests != [] && id == w.children[i].requests[0].ctx)
          || (w.children[i].working.Some? && id == w.children[i].working.value.ctx)
    ensures id in Load(w.children[i])
  {
    var c := w.children[i];
    if c.requests != [] && id == c.requests[0].ctx {
      assert Ids(c.requests)[0] == id;
      assert id in multiset(Ids(c.requests));
    }
  }

  predicate CanRead(c: Child) { c.Worker? && c.working.None? && c.requests != [] }

  function Reading(c: Child): Child
    requires CanRead(c)
  { c.(requests := c.requests[1..], working := Some(c.requests[0])) }

  /** queue_blocking_response: the answer repeats the request's block. */
  function Answered(c: Child, outcome: Outcome): Child
    requires c.Worker? && c.working.Some?
  {
    c.(working := None, replies := c.replies + [Reply(c.working.value.ctx, c.working.value.retry, outcome)])
  }

  lemma AnsweredLoad(c: Child, outcome: Outcome)
    requires c.Worker? && c.working.Some?
    ensures Load(Answered(c, outcome)) == Load(c)
  {
    assert ReplyIds(Answered(c, outcome).replies) == ReplyIds(c.replies) + [c.working.value.ctx];
  }

  lemma AnsweredChild(c: Child, outcome: Outcome, perQuery: bool)
    requires c.Worker? && c.working.Some? && ChildOk(c, perQuery)
    requires Load(Answered(c, outcome)) == Load(c) && c.working.value.ctx in Load(c)
    ensures ChildOk(Answered(c, outcome), perQuery)
  {
    hide Load;
  }

  lemma AnsweredCopies(c: Child, outcome: Outcome, contexts: map<nat, Context>)
    requires c.Worker? && c.working.Some? && CopiesOk(c, contexts)
    ensures CopiesOk(Answered(c, outcome), contexts)
  {
  }

  lemma AnsweredKeeps(w: World, i: nat, outcome: Outcome)
    requires Inv(w) && i < |w.children| && w.children[i].Worker? && w.children[i].working.Some?
    ensures Inv(w.(children := w.children[i := Answered(w.children[i], outcome)]))
  {
    hide Load, InFlight, RetryOk, ChildOk, CopiesOk;
    var c := w.children[i];
    assert ChildOk(c, w.perQuery) && CopiesOk(c, w.contexts);
    AnsweredLoad(c, outcome);
    AnsweredCopies(c, outcome, w.contexts);
    hide Inv;
    Busy(w, i, c.working.value.ctx);
    AnsweredChild(c, outcome, w.perQuery);
    Replaced(w, i, Answered(c, outcome));
  }

  /** A worker leaves when the request pipe is closed and drained. */
  predicate CanExit(c: Child)
  {
    c.Worker? && !c.writeOpen && c.readOpen && !c.exited && c.requests == [] && c.working.None?
  }

  lemma ExitKeeps(w: World, i: nat)
    requires Inv(w) && i < |w.children| && CanExit(w.children[i])
    ensures Inv(w.(children := w.children[i := w.children[i].(exited := true)]))
  {
    var c := w.children[i];
    assert Load(c.(exited := true)) == Load(c);
    hide Load, InFlight, RetryOk;
    assert ChildOk(c, w.perQuery) && CopiesOk(c, w.contexts);
    Replaced(w, i, c.(exited := true));
  }

  /** The timer is armed only while nothing at all is in flight. */
  lemma IdleMeansIdle(w: World, i: nat)
    requires Inv(w) && w.timer && i < |w.children|
    ensures InFlight(w.children) == multiset{} && Load(w.children[i]) == multiset{}
  {
    hide Load;
    LoadIn(w.children, i);
  }

  lemma IdleKeeps(w: World)
    requires Inv(w) && w.timer
    ensures Inv(IdleFired(w))
  {
    hide Load, InFlight, RetryOk;
    var v := IdleFired(w);
    forall i | 0 <= i < |w.children|
      ensures Load(v.children[i]) == Load(w.children[i])
      ensures ChildOk(v.children[i], w.perQuery) && CopiesOk(v.children[i], w.contexts)
    {
      IdleMeansIdle(w, i);
      assert ChildOk(w.children[i], w.perQuery) && CopiesOk(w.children[i], w.contexts);
      if w.children[i].Worker? {
        LoadFlag(w.children[i]);
      }
    }
    InFlightSame(v.children, w.children);
    hide CopiesOk, ChildOk;
  }

  // --------------------------------------------------------------------- runs

  datatype Event =
    | Ask(kind: Kind, retry: int)
    | WorkerReads(i: nat)
    | WorkerAnswers(i: nat, outcome: Outcome)
    | WorkerExits(i: nat)
    | ParentReads(i: nat, more: seq<(Kind, int)>)
    | TimerFires
    | Tick(seconds: nat)

  /** One step of the system; an event that cannot happen changes nothing. */
  function Step(w: World, e: Event): (v: World)
    requires Inv(w)
    ensures Inv(v)
  {
    match e
    case Ask(kind, retry) => NewRequestKeeps(w, kind, retry); NewRequest(w, kind, retry)
    case WorkerReads(i) =>
      if i < |w.children| && CanRead(w.children[i]) then
        ReadKeeps(w, i); w.(children := w.children[i := Reading(w.children[i])])
      else w
    case WorkerAnswers(i, outcome) =>
      if i < |w.children| && w.children[i].Worker? && w.children[i].working.Some? then
        AnsweredKeeps(w, i, outcome); w.(children := w.children[i := Answered(w.children[i], outcome)])
      else w
    case WorkerExits(i) =>
      if i < |w.children| && CanExit(w.children[i]) then
        ExitKeeps(w, i); w.(children := w.children[i := w.children[i].(exited := true)])
      else w
    case ParentReads(i, more) =>
      if i < |w.children| && Readable(w.children[i]) then ProcessReplyKeeps(w, i, more); ProcessReply(w, i, more) else w
    case TimerFires => if w.timer then IdleKeeps(w); IdleFired(w) else w
    case Tick(seconds) => TickKeeps(w, seconds); w.(now := w.now + seconds)
  }

  lemma TickKeeps(w: World, seconds: nat)
    requires Inv(w)
    ensures Inv(w.(now := w.now + seconds))
  {
    hide Load, InFlight, RetryOk, ChildOk, CopiesOk;
  }

  lemma InitOk(perQuery: bool, now: int)
    ensures Inv(Init(perQuery, now))
  {
  }

  function Run(perQuery: bool, now: int, events: seq<Event>): (w: World)
    ensures Inv(w)
    decreases |events|
  {
    if events == [] then InitOk(perQuery, now); Init(perQuery, now)
    else Step(Run(perQuery, now, events[..|events| - 1]), events[|events| - 1])
  }

  /** In every run: the pending count is the number of requests in the pipes, being
      worked on and answered but unread; it is also the number of live request
      blocks, each of which has exactly one message in flight; an armed idle timer
      means there are none; and a closed request pipe has nothing behind it. */
  lemma Conservation(perQuery: bool, now: int, events: seq<Event>, i: nat)
    ensures var w := Run(perQuery, now, events);
            && w.pending == |InFlight(w.children)| == |w.contexts|
            && (forall id :: id in w.contexts <==> InFlight(w.children)[id] == 1)
            && (forall id :: id !in w.contexts <==> InFlight(w.children)[id] == 0)
            && (w.timer ==> w.pending == 0)
            && (i < |w.children| && w.children[i].Worker? && !w.children[i].writeOpen ==>
                  Load(w.children[i]) == multiset{})
  {
    hide Load, InFlight, RetryOk, CopiesOk, Run;
    var w := Run(perQuery, now, events);
    assert w.contexts.Keys - {} == w.contexts.Keys;
    assert |multiset(w.contexts.Keys)| == |w.contexts.Keys|;
  }

  /** In every run: a callback ran at most once per request, and never for one
      that is still live; every message carries its block's current interval, which
      is the initial one doubled once per retry up to 64; and start times were
      handed out in non-decreasing order since the slot was last reset. */
  lemma Ownership(perQuery: bool, now: int, events: seq<Event>)
    ensures var w := Run(perQuery, now, events);
            && (forall i, j :: 0 <= i < j < |w.fired| ==> w.fired[i] != w.fired[j])
            && (forall i :: 0 <= i < |w.fired| ==> w.fired[i] !in w.contexts)
            && (forall id :: id in w.contexts ==> RetryOk(w.contexts[id]))
            && (forall i :: 0 <= i < |w.children| ==> CopiesOk(w.children[i], w.contexts))
            && (forall k, i, j :: 0 <= k < |w.dns| && 0 <= i < j < |w.dns[k].queued| ==>
                  w.dns[k].queued[i] <= w.dns[k].queued[j])
  {
    hide Load, InFlight, RetryOk, CopiesOk, Run, ChildOk;
    var w := Run(perQuery, now, events);
    assert forall k :: 0 <= k < |w.dns| ==> DnsOk(w.dns[k]);
  }

  // ---------------------------------------------------- the order of start times

  /** The messages of a request pipe and the start times handed out agree from the end. */
  predicate Aligned(requests: seq<Msg>, queued: seq<int>)
  {
    forall i, k :: 0 <= i < |requests| && 0 <= k < |queued| && |requests| - i == |queued| - k ==>
                     requests[i].earliest == queued[k]
  }

  predicate Behind(w: World, queued: seq<int>)
  {
    w.children != [] && w.children[0].Worker? ==> Aligned(w.children[0].requests, queued)
  }

  /** One worker serves all requests, in the order they were handed their start times. */
  predicate Ordered(w: World) { w.perQuery || (|w.dns| == 1 && Behind(w, w.dns[0].queued)) }

  /** The same before the message of one block, which has just got its start time. */
  predicate OrderedBut(w: World, id: nat)
    requires id in w.contexts
  {
    w.perQuery || (&& |w.dns| == 1 && w.dns[0].queued != []
                   && w.dns[0].queued[|w.dns[0].queued| - 1] == w.contexts[id].earliest
                   && Behind(w, w.dns[0].queued[..|w.dns[0].queued| - 1]))
  }

  lemma AlignedSnoc(requests: seq<Msg>, queued: seq<int>, msg: Msg)
    requires Aligned(requests, queued)
    ensures Aligned(requests + [msg], queued + [msg.earliest])
  {
  }

  lemma SendAligned(c: Child, msg: Msg, queued: seq<int>)
    requires c.Worker? ==> Aligned(c.requests, queued)
    ensures Send(c, msg).Worker? && Aligned(Send(c, msg).requests, queued + [msg.earliest])
  {
    if c.Worker? && c.writeOpen {
      AlignedSnoc(c.requests, queued, msg);
    } else {
      AlignedSnoc([], queued, msg);
    }
  }

  lemma ChosenRequests(w: World)
    requires Doors(w) && !w.perQuery && ChosenSlot(w).0 != [] && ChosenSlot(w).0[0].Worker?
    ensures w.children != [] && w.children[0].Worker? && ChosenSlot(w).0[0].requests == w.children[0].requests
  {
    hide ChildOk, Load, InFlight;
  }

  lemma QueueOrdered(w: World, msg: Msg)
    requires Between(w, {msg.ctx}) && IsCopy(msg, w.contexts) && OrderedBut(w, msg.ctx)
    ensures SlotInRange(w) && Ordered(Queue(w, msg)) && Queue(w, msg).perQuery == w.perQuery
  {
    Ready(w, {msg.ctx});
    QueueMode(w, msg);
    hide Ledger, Blocks, History, Slots, TimerOk, ChildOk, Aligned, Queue;
    if !w.perQuery {
      var queued := w.dns[0].queued;
      assert queued == queued[..|queued| - 1] + [msg.earliest];
      QueueAligned(w, msg, queued[..|queued| - 1]);
    }
  }

  lemma QueueAligned(w: World, msg: Msg, queued: seq<int>)
    requires Doors(w) && !w.perQuery && Behind(w, queued)
    ensures Behind(Queue(w, msg), queued + [msg.earliest])
  {
    SlotChosen(w);
    var (children, slot) := ChosenSlot(w);
    if children[slot].Worker? {
      ChosenRequests(w);
    }
    hide Load, InFlight, ChosenSlot, Send, ChildOk, Aligned;
    SendAligned(children[slot], msg, queued);
  }

  lemma NewRequestOrdered(w: World, kind: Kind, retry: int)
    requires Inv(w) && Ordered(w)
    ensures SlotInRange(w) && (!w.perQuery ==> |w.dns| > 0) && Ordered(NewRequest(w, kind, retry))
    ensures NewRequest(w, kind, retry).perQuery == w.perQuery
  {
    Ready(w, {});
    BookedKeeps(w, kind, retry);
    BookedOrdered(w, kind, retry);
    hide Between, Booked, Queue, Ordered;
    QueueOrdered(Booked(w, kind, retry), Request(Booked(w, kind, retry), w.nextContext));
  }

  lemma BookedOrdered(w: World, kind: Kind, retry: int)
    requires Ordered(w) && (!w.perQuery ==> |w.dns| > 0)
    ensures OrderedBut(Booked(w, kind, retry), w.nextContext) && Booked(w, kind, retry).perQuery == w.perQuery
  {
    hide Aligned;
    if !w.perQuery {
      BackOne(w.dns[0].queued, Booked(w, kind, retry).contexts[w.nextContext].earliest);
    }
  }

  lemma BackOne(queued: seq<int>, when: int)
    ensures (queued + [when])[..|queued|] == queued
  {
  }

  lemma {:induction false} NewRequestsOrdered(w: World, more: seq<(Kind, int)>)
    requires Inv(w) && Ordered(w)
    ensures SlotInRange(w) && (!w.perQuery ==> |w.dns| > 0) && Ordered(NewRequests(w, more))
    decreases |more|
  {
    Ready(w, {});
    hide Inv, Ordered, NewRequest;
    if more != [] {
      NewRequestKeeps(w, more[0].0, more[0].1);
      NewRequestOrdered(w, more[0].0, more[0].1);
      NewRequestsOrdered(NewRequest(w, more[0].0, more[0].1), more[1..]);
    }
  }

  lemma RequeueOrdered(w: World, id: nat)
    requires Between(w, {id}) && id in w.contexts && w.contexts[id].retry > 0 && Ordered(w)
    ensures w.contexts[id].dns < |w.dns| && SlotInRange(w) && Ordered(Requeue(w, id))
  {
    Ready(w, {id});
    RebookedKeeps(w, id);
    RebookedOrdered(w, id);
    hide Between, Rebooked, Queue, Ordered;
    QueueOrdered(Rebooked(w, id), Request(Rebooked(w, id), id));
  }

  lemma RebookedOrdered(w: World, id: nat)
    requires id in w.contexts && w.contexts[id].dns < |w.dns| && Ordered(w)
    ensures OrderedBut(Rebooked(w, id), id)
  {
    hide Aligned, Postponed;
    if !w.perQuery {
      BackOne(w.dns[0].queued, Rebooked(w, id).contexts[id].earliest);
    }
  }

  /** A reset empties the record, so nothing is claimed of what is still in the pipe. */
  lemma SettledOrdered(w: World, reply: Reply)
    requires reply.ctx in w.contexts && w.contexts[reply.ctx].dns < |w.dns| && Ordered(w)
    ensures Ordered(Settled(w, reply))
  {
    hide Postponed;
  }

  lemma CompleteOrdered(w: World, reply: Reply, more: seq<(Kind, int)>)
    requires Between(w, {reply.ctx}) && reply.ctx in w.contexts && Ordered(w)
    ensures Ordered(Complete(w, reply, more))
  {
    Ready(w, {reply.ctx});
    assert w.contexts[reply.ctx].dns < |w.dns|;
    SettledKeeps(w, reply);
    SettledOrdered(w, reply);
    hide Between, Requeue, SlotAfter, NewRequests, Ordered;
    var id, w1 := reply.ctx, Settled(w, reply);
    if Retries(w, reply) {
      RequeueOrdered(w1, id);
    } else {
      BlockReleased(w1, id);
      var w2 := w1.(fired := w1.fired + [id], contexts := w1.contexts - {id});
      assert Ordered(w2) by { SameOrder(w1, w2); }
      NewRequestsOrdered(w2, more);
    }
  }

  lemma SameOrder(w: World, v: World)
    requires Ordered(w) && v.perQuery == w.perQuery && v.dns == w.dns && |v.children| == |w.children|
    requires w.children != [] && v.children[0].Worker? ==>
               w.children[0].Worker? && v.children[0].requests == w.children[0].requests
    ensures Ordered(v)
  {
  }

  lemma ReplyOrdered(w: World, i: nat, more: seq<(Kind, int)>)
    requires Inv(w) && Ordered(w) && i < |w.children| && Readable(w.children[i])
    ensures Ordered(Step(w, ParentReads(i, more))) && Step(w, ParentReads(i, more)).perQuery == w.perQuery
  {
    hide Between, Complete, Ordered;
    if w.children[i].replies != [] {
      AnswerOrdered(w, i, more);
    } else {
      ProcessReplyKeeps(w, i, more);
      Ready(w, {});
      GoneOrdered(w, i, more);
    }
  }

  lemma GoneOrdered(w: World, i: nat, more: seq<(Kind, int)>)
    requires SlotInRange(w) && (!w.perQuery ==> |w.dns| > 0)
    requires Ordered(w) && i < |w.children| && Readable(w.children[i]) && w.children[i].replies == []
    ensures Ordered(ProcessReply(w, i, more)) && ProcessReply(w, i, more).perQuery == w.perQuery
  {
    hide Complete, Aligned;
  }

  lemma AnswerOrdered(w: World, i: nat, more: seq<(Kind, int)>)
    requires Inv(w) && Ordered(w) && i < |w.children| && Readable(w.children[i]) && w.children[i].replies != []
    ensures var id := w.children[i].replies[0].ctx; id in w.contexts && w.contexts[id].dns < |w.dns|
    ensures SlotInRange(w) && (!w.perQuery ==> |w.dns| > 0)
    ensures Ordered(ProcessReply(w, i, more)) && ProcessReply(w, i, more).perQuery == w.perQuery
  {
    hide Load, Complete, Between, Aligned;
    Ready(w, {});
    var c := w.children[i];
    ReplyTaken(w, i);
    var w0 := w.(children := w.children[i := c.(replies := c.replies[1..])], pending := w.pending - 1);
    CompleteOrdered(w0, c.replies[0], more);
    CompleteMode(w0, c.replies[0], more);
  }

  lemma ReadOrdered(w: World, i: nat)
    requires Ordered(w) && i < |w.children| && CanRead(w.children[i])
    ensures Ordered(w.(children := w.children[i := Reading(w.children[i])]))
  {
  }

  lemma StepOrdered(w: World, e: Event)
    requires Inv(w) && Ordered(w)
    ensures Ordered(Step(w, e)) && Step(w, e).perQuery == w.perQuery
  {
    hide Ordered, NewRequest, Between, ProcessReply;
    match e
    case Ask(kind, retry) => NewRequestOrdered(w, kind, retry);
    case WorkerReads(i) =>
      if i < |w.children| && CanRead(w.children[i]) {
        ReadOrdered(w, i);
      }
    case ParentReads(i, more) =>
      if i < |w.children| && Readable(w.children[i]) {
        ReplyOrdered(w, i, more);
      }
    case _ => SameOrder(w, Step(w, e));
  }

  lemma {:induction false} RunOrdered(perQuery: bool, now: int, events: seq<Event>)
    ensures Ordered(Run(perQuery, now, events)) && Run(perQuery, now, events).perQuery == perQuery
    decreases |events|
  {
    hide Ordered, Inv, Step;
    if events == [] {
      assert Ordered(Init(perQuery, now)) by { InitOrdered(perQuery, now); }
    } else {
      var before := events[..|events| - 1];
      RunOrdered(perQuery, now, before);
      StepOrdered(Run(perQuery, now, before), events[|events| - 1]);
    }
  }

  lemma InitOrdered(perQuery: bool, now: int)
    ensures Ordered(Init(perQuery, now))
  {
  }

  /** In every run, along every request pipe: each request carries the start time of its
      block; in per-query mode there is one request at most; and otherwise the start
      times of those queued since the slot was last reset, which are the last ones in
      the pipe, do not decrease. */
  lemma StartTimes(perQuery: bool, now: int, events: seq<Event>, i: nat)
    requires i < |Run(perQuery, now, events).children| && Run(perQuery, now, events).children[i].Worker?
    ensures var w := Run(perQuery, now, events);
            var pipe := w.children[i].requests;
            && (forall k :: 0 <= k < |pipe| ==>
                  pipe[k].ctx in w.contexts && pipe[k].earliest == w.contexts[pipe[k].ctx].earliest)
            && (perQuery ==> |pipe| <= 1)
            && (!perQuery ==> |w.dns| == 1)
            && (!perQuery ==> forall j, k :: 0 <= j < k < |pipe| && |pipe| - |w.dns[0].queued| <= j ==>
                                pipe[j].earliest <= pipe[k].earliest)
  {
    RunOrdered(perQuery, now, events);
    var w := Run(perQuery, now, events);
    hide Run, InFlight, RetryOk, Load;
    assert CopiesOk(w.children[i], w.contexts) && ChildOk(w.children[i], perQuery);
    if perQuery {
      PipeInLoad(w.children[i]);
    } else {
      assert i == 0;
      AlignedOrdered(w.children[0].requests, w.dns[0]);
    }
  }

  lemma PipeInLoad(c: Child)
    requires c.Worker?
    ensures |c.requests| <= |Load(c)|
  {
    assert |multiset(Ids(c.requests))| == |c.requests|;
  }

  lemma AlignedOrdered(requests: seq<Msg>, d: Dns)
    requires Aligned(requests, d.queued) && DnsOk(d)
    ensures forall j, k :: 0 <= j < k < |requests| && |requests| - |d.queued| <= j ==>
                             requests[j].earliest <= requests[k].earliest
  {
    forall j, k | 0 <= j < k < |requests| && |requests| - |d.queued| <= j
      ensures requests[j].earliest <= requests[k].earliest
    {
      var n := |d.queued| - |requests|;
      assert requests[j].earliest == d.queued[j + n] && requests[k].earliest == d.queued[k + n];
    }
  }

  /** The callback of one block ran, and that block alone is gone. */
  predicate Released(w: World, v: World, id: nat)
  {
    v.fired == w.fired + [id] && id !in v.contexts && w.contexts.Keys - {id} <= v.contexts.Keys
  }

  /** A step releases a request block exactly when it runs its callback: retries
      keep it. */
  lemma ReleasedOnlyByCallback(w: World, e: Event)
    requires Inv(w)
    ensures var v := Step(w, e);
            || (v.fired == w.fired && w.contexts.Keys <= v.contexts.Keys)
            || (exists id :: id in w.contexts && Released(w, v, id))
  {
    hide Load, InFlight, RetryOk, CopiesOk, ChildOk, Queue, Complete, Ledger, Doors, Blocks, History, Slots;
    Ready(w, {});
    hide Inv;
    if e.ParentReads? && e.i < |w.children| && Readable(w.children[e.i]) {
      ReplyReleases(w, e.i, e.more);
    } else {
      QueueReleases();
    }
  }

  lemma ReplyReleases(w: World, i: nat, more: seq<(Kind, int)>)
    requires Inv(w) && i < |w.children| && Readable(w.children[i])
    ensures var v := Step(w, ParentReads(i, more));
            || (v.fired == w.fired && w.contexts.Keys <= v.contexts.Keys)
            || (exists id :: id in w.contexts && Released(w, v, id))
  {
    hide Load, InFlight, RetryOk, CopiesOk, ChildOk, Queue, Complete, Ledger, Doors, History, Slots;
    Ready(w, {});
    var c := w.children[i];
    if c.replies != [] {
      ProcessReplyKeeps(w, i, more);
      var w0 := w.(children := w.children[i := c.(replies := c.replies[1..])], pending := w.pending - 1);
      CompleteReleases(w0, c.replies[0], more);
      FiredIsGone(Step(w, ParentReads(i, more)), |w.fired|);
    }
  }

  lemma FiredIsGone(w: World, k: nat)
    requires Inv(w)
    ensures k < |w.fired| ==> w.fired[k] !in w.contexts
  {
  }

  lemma QueueReleases()
    ensures forall w, msg | SlotInRange(w) :: Queue(w, msg).contexts == w.contexts && Queue(w, msg).fired == w.fired
  {
  }

  lemma {:induction false} NewRequestsRelease(w: World, more: seq<(Kind, int)>)
    requires SlotInRange(w) && (!w.perQuery ==> |w.dns| > 0)
    ensures var v := NewRequests(w, more); v.fired == w.fired && w.contexts.Keys <= v.contexts.Keys
    decreases |more|
  {
    if more != [] {
      NewRequestsRelease(NewRequest(w, more[0].0, more[0].1), more[1..]);
    }
  }

  lemma CompleteReleases(w: World, reply: Reply, more: seq<(Kind, int)>)
    requires reply.ctx in w.contexts && w.contexts[reply.ctx].dns < |w.dns| && SlotInRange(w)
    requires !w.perQuery ==> |w.dns| > 0
    ensures var v := Complete(w, reply, more);
            || (v.fired == w.fired && v.contexts.Keys == w.contexts.Keys)
            || (v.fired == w.fired + [reply.ctx] && w.contexts.Keys - {reply.ctx} <= v.contexts.Keys)
  {
    hide Requeue, CallBack, SlotAfter;
    if Retries(w, reply) {
      RequeueReleases(Settled(w, reply), reply.ctx);
    } else {
      CallBackReleases(Settled(w, reply), reply.ctx, more);
    }
  }

  lemma CallBackReleases(w: World, id: nat, more: seq<(Kind, int)>)
    requires SlotInRange(w) && (!w.perQuery ==> |w.dns| > 0)
    ensures var v := CallBack(w, id, more);
            v.fired == w.fired + [id] && w.contexts.Keys - {id} <= v.contexts.Keys
  {
    hide NewRequests;
    NewRequestsRelease(w.(fired := w.fired + [id], contexts := w.contexts - {id}), more);
  }

  lemma RequeueReleases(w: World, id: nat)
    requires id in w.contexts && w.contexts[id].dns < |w.dns| && SlotInRange(w)
    ensures var v := Requeue(w, id); v.fired == w.fired && v.contexts.Keys == w.contexts.Keys
  {
    QueueReleases();
    hide Queue, Postponed;
  }

  // --------------------------------------------------- which replies are final

  /** The event makes the parent take a reply with this outcome. */
  predicate Takes(w: World, e: Event, outcome: Outcome)
  {
    && e.ParentReads? && e.i < |w.children| && Readable(w.children[e.i]) && w.children[e.i].replies != []
    && w.children[e.i].replies[0].outcome == outcome
  }

  /** Some event of the run took a reply that says to try again. */
  ghost predicate AgainRead(perQuery: bool, now: int, events: seq<Event>)
  {
    exists k :: 0 <= k < |events| && Takes(Run(perQuery, now, events[..k]), events[k], EaiAgain)
  }

  function Later(a: int, b: int): int { if a > b then a else b }

  /** What a reply does to its block c, given whether an EAI_AGAIN was read before. */
  predicate IsFinal(c: Context, outcome: Outcome, again: bool)
  {
    || outcome == Success || outcome == EaiOther || c.retry <= 0
    || (outcome == EaiNoName && again)
  }

  lemma QueueFields(w: World, msg: Msg)
    requires SlotInRange(w)
    ensures var v := Queue(w, msg);
            && v.contexts == w.contexts && v.fired == w.fired && v.dns == w.dns
            && v.eaiAgainSeen == w.eaiAgainSeen && v.now == w.now && v.pending == w.pending + 1
  {
    hide ChosenSlot, Send;
  }

  lemma {:induction false} NewRequestsFields(w: World, more: seq<(Kind, int)>)
    requires SlotInRange(w) && (!w.perQuery ==> |w.dns| > 0)
    ensures var v := NewRequests(w, more); v.fired == w.fired && v.eaiAgainSeen == w.eaiAgainSeen
    decreases |more|
  {
    if more != [] {
      NewRequestsFields(NewRequest(w, more[0].0, more[0].1), more[1..]);
    }
  }

  /** What taking a reply for block id makes of w; more says whether the callback queues
      further requests. */
  predicate Judged(w: World, v: World, id: nat, outcome: Outcome, more: bool)
    requires id in w.contexts && w.contexts[id].dns < |w.dns|
  {
    var c := w.contexts[id];
    var slot := w.dns[c.dns].slot;
    var start := Later(w.now + c.retry, slot);
    && v.eaiAgainSeen == (w.eaiAgainSeen || outcome == EaiAgain)
    && if IsFinal(c, outcome, w.eaiAgainSeen) then
         && v.fired == w.fired + [id]
         && (!more ==> |v.dns| == |w.dns| && v.dns[c.dns].slot == FinalSlot(c, outcome, slot, w.now))
       else
         && v.fired == w.fired
         && v.contexts == w.contexts[id := c.(scheduled := w.now, earliest := start,
                                              retry := if 2 * c.retry < 64 then 2 * c.retry else 64,
                                              tries := c.tries + 1)]
         && v.dns == w.dns[c.dns := Dns(start, w.dns[c.dns].queued + [start])]
  }

  /** A success after retries resets the slot; a name lookup that is given up takes it. */
  function FinalSlot(c: Context, outcome: Outcome, slot: int, now: int): int
  {
    if outcome == Success then (if c.retry > 2 then now else slot)
    else if c.kind == GetNameInfo && c.retry > 0 then Later(now + c.retry, slot)
    else slot
  }

  lemma CompleteVerdict(w: World, reply: Reply, more: seq<(Kind, int)>)
    requires reply.ctx in w.contexts && w.contexts[reply.ctx].dns < |w.dns| && SlotInRange(w)
    requires reply.retry == w.contexts[reply.ctx].retry && (!w.perQuery ==> |w.dns| > 0)
    ensures Judged(w, Complete(w, reply, more), reply.ctx, reply.outcome, more != [])
  {
    hide Queue;
    var w1 := Settled(w, reply);
    if Retries(w, reply) {
      QueueFields(Rebooked(w1, reply.ctx), Request(Rebooked(w1, reply.ctx), reply.ctx));
    } else {
      NewRequestsFields(w1.(fired := w1.fired + [reply.ctx], contexts := w1.contexts - {reply.ctx}), more);
    }
  }

  /** A reply that says to try again is remembered, and nothing else is. */
  lemma StepSeen(w: World, e: Event)
    requires Inv(w)
    ensures Step(w, e).eaiAgainSeen <==> w.eaiAgainSeen || Takes(w, e, EaiAgain)
  {
    hide Between, Queue, Complete;
    Ready(w, {});
    if e.Ask? {
      QueueFields(Booked(w, e.kind, e.retry), Request(Booked(w, e.kind, e.retry), w.nextContext));
    }
    if e.ParentReads? && e.i < |w.children| && Readable(w.children[e.i]) && w.children[e.i].replies != [] {
      ReplyVerdict(w, e.i, e.more);
    }
    hide ProcessReply;
  }

  /** Taking a reply is completing it, on a world without it. */
  lemma ReplyVerdict(w: World, i: nat, more: seq<(Kind, int)>)
    requires Inv(w) && i < |w.children| && Readable(w.children[i]) && w.children[i].replies != []
    ensures var reply := w.children[i].replies[0];
            && reply.ctx in w.contexts && w.contexts[reply.ctx].dns < |w.dns|
            && Judged(w, Step(w, ParentReads(i, more)), reply.ctx, reply.outcome, more != [])
  {
    hide Between, Complete, Load, Judged;
    ProcessReplyKeeps(w, i, more);
    Ready(w, {});
    ReplyTaken(w, i);
    var c := w.children[i];
    var w0 := w.(children := w.children[i := c.(replies := c.replies[1..])], pending := w.pending - 1);
    CompleteVerdict(w0, c.replies[0], more);
    SameVerdict(w0, Complete(w0, c.replies[0], more), w, ProcessReply(w, i, more), c.replies[0].ctx,
                c.replies[0].outcome, more != []);
  }

  lemma SameVerdict(w0: World, v0: World, w: World, v: World, id: nat, outcome: Outcome, more: bool)
    requires id in w0.contexts && w0.contexts[id].dns < |w0.dns| && Judged(w0, v0, id, outcome, more)
    requires w0 == w.(children := w0.children, pending := w0.pending)
    requires v0 == v.(children := v0.children, timer := v0.timer)
    ensures Judged(w, v, id, outcome, more)
  {
  }

  /** The flag holds exactly when the run has read such a reply. */
  lemma {:induction false} AgainSeen(perQuery: bool, now: int, events: seq<Event>)
    ensures Run(perQuery, now, events).eaiAgainSeen <==> AgainRead(perQuery, now, events)
    decreases |events|
  {
    hide Step, Takes, Inv;
    if events != [] {
      var n := |events| - 1;
      var before := events[..n];
      AgainSeen(perQuery, now, before);
      StepSeen(Run(perQuery, now, before), events[n]);
      forall k | 0 <= k < n
        ensures before[..k] == events[..k] && before[k] == events[k]
      {
      }
    }
  }

  /** In every run, when the parent takes a reply: the callback runs, and the block goes,
      if and only if the request succeeded, failed for good, had no interval left, or named
      nobody after some EAI_AGAIN had been read; else the block goes again, an interval
      later or at the slot's time, with the interval doubled up to 64. */
  lemma Verdict(perQuery: bool, now: int, events: seq<Event>, i: nat, more: seq<(Kind, int)>)
    requires var w := Run(perQuery, now, events);
             i < |w.children| && Readable(w.children[i]) && w.children[i].replies != []
    ensures var w, v := Run(perQuery, now, events), Run(perQuery, now, events + [ParentReads(i, more)]);
            var id, outcome := w.children[i].replies[0].ctx, w.children[i].replies[0].outcome;
            && id in w.contexts && w.contexts[id].dns < |w.dns|
            && var c := w.contexts[id];
               var slot := w.dns[c.dns].slot;
               var start := if w.now + c.retry > slot then w.now + c.retry else slot;
               if outcome == Success || outcome == EaiOther || c.retry <= 0
                  || (outcome == EaiNoName && AgainRead(perQuery, now, events))
               then
                 && v.fired == w.fired + [id] && id !in v.contexts
                 && (more == [] ==> |v.dns| == |w.dns| && v.dns[c.dns].slot == FinalSlot(c, outcome, slot, w.now))
               else
                 && v.fired == w.fired && id in v.contexts
                 && v.contexts[id] == Context(c.kind, c.dns, w.now, start,
                                              if 2 * c.retry < 64 then 2 * c.retry else 64, c.retry0, c.tries + 1)
                 && |v.dns| == |w.dns| && v.dns[c.dns].slot == start
  {
    hide Inv, Step, AgainRead, Judged;
    AgainSeen(perQuery, now, events);
    var w, e := Run(perQuery, now, events), ParentReads(i, more);
    OneMore(perQuery, now, events, e);
    hide Run;
    ReplyVerdict(w, i, more);
    FiredIsGone(Step(w, e), |w.fired|);
    Spelled(w, Step(w, e), w.children[i].replies[0].ctx, w.children[i].replies[0].outcome, more != []);
  }

  lemma OneMore(perQuery: bool, now: int, events: seq<Event>, e: Event)
    ensures Run(perQuery, now, events + [e]) == Step(Run(perQuery, now, events), e)
  {
    hide Step, Inv;
    assert (events + [e])[..|events|] == events;
  }

  lemma Spelled(w: World, v: World, id: nat, outcome: Outcome, more: bool)
    requires id in w.contexts && w.contexts[id].dns < |w.dns| && Judged(w, v, id, outcome, more)
    requires |w.fired| < |v.fired| ==> v.fired[|w.fired|] !in v.contexts
    ensures var c := w.contexts[id];
            var slot := w.dns[c.dns].slot;
            var start := if w.now + c.retry > slot then w.now + c.retry else slot;
            if outcome == Success || outcome == EaiOther || c.retry <= 0
               || (outcome == EaiNoName && w.eaiAgainSeen)
            then
              && v.fired == w.fired + [id] && id !in v.contexts
              && (!more ==> |v.dns| == |w.dns| && v.dns[c.dns].slot == FinalSlot(c, outcome, slot, w.now))
            else
              && v.fired == w.fired && id in v.contexts
              && v.contexts[id] == Context(c.kind, c.dns, w.now, start,
                                           if 2 * c.retry < 64 then 2 * c.retry else 64, c.retry0, c.tries + 1)
              && |v.dns| == |w.dns| && v.dns[c.dns].slot == start
  {
  }

  /** In every run, a new request gets a block that starts now or at the slot's time, with
      its interval, 2 for a name lookup; it is counted, and the idle timer is off. */
  lemma Asked(perQuery: bool, now: int, events: seq<Event>, kind: Kind, retry: int)
    ensures var w, v := Run(perQuery, now, events), Run(perQuery, now, events + [Ask(kind, retry)]);
            && (!perQuery ==> |w.dns| == 1)
            && var slot, r := if perQuery then 0 else w.dns[0].slot, if kind == GetNameInfo then 2 else retry;
               var start := if w.now > slot then w.now else slot;
               && w.nextContext !in w.contexts
               && v.contexts == w.contexts[w.nextContext := Context(kind, if perQuery then |w.dns| else 0, w.now,
                                                                    start, r, r, 0)]
               && v.fired == w.fired && v.pending == w.pending + 1 && !v.timer
  {
    RunOrdered(perQuery, now, events);
    OneMore(perQuery, now, events, Ask(kind, retry));
    hide Run, Inv, Behind, Step;
    AskStep(Run(perQuery, now, events), kind, retry);
  }

  lemma FreshId(w: World)
    requires Inv(w)
    ensures w.nextContext !in w.contexts
  {
    hide Ledger, Doors, RetryOk, CopiesOk;
  }

  lemma AskStep(w: World, kind: Kind, retry: int)
    requires Inv(w) && Ordered(w)
    ensures var v := Step(w, Ask(kind, retry));
            var slot, r := if w.perQuery then 0 else w.dns[0].slot, if kind == GetNameInfo then 2 else retry;
            var start := if w.now > slot then w.now else slot;
            && w.nextContext !in w.contexts
            && v.contexts == w.contexts[w.nextContext := Context(kind, if w.perQuery then |w.dns| else 0, w.now,
                                                                 start, r, r, 0)]
            && v.fired == w.fired && v.pending == w.pending + 1 && !v.timer
  {
    Ready(w, {});
    FreshId(w);
    hide Between, Behind, ChosenSlot, Send, Queue;
    NewRequestKeeps(w, kind, retry);
    TimerIdle(NewRequest(w, kind, retry));
    QueueFields(Booked(w, kind, retry), Request(Booked(w, kind, retry), w.nextContext));
  }

  /** In every run, once the parent has read from entry i: with one worker for all, the
      idle timer is armed if and only if nothing is pending; in per-query mode, that
      worker has been told to leave. */
  lemma AfterReading(perQuery: bool, now: int, events: seq<Event>, i: nat, more: seq<(Kind, int)>)
    requires var w := Run(perQuery, now, events); i < |w.children| && Readable(w.children[i])
    ensures var v := Run(perQuery, now, events + [ParentReads(i, more)]);
            && (!perQuery ==> (v.timer <==> v.pending == 0))
            && (perQuery ==> i < |v.children| && v.children[i].Worker? && !v.children[i].writeOpen)
  {
    RunOrdered(perQuery, now, events);
    OneMore(perQuery, now, events, ParentReads(i, more));
    hide Run, Ordered, Inv, Step;
    ReadStep(Run(perQuery, now, events), i, more);
  }

  lemma ReadStep(w: World, i: nat, more: seq<(Kind, int)>)
    requires Inv(w) && i < |w.children| && Readable(w.children[i])
    ensures var v := Step(w, ParentReads(i, more));
            && (!w.perQuery ==> (v.timer <==> v.pending == 0))
            && (w.perQuery ==> i < |v.children| && v.children[i].Worker? && !v.children[i].writeOpen)
  {
    hide Between, Complete, Load;
    ProcessReplyKeeps(w, i, more);
    Ready(w, {});
    TimerIdle(ProcessReply(w, i, more));
    if w.children[i].replies != [] {
      AnswerStep(w, i, more);
    }
  }

  lemma AnswerStep(w: World, i: nat, more: seq<(Kind, int)>)
    requires Inv(w) && i < |w.children| && Readable(w.children[i]) && w.children[i].replies != []
    ensures var c := w.children[i];
            var w0 := w.(children := w.children[i := c.(replies := c.replies[1..])], pending := w.pending - 1);
            && c.replies[0].ctx in w0.contexts && w0.contexts[c.replies[0].ctx].dns < |w0.dns| && SlotInRange(w0)
            && (!w.perQuery ==> |w0.dns| > 0)
            && var v := Complete(w0, c.replies[0], more);
               && v.perQuery == w.perQuery
               && (w.perQuery ==> i < |v.children| && v.children[i].Worker?)
  {
    hide Between, Complete, Load;
    Ready(w, {});
    ReplyTaken(w, i);
    var c := w.children[i];
    var w0 := w.(children := w.children[i := c.(replies := c.replies[1..])], pending := w.pending - 1);
    CompleteMode(w0, c.replies[0], more);
    if w.perQuery {
      DoorsOf(w, {});
      AloneInPipe(w, i, c.replies[0].ctx);
      CompleteElsewhere(w0, c.replies[0], more, i);
    }
  }

  lemma TimerIdle(w: World)
    requires Inv(w)
    ensures w.timer ==> w.pending == 0
  {
  }

  lemma DoorsOf(w: World, hole: set<nat>)
    requires Between(w, hole)
    ensures Doors(w)
  {
  }

  /** In every run, the idle timer closes every request pipe, and changes nothing else. */
  lemma SentHome(perQuery: bool, now: int, events: seq<Event>, i: nat)
    requires Run(perQuery, now, events).timer
    ensures var w, v := Run(perQuery, now, events), Run(perQuery, now, events + [TimerFires]);
            && v == w.(timer := false, children := v.children) && |v.children| == |w.children|
            && (i < |w.children| ==> v.children[i] == if w.children[i].Vacant? then Vacant
                                                      else w.children[i].(writeOpen := false))
  {
    OneMore(perQuery, now, events, TimerFires);
    hide Run, Inv;
  }

  // ------------------------------------------------------------ first come, first served

  /** The blocks an entry has messages for, in the order the parent will hear of them. */
  function Line(c: Child): seq<nat>
  {
    if c.Vacant? then []
    else ReplyIds(c.replies) + ((if c.working.Some? then [c.working.value.ctx] else []) + Ids(c.requests))
  }

  lemma EmptyLine(c: Child)
    requires Load(c) == multiset{}
    ensures Line(c) == []
  {
    if c.Worker? {
      var a, b := ReplyIds(c.replies), Ids(c.requests);
      assert multiset(a) <= Load(c) && multiset(b) <= Load(c);
      assert a == [] by { NoMembers(a); }
      assert b == [] by { NoMembers(b); }
    }
  }

  lemma NoMembers(s: seq<nat>)
    requires multiset(s) <= multiset{}
    ensures s == []
  {
    if s != [] {
      Member(s, 0);
    }
  }

  lemma SendLine(c: Child, msg: Msg, perQuery: bool)
    requires ChildOk(c, perQuery)
    ensures Line(Send(c, msg)) == Line(c) + [msg.ctx]
  {
    if c.Worker? && c.writeOpen {
      IdsSnoc(c.requests, msg);
    } else {
      if c.Worker? {
        EmptyLine(c);
      }
      IdsSnoc([], msg);
      NoIds();
    }
    hide Ids, ReplyIds, Load;
  }

  lemma SameLine(c: Child, d: Child)
    requires c.Vacant? || d.Vacant? ==> c == d
    requires c.Worker? && d.Worker? ==> c.replies == d.replies && c.working == d.working && c.requests == d.requests
    ensures Line(c) == Line(d)
  {
  }

  lemma QueueLine(w: World, msg: Msg, i: nat)
    requires Doors(w) && i < |w.children|
    ensures var v := Queue(w, msg); i < |v.children| && Line(w.children[i]) <= Line(v.children[i])
  {
    SlotChosen(w);
    var (children, slot) := ChosenSlot(w);
    ChosenLine(w, i);
    hide Load, InFlight, ChosenSlot, Send, ChildOk, Line;
    if i == slot {
      SendLine(children[slot], msg, w.perQuery);
    }
  }

  lemma ChosenLine(w: World, i: nat)
    requires Doors(w) && i < |w.children|
    ensures i < |ChosenSlot(w).0| && Line(ChosenSlot(w).0[i]) == Line(w.children[i])
  {
    hide Load, InFlight, ChildOk, Line;
    SlotChosen(w);
    var d := ChosenSlot(w).0[i];
    SameLine(w.children[i], d);
  }

  lemma {:induction false} NewRequestsLine(w: World, more: seq<(Kind, int)>, i: nat)
    requires Inv(w) && i < |w.children|
    ensures SlotInRange(w) && (!w.perQuery ==> |w.dns| > 0)
    ensures var v := NewRequests(w, more); i < |v.children| && Line(w.children[i]) <= Line(v.children[i])
    decreases |more|
  {
    hide Between, Queue, Booked, Line;
    Ready(w, {});
    if more != [] {
      var v := Booked(w, more[0].0, more[0].1);
      BookedKeeps(w, more[0].0, more[0].1);
      DoorsOf(v, {w.nextContext});
      SameChildren(w, more[0].0, more[0].1);
      QueueLine(v, Request(v, w.nextContext), i);
      NewRequestKeeps(w, more[0].0, more[0].1);
      NewRequestsLine(NewRequest(w, more[0].0, more[0].1), more[1..], i);
    }
  }

  lemma SameChildren(w: World, kind: Kind, retry: int)
    requires !w.perQuery ==> |w.dns| > 0
    ensures Booked(w, kind, retry).children == w.children
  {
  }

  lemma CompleteLine(w: World, reply: Reply, more: seq<(Kind, int)>, i: nat)
    requires Between(w, {reply.ctx}) && reply.ctx in w.contexts && i < |w.children|
    ensures w.contexts[reply.ctx].dns < |w.dns| && SlotInRange(w) && (!w.perQuery ==> |w.dns| > 0)
    ensures var v := Complete(w, reply, more); i < |v.children| && Line(w.children[i]) <= Line(v.children[i])
  {
    Ready(w, {reply.ctx});
    assert w.contexts[reply.ctx].dns < |w.dns|;
    SettledKeeps(w, reply);
    hide Between, SlotAfter, Queue, NewRequests, Line, Postponed;
    var id, w1 := reply.ctx, Settled(w, reply);
    if Retries(w, reply) {
      RebookedKeeps(w1, id);
      DoorsOf(Rebooked(w1, id), {id});
      QueueLine(Rebooked(w1, id), Request(Rebooked(w1, id), id), i);
    } else {
      BlockReleased(w1, id);
      NewRequestsLine(w1.(fired := w1.fired + [id], contexts := w1.contexts - {id}), more, i);
    }
  }

  lemma TakenLine(c: Child)
    requires c.Worker? && c.replies != []
    ensures Line(c) != [] && Line(c)[0] == c.replies[0].ctx && Line(c.(replies := c.replies[1..])) == Line(c)[1..]
  {
    var tail := (if c.working.Some? then [c.working.value.ctx] else []) + Ids(c.requests);
    assert ReplyIds(c.replies) == [c.replies[0].ctx] + ReplyIds(c.replies[1..]);
    hide Ids, ReplyIds;
    assert Line(c) == [c.replies[0].ctx] + (ReplyIds(c.replies[1..]) + tail);
  }

  lemma ReplyLine(w: World, i: nat, more: seq<(Kind, int)>, j: nat)
    requires Inv(w) && i < |w.children| && Readable(w.children[i]) && j < |w.children|
    ensures var v := Step(w, ParentReads(i, more));
            var before := Line(w.children[j]);
            && j < |v.children|
            && (if i == j && w.children[i].replies != [] then
                  before != [] && before[0] == w.children[i].replies[0].ctx && before[1..] <= Line(v.children[j])
                else before <= Line(v.children[j]))
  {
    hide Between, Complete, Line, Load;
    ProcessReplyKeeps(w, i, more);
    Ready(w, {});
    var c := w.children[i];
    if c.replies != [] {
      var w0 := w.(children := w.children[i := c.(replies := c.replies[1..])], pending := w.pending - 1);
      ReplyTaken(w, i);
      TakenLine(c);
      CompleteLine(w0, c.replies[0], more, j);
      SameLine(Complete(w0, c.replies[0], more).children[j], ProcessReply(w, i, more).children[j]);
    } else {
      SameLine(w.children[j], ProcessReply(w, i, more).children[j]);
    }
  }

  lemma ReadingLine(c: Child)
    requires CanRead(c)
    ensures Line(Reading(c)) == Line(c)
  {
    assert Ids(c.requests) == [c.requests[0].ctx] + Ids(c.requests[1..]);
  }

  lemma AnsweredLine(c: Child, outcome: Outcome)
    requires c.Worker? && c.working.Some?
    ensures Line(Answered(c, outcome)) == Line(c)
  {
    assert ReplyIds(Answered(c, outcome).replies) == ReplyIds(c.replies) + [c.working.value.ctx];
    hide Ids, ReplyIds;
  }

  lemma StepLine(w: World, e: Event, j: nat)
    requires Inv(w) && j < |w.children|
    ensures var v := Step(w, e);
            var before := Line(w.children[j]);
            && j < |v.children|
            && (if e.ParentReads? && e.i == j && Readable(w.children[j]) && w.children[j].replies != [] then
                  before != [] && before[0] == w.children[j].replies[0].ctx && before[1..] <= Line(v.children[j])
                else before <= Line(v.children[j]))
  {
    hide Between, Line, NewRequest, ProcessReply;
    match e
    case Ask(kind, retry) => AskLine(w, kind, retry, j);
    case WorkerReads(i) =>
      if i < |w.children| && CanRead(w.children[i]) {
        ReadingLine(w.children[i]);
      }
    case WorkerAnswers(i, outcome) =>
      if i < |w.children| && w.children[i].Worker? && w.children[i].working.Some? {
        AnsweredLine(w.children[i], outcome);
      }
    case ParentReads(i, more) =>
      if i < |w.children| && Readable(w.children[i]) {
        ReplyLine(w, i, more, j);
      }
    case _ => SameLine(w.children[j], Step(w, e).children[j]);
  }

  lemma AskLine(w: World, kind: Kind, retry: int, j: nat)
    requires Inv(w) && j < |w.children|
    ensures SlotInRange(w) && (!w.perQuery ==> |w.dns| > 0)
    ensures var v := NewRequest(w, kind, retry); j < |v.children| && Line(w.children[j]) <= Line(v.children[j])
  {
    hide Between, Line, Queue, Booked;
    Ready(w, {});
    BookedKeeps(w, kind, retry);
    DoorsOf(Booked(w, kind, retry), {w.nextContext});
    SameChildren(w, kind, retry);
    QueueLine(Booked(w, kind, retry), Request(Booked(w, kind, retry), w.nextContext), j);
  }

  /** In every run, the requests of an entry are answered in the order they were made: its
      line loses only its first, when the parent takes the reply, and grows at the end. */
  lemma InOrder(perQuery: bool, now: int, events: seq<Event>, e: Event, j: nat)
    requires j < |Run(perQuery, now, events).children|
    ensures var w, v := Run(perQuery, now, events), Run(perQuery, now, events + [e]);
            var before := Line(w.children[j]);
            && j < |v.children|
            && (if e.ParentReads? && e.i == j && Readable(w.children[j]) && w.children[j].replies != [] then
                  before != [] && before[0] == w.children[j].replies[0].ctx && before[1..] <= Line(v.children[j])
                else before <= Line(v.children[j]))
  {
    OneMore(perQuery, now, events, e);
    hide Run, Inv, Line, Step;
    StepLine(Run(perQuery, now, events), e, j);
  }

  // ----------------------------------------------------------------- the code

  lemma SlotIndex(w: World)
    requires Doors(w)
    ensures ChosenSlot(w).1 < |ChosenSlot(w).0|
    ensures w.intresSlot.Some? ==> w.intresSlot.value < |ChosenSlot(w).0|
  {
    SlotChosen(w);
  }

  /** The parent's routines, on the variables they share. */
  class Parent {
    var w: World

    constructor (perQuery: bool, now: int)
      ensures w == Init(perQuery, now) && Inv(w)
    {
      InitOk(perQuery, now);
      w := Init(perQuery, now);
    }

    /** available_blocking_child_slot */
    method AvailableBlockingChildSlot() returns (slot: nat)
      modifies this
      ensures (w.children, slot) == AvailableSlot(old(w.children)) && w == old(w).(children := w.children)
      ensures slot < |w.children| && (w.children[slot].Worker? ==> !w.children[slot].reusable)
    {
      slot := 0;
      while slot < |w.children|
        invariant slot <= |w.children| && FirstFree(w.children, 0) == FirstFree(w.children, slot) && w == old(w)
      {
        if w.children[slot].Vacant? {
          return;
        }
        if w.children[slot].reusable {
          w := w.(children := w.children[slot := w.children[slot].(reusable := false)]);
          return;
        }
        slot := slot + 1;
      }
      w := w.(children := w.children + [Vacant, Vacant, Vacant, Vacant]);
    }

    /** queue_blocking_request */
    method QueueBlockingRequest(msg: Msg)
      requires Doors(w)
      modifies this
      ensures w == Queue(old(w), msg)
    {
      SlotIndex(w);
      assert SlotInRange(w);
      hide FirstFree, AvailableSlot, Send, Doors;
      var childSlot := 0;
      if w.perQuery || w.intresSlot.None? || Reusable(w.children[w.intresSlot.value]) {
        childSlot := AvailableBlockingChildSlot();
      }
      if !w.perQuery {
        if w.intresSlot.None? {
          w := w.(intresSlot := Some(childSlot));
        } else {
          childSlot := w.intresSlot.value;
        }
        if 0 == w.pending {
          w := w.(timer := false);
        }
      }
      w := w.(pending := w.pending + 1);
      w := w.(children := w.children[childSlot := Send(w.children[childSlot], msg)]);
    }

    /** worker_idle_timer_fired: every request pipe it closes is drained. */
    method WorkerIdleTimerFired()
      requires Inv(w) && w.timer
      modifies this
      ensures w == IdleFired(old(w)) && Inv(w)
      ensures forall i :: 0 <= i < |w.children| ==> Load(w.children[i]) == multiset{}
    {
      hide Load;
      IdleKeeps(w);
      ghost var after := IdleFired(w);
      w := w.(timer := false);
      var idx := 0;
      while idx < |w.children|
        invariant idx <= |w.children| == |after.children| && w == old(w).(timer := false, children := w.children)
        invariant forall i :: 0 <= i < |w.children| ==>
                    w.children[i] == if i < idx then after.children[i] else old(w.children)[i]
      {
        if w.children[idx].Worker? {
          w := w.(children := w.children[idx := w.children[idx].(writeOpen := false)]);
        }
        idx := idx + 1;
      }
      assert w.children == after.children;
      forall i | 0 <= i < |w.children|
        ensures Load(w.children[i]) == multiset{}
      {
        IdleMeansIdle(old(w), i);
        if w.children[i].Worker? {
          LoadFlag(old(w).children[i]);
        }
      }
    }

    /** process_blocking_resp; the completion routine is Complete. */
    method ProcessBlockingResp(i: nat, more: seq<(Kind, int)>)
      requires Inv(w) && i < |w.children| && Readable(w.children[i])
      modifies this
      ensures w == Step(old(w), ParentReads(i, more)) && Inv(w)
    {
      hide Complete, Load, Ledger, Blocks, History, Slots, ChildOk;
      Ready(w, {});
      ProcessReplyKeeps(w, i, more);
      var c := w.children[i];
      if c.replies != [] {
        ReplyTaken(w, i);
        w := w.(children := w.children[i := c.(replies := c.replies[1..])]);
        w := w.(pending := w.pending - 1);
        CompleteMode(w, c.replies[0], more);
        w := Complete(w, c.replies[0], more);
      } else {
        w := w.(children := w.children[i := c.(writeOpen := false, readOpen := false, reusable := true)]);
      }
      if !w.perQuery && 0 == w.pending {
        w := w.(timer := true);
      } else if w.perQuery && i < |w.children| {
        w := w.(children := w.children[i := ExitRequested(w.children[i])]);
      }
    }
  }
}
