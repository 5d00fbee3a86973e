/** The FIFO macros of include/ntp_lists.h, whose anchor keeps the address of the
    slot that points at the last entry, and the receive-buffer pool of
    libntp/recvbuff.c built on them. */
module RecvPool {
  import opened Lists

  const RECV_INC := 5

  /** A pointer to a link field: the anchor's own head, or the link of an entry. */
  datatype Slot = NoSlot | Head | Next(node: nat)

  /** A FIFO anchor and the link fields it threads. */
  datatype Fifo = Fifo(link: seq<nat>, phead: nat, pptail: Slot) {
    predicate Addresses(s: Slot) { s.Next? ==> s.node < |link| }

    /** The pointer stored in a slot. */
    function Deref(s: Slot): nat
      requires Addresses(s)
    {
      match s
      case NoSlot => NULL
      case Head => phead
      case Next(n) => link[n]
    }
  }

  /** The slot that points at the last entry of s. */
  function TailSlot(s: seq<nat>): Slot
  {
    if s == [] then NoSlot else if |s| == 1 then Head else Next(s[|s| - 2])
  }

  /** The anchor invariant: the links spell s, and pptail is the last one's slot. */
  ghost predicate FifoOk(f: Fifo, s: seq<nat>)
  {
    Chain(f.link, f.phead, s) && NoDup(s) && f.pptail == TailSlot(s)
  }

  // ------------------------------------------------------------------ macros

  /** LINK_FIFO */
  method LinkFifo(f: Fifo, n: nat, ghost s: seq<nat>) returns (r: Fifo)
    requires FifoOk(f, s) && 0 < n < |f.link| && n !in s
    ensures FifoOk(r, s + [n]) && |r.link| == |f.link|
    ensures forall k :: 0 <= k < |f.link| && k !in s + [n] ==> r.link[k] == f.link[k]
  {
    r := f.(link := f.link[n := NULL]);
    ChainFrame(f.link, r.link, f.phead, s);
    if r.pptail != NoSlot {
      TailDeref(r, s);
      var tail := r.Deref(r.pptail);
      ChainAppend(r.link, r.phead, s, n);
      r := r.(link := r.link[tail := n]);
      TailDerefSame(f.link[n := NULL], r, s, n);
      r := r.(pptail := Next(r.Deref(r.pptail)));
    } else {
      r := r.(phead := n, pptail := Head);
    }
  }

  /** UNLINK_FIFO */
  method UnlinkFifo(f: Fifo, ghost s: seq<nat>) returns (unlinked: nat, r: Fifo)
    requires FifoOk(f, s)
    ensures r.link == f.link
    ensures if s == [] then unlinked == NULL && r == f else unlinked == s[0] && FifoOk(r, s[1..])
  {
    unlinked, r := f.phead, f;
    if NULL != unlinked {
      r := r.(phead := r.link[unlinked]);
      if NULL == r.phead {
        r := r.(pptail := NoSlot);
      } else if r.pptail == Next(unlinked) {
        r := r.(pptail := Head);
      }
    }
  }

  /** UNLINK_MID_FIFO, which keeps the anchor invariant exactly when the entry is
      the head or has at least two successors. */
  method UnlinkMidFifo(f: Fifo, n: nat, ghost s: seq<nat>) returns (unlinked: nat, r: Fifo, ghost i: nat)
    requires FifoOk(f, s) && s != []
    ensures n !in s ==> unlinked == NULL && r == f
    ensures n in s ==> unlinked == n && i < |s| && s[i] == n && Chain(r.link, r.phead, Without(s, i))
    ensures n in s ==> (FifoOk(r, Without(s, i)) <==> i == 0 || i + 2 < |s|)
  {
    var slot := Head;
    i := 0;
    var found := true;
    r := f;
    assert s[0..] == s;
    while n != r.Deref(slot)
      invariant r == f && i < |s| && slot == (if i == 0 then Head else Next(s[i - 1]))
      invariant r.Addresses(slot) && r.Deref(slot) == s[i] && n !in s[..i]
      decreases |s| - i
    {
      ChainTail(f.link, f.phead, s, i);
      if r.link[r.Deref(slot)] != NULL {
        slot := Next(r.Deref(slot));
        i := i + 1;
      } else {
        found := false;
        break;
      }
    }
    if found {
      unlinked := r.Deref(slot);
      ChainTail(f.link, f.phead, s, i);
      MidRemoved(f, s, i);
      if slot == Head {
        r := r.(phead := r.link[unlinked]);
      } else {
        r := r.(link := r.link[slot.node := r.link[unlinked]]);
      }
      if NULL == r.Deref(slot) {
        r := r.(pptail := NoSlot);
      } else if r.pptail == Next(unlinked) {
        r := r.(pptail := Head);
      }
      RemoveKeepsOthers(s, i);
      MidTail(s, i);
    } else {
      unlinked := NULL;
    }
  }

  /** Taking out the second of two entries: the anchor then says the FIFO is empty. */
  method LostTail() returns (f: Fifo, r: Fifo)
    ensures FifoOk(f, [1, 2]) && Chain(r.link, r.phead, [1]) && !FifoOk(r, [1])
  {
    f := Fifo([NULL, 2, NULL], 1, Next(1));
    assert Chain(f.link, 1, [1, 2]) by {
      assert [1, 2][1..] == [2] && [2][1..] == [];
    }
    ghost var i;
    var unlinked;
    unlinked, r, i := UnlinkMidFifo(f, 2, [1, 2]);
    assert Without([1, 2], 1) == [1];
  }

  /** check_gen_fifo_consistency accepts exactly the anchors whose tail slot is
      the one of the last entry. */
  method CheckConsistency(f: Fifo, ghost s: seq<nat>) returns (ok: bool)
    requires Chain(f.link, f.phead, s)
    ensures ok <==> f.pptail == TailSlot(s)
  {
    if (f.phead == NULL) != (f.pptail == NoSlot) {
      return false;
    }
    var pptail, entry := Head, f.phead;
    ghost var i := 0;
    assert s[0..] == s;
    while entry != NULL
      invariant 0 <= i <= |s| && Chain(f.link, entry, s[i..])
      invariant pptail == if i == 0 then Head else if i < |s| then Next(s[i - 1]) else TailSlot(s)
      decreases |s| - i
    {
      assert s[i..][0] == s[i] && s[i..][1..] == s[i + 1..];
      if NULL != f.link[entry] {
        pptail := Next(entry);
      }
      entry := f.link[entry];
      i := i + 1;
    }
    ok := f.pptail == NoSlot || pptail == f.pptail;
  }

  // -------------------------------------------------------------- proof steps

  lemma TailDeref(f: Fifo, s: seq<nat>)
    requires FifoOk(f, s) && s != []
    ensures f.Addresses(f.pptail) && f.Deref(f.pptail) == s[|s| - 1] && 0 < s[|s| - 1] < |f.link|
  {
    ChainTail(f.link, f.phead, s, |s| - 1);
    if |s| > 1 {
      ChainTail(f.link, f.phead, s, |s| - 2);
    }
  }

  lemma {:induction false} ChainAppend(next: seq<nat>, p: nat, s: seq<nat>, n: nat)
    requires Chain(next, p, s) && s != [] && NoDup(s) && 0 < n < |next| && n !in s && next[n] == NULL
    ensures s[|s| - 1] < |next| && Chain(next[s[|s| - 1] := n], p, s + [n])
    decreases |s|
  {
    assert (s + [n])[1..] == s[1..] + [n];
    if |s| == 1 {
      assert Chain(next, NULL, []);
    } else {
      ChainAppend(next, next[p], s[1..], n);
    }
  }

  /** Writing the last entry's link does not move the slot that points at it. */
  lemma TailDerefSame(link: seq<nat>, r: Fifo, s: seq<nat>, n: nat)
    requires s != [] && NoDup(s) && Chain(link, r.phead, s) && r.pptail == TailSlot(s)
    requires s[|s| - 1] < |link| && r.link == link[s[|s| - 1] := n]
    ensures r.Addresses(r.pptail) && r.Deref(r.pptail) == s[|s| - 1]
  {
    TailDeref(Fifo(link, r.phead, r.pptail), s);
  }

  lemma MidRemoved(f: Fifo, s: seq<nat>, i: nat)
    requires FifoOk(f, s) && i < |s|
    ensures Within(s, |f.link|)
    ensures if i == 0 then Chain(f.link, f.link[s[0]], Without(s, 0))
            else Chain(f.link[s[i - 1] := f.link[s[i]]], f.phead, Without(s, i))
    ensures f.link[s[i]] == if i + 1 < |s| then s[i + 1] else NULL
  {
    ChainWithin(f.link, f.phead, s);
    ChainTail(f.link, f.phead, s, i);
    if i == 0 {
      assert Without(s, 0) == s[1..];
    } else {
      ChainRemove(f.link, f.phead, s, i);
    }
  }

  lemma MidTail(s: seq<nat>, i: nat)
    requires NoDup(s) && i < |s|
    ensures var t := Without(s, i);
            && (i + 1 == |s| ==> (TailSlot(t) == NoSlot <==> i == 0))
            && (i + 2 == |s| ==> TailSlot(s) == Next(s[i]) && (TailSlot(t) == Head <==> i == 0))
            && (i + 2 < |s| ==> TailSlot(t) == TailSlot(s) && TailSlot(s) != Next(s[i]))
  {
  }

  // -------------------------------------------------------------------- pool

  /** The module's variables, and the buffers' link and usage fields. */
  datatype Buffers = Buffers(
    fifo: Fifo, used: seq<int>, freeList: nat,
    nfull: nat, nfree: nat, total: nat, additions: nat, shortfall: nat)

  /** Where every buffer is, and the order in which full ones came and went. */
  datatype Shape = Shape(free: seq<nat>, full: seq<nat>, held: set<nat>, arrived: seq<nat>, left: seq<nat>)

  /** Each buffer is on the free list, in the FIFO, or held by a caller. */
  ghost predicate Placed(g: Shape, size: nat)
  {
    && NoDup(g.free) && NoDup(g.full)
    && (forall n :: 0 < n < size ==> n in g.free || n in g.full || n in g.held)
    && (forall n :: n in g.free ==> 0 < n < size && n !in g.full && n !in g.held)
    && (forall n :: n in g.full ==> 0 < n < size && n !in g.held)
    && (forall n :: n in g.held ==> 0 < n < size)
  }

  /** The usage field is 1 away from the free list and 0 on it. */
  ghost predicate UsageOk(used: seq<int>, g: Shape)
  {
    forall n :: 0 < n < |used| ==> used[n] == if n in g.free then 0 else 1
  }

  ghost predicate Ok(m: Buffers, g: Shape)
  {
    && |m.fifo.link| == |m.used| == m.total + 1
    && Placed(g, |m.used|) && UsageOk(m.used, g)
    && Chain(m.fifo.link, m.freeList, g.free) && FifoOk(m.fifo, g.full)
    && m.nfree == |g.free| && m.nfull == |g.full|
    && m.total == |g.free| + |g.full| + |g.held|
    && g.arrived == g.left + g.full
  }

  class Pool {
    var m: Buffers
    ghost var g: Shape

    ghost predicate Valid()
      reads this
    { Ok(m, g) }

    /** init_recvbuff */
    constructor (nbufs: nat)
      ensures Valid() && |g.free| == nbufs
      ensures g == Shape(g.free, [], {}, [], []) && m.total == nbufs && m.shortfall == 0 && m.additions == 1
    {
      m := Buffers(Fifo([0], NULL, NoSlot), [0], NULL, 0, 0, 0, 0, 0);
      g := Shape([], [], {}, [], []);
      new;
      CreateBuffers(nbufs);
    }

    /** create_buffers: also makes up for requests that found no buffer. */
    method CreateBuffers(nbufs: nat)
      requires Valid()
      modifies this
      ensures Valid() && g == old(g).(free := g.free) && m.shortfall == 0 && m.additions == old(m.additions) + 1
      ensures m.total == old(m.total) + nbufs + old(m.shortfall)
    {
      hide NoDup, Chain, FifoOk;
      var m, abuf := this.m, nbufs + this.m.shortfall;
      ghost var g := this.g;
      m := m.(shortfall := 0);
      for i := 0 to abuf
        invariant Ok(m, g) && g == old(this.g).(free := g.free)
        invariant m.total == old(this.m.total) + i && m.shortfall == 0 && m.additions == old(this.m.additions)
      {
        var bufp := |m.used|;
        Created(m, g);
        m := m.(fifo := m.fifo.(link := m.fifo.link + [m.freeList]), used := m.used + [0], freeList := bufp);
        m := m.(nfree := m.nfree + 1, total := m.total + 1);
        g := g.(free := [bufp] + g.free);
      }
      this.m, this.g := m.(additions := m.additions + 1), g;
    }

    /** get_free_recv_buffer */
    method GetFree() returns (buffer: nat)
      requires Valid()
      modifies this
      ensures Valid() && m.total == old(m.total)
      ensures buffer == NULL <==> old(g.free) == []
      ensures buffer == NULL ==> g == old(g) && m.shortfall == old(m.shortfall) + 1
      ensures buffer != NULL ==> m.shortfall == old(m.shortfall) && buffer == old(g.free)[0]
      ensures buffer != NULL ==> g == old(g).(free := old(g.free)[1..], held := old(g.held) + {buffer})
    {
      var m := this.m;
      buffer := m.freeList;
      if buffer != NULL {
        Taken(m, g);
        m := m.(freeList := m.fifo.link[buffer], nfree := m.nfree - 1);
        m := m.(fifo := m.fifo.(link := m.fifo.link[buffer := NULL]), used := m.used[buffer := 0]);
        m := m.(used := m.used[buffer := m.used[buffer] + 1]);
        g := g.(free := g.free[1..], held := g.held + {buffer});
      } else {
        m := m.(shortfall := m.shortfall + 1);
      }
      this.m := m;
    }

    /** freerecvbuf: its complaint about a non-zero usage count is never due. */
    method FreeBuffer(rb: nat) returns (complains: bool)
      requires Valid() && (rb == NULL || rb in g.held)
      modifies this
      ensures Valid() && m.total == old(m.total) && m.shortfall == old(m.shortfall) && (complains <==> rb == NULL)
      ensures g == if rb == NULL then old(g) else old(g).(free := [rb] + old(g.free), held := old(g.held) - {rb})
    {
      if rb == NULL {
        return true;
      }
      var m := this.m;
      Released(m, g, rb);
      m := m.(used := m.used[rb := m.used[rb] - 1]);
      complains := m.used[rb] != 0;
      m := m.(fifo := m.fifo.(link := m.fifo.link[rb := m.freeList]), freeList := rb);
      this.m := m.(nfree := m.nfree + 1);
      g := g.(free := [rb] + g.free, held := g.held - {rb});
    }

    /** add_full_recv_buffer */
    method AddFull(rb: nat)
      requires Valid() && (rb == NULL || rb in g.held)
      modifies this
      ensures Valid() && m.total == old(m.total) && m.shortfall == old(m.shortfall)
      ensures g == if rb == NULL then old(g) else
                     old(g).(full := old(g.full) + [rb], held := old(g.held) - {rb}, arrived := old(g.arrived) + [rb])
    {
      if rb == NULL {
        return;
      }
      var m := this.m;
      var fifo := LinkFifo(m.fifo, rb, g.full);
      Filled(m, g, rb, fifo);
      this.m := m.(fifo := fifo, nfull := m.nfull + 1);
      g := g.(full := g.full + [rb], held := g.held - {rb}, arrived := g.arrived + [rb]);
    }

    /** get_full_recv_buffer; with signalled I/O it first tops up the free list. */
    method GetFull(signaledIo: bool) returns (rbuf: nat)
      requires Valid()
      modifies this
      ensures Valid()
      ensures m.total == old(m.total)
                       + if signaledIo && (old(g.free) == [] || old(m.shortfall) > 0)
                         then 5 + old(m.shortfall) else 0
      ensures signaledIo ==> g.free != []
      ensures rbuf == if old(g.full) == [] then NULL else old(g.full)[0]
      ensures g == if rbuf == NULL then old(g).(free := g.free) else
                     old(g).(free := g.free, full := old(g.full)[1..], held := old(g.held) + {rbuf},
                             left := old(g.left) + [rbuf])
    {
      if signaledIo && (NULL == m.freeList || m.shortfall > 0) {
        CreateBuffers(RECV_INC);
      }
      var m := this.m;
      var fifo;
      rbuf, fifo := UnlinkFifo(m.fifo, g.full);
      m := m.(fifo := fifo);
      if rbuf != NULL {
        Emptied(this.m, g, fifo);
        m := m.(nfull := m.nfull - 1);
        g := g.(full := g.full[1..], held := g.held + {rbuf}, left := g.left + [rbuf]);
      }
      this.m := m;
    }
  }

  lemma Created(m: Buffers, g: Shape)
    requires Ok(m, g)
    ensures Ok(m.(fifo := m.fifo.(link := m.fifo.link + [m.freeList]), used := m.used + [0], freeList := |m.used|,
                  nfree := m.nfree + 1, total := m.total + 1),
               g.(free := [|m.used|] + g.free))
  {
    var link, n := m.fifo.link + [m.freeList], |m.used|;
    PushFresh(g.free, n);
    ChainFrame(m.fifo.link, link, m.freeList, g.free);
    assert ([n] + g.free)[1..] == g.free;
    ChainFrame(m.fifo.link, link, m.fifo.phead, g.full);
  }

  lemma Taken(m: Buffers, g: Shape)
    requires Ok(m, g) && m.freeList != NULL
    ensures g.free != [] && g.free[0] == m.freeList && 0 < m.freeList < |m.used| && m.nfree > 0
    ensures Ok(m.(freeList := m.fifo.link[m.freeList], nfree := m.nfree - 1, used := m.used[m.freeList := 1],
                  fifo := m.fifo.(link := m.fifo.link[m.freeList := NULL])),
               g.(free := g.free[1..], held := g.held + {g.free[0]}))
  {
    var n, link := m.freeList, m.fifo.link[m.freeList := NULL];
    assert n in g.free && n !in g.free[1..] && forall k :: k in g.free <==> k == n || k in g.free[1..];
    ChainFrame(m.fifo.link, link, m.fifo.link[n], g.free[1..]);
    ChainFrame(m.fifo.link, link, m.fifo.phead, g.full);
  }

  lemma Released(m: Buffers, g: Shape, rb: nat)
    requires Ok(m, g) && rb in g.held
    ensures rb < |m.used| && m.used[rb] == 1
    ensures Ok(m.(fifo := m.fifo.(link := m.fifo.link[rb := m.freeList]), freeList := rb, nfree := m.nfree + 1,
                  used := m.used[rb := 0]),
               g.(free := [rb] + g.free, held := g.held - {rb}))
  {
    ChainPush(m.fifo.link, m.freeList, g.free, rb);
    ChainFrame(m.fifo.link, m.fifo.link[rb := m.freeList], m.fifo.phead, g.full);
  }

  lemma Filled(m: Buffers, g: Shape, rb: nat, fifo: Fifo)
    requires Ok(m, g) && rb in g.held && FifoOk(fifo, g.full + [rb]) && |fifo.link| == |m.fifo.link|
    requires forall k :: 0 <= k < |fifo.link| && k !in g.full + [rb] ==> fifo.link[k] == m.fifo.link[k]
    ensures Ok(m.(fifo := fifo, nfull := m.nfull + 1),
               g.(full := g.full + [rb], held := g.held - {rb}, arrived := g.arrived + [rb]))
  {
    ChainFrame(m.fifo.link, fifo.link, m.freeList, g.free);
  }

  lemma Emptied(m: Buffers, g: Shape, fifo: Fifo)
    requires Ok(m, g) && g.full != [] && fifo.link == m.fifo.link && FifoOk(fifo, g.full[1..])
    ensures Ok(m.(fifo := fifo, nfull := m.nfull - 1),
               g.(full := g.full[1..], held := g.held + {g.full[0]}, left := g.left + [g.full[0]]))
  {
    var n := g.full[0];
    assert n in g.full && n !in g.full[1..] && forall k :: k in g.full <==> k == n || k in g.full[1..];
    assert g.left + g.full == g.left + [n] + g.full[1..];
  }
}
