/** The symmetric-key store of libntp/authkeys.c, entry by entry.  Entries have
    addresses; every key in use sits in one hash bucket (linked through hlink) and
    on the circular list of all keys (links lf and lb, headed at HEAD), and every
    recycled entry on the free list (linked through lf). */
module KeyStore {
  import opened Words
  import opened Lists
  import opened KeyMap

  const MEMINC := 16
  const HEAD := 1

  /** The part of an entry that is not links. */
  datatype Entry = Entry(keyid: nat, key: Key)

  const CLEARED := Entry(0, Key(false, 0, [], 0))

  /** KEYHASH */
  function KeyHash(id: nat, mask: nat): (h: nat)
    ensures h <= mask
  {
    BitAndBound(id, mask);
    BitAnd(id, mask)
  }

  lemma {:induction false} BitAndBound(a: nat, b: nat)
    ensures BitAnd(a, b) <= b
  {
    if a != 0 && b != 0 {
      BitAndBound(a / 2, b / 2);
    }
  }

  // ------------------------------------------------------------- invariants

  /** No entry is on two lists, or twice on one. */
  ghost predicate Separate(live: seq<nat>, pool: seq<nat>, size: nat)
  {
    && NoDup(live) && NoDup(pool)
    && (forall n :: n in live ==> HEAD < n < size && n !in pool)
    && (forall n :: n in pool ==> HEAD < n < size)
  }

  ghost function IdOf(info: seq<Entry>, n: nat): nat { if n < |info| then info[n].keyid else 0 }

  /** node names exactly the listed entries, each by its key id. */
  ghost predicate Index(node: map<nat, nat>, live: seq<nat>, info: seq<Entry>)
  {
    && (forall k :: k in node ==> node[k] in live && IdOf(info, node[k]) == k)
    && (forall n :: n in live ==> IdOf(info, n) in node && node[IdOf(info, n)] == n)
  }

  /** The chains hold each listed entry once, where its key id hashes to. */
  ghost predicate Housed(mask: nat, chains: seq<seq<nat>>, live: seq<nat>, info: seq<Entry>)
  {
    && |chains| == mask + 1
    && (forall b :: 0 <= b < |chains| ==> NoDup(chains[b]))
    && (forall b, n :: 0 <= b < |chains| ==>
          (n in chains[b] <==> n in live && KeyHash(IdOf(info, n), mask) == b))
  }

  /** The table and the hlink fields spell the chains. */
  ghost predicate Linked(hlink: seq<nat>, table: seq<nat>, chains: seq<seq<nat>>)
  {
    |table| == |chains| && forall b :: 0 <= b < |chains| ==> Chain(hlink, table[b], chains[b])
  }

  /** keys says what the named entries hold. */
  ghost predicate Described(node: map<nat, nat>, keys: map<nat, Key>, info: seq<Entry>)
  {
    keys.Keys == node.Keys && forall k :: k in node ==> node[k] < |info| && info[node[k]].key == keys[k]
  }

  /** The module's variables: link fields, entries, hash table, counters. */
  datatype Memory = Memory(
    hlink: seq<nat>, lf: seq<nat>, lb: seq<nat>, info: seq<Entry>,
    table: seq<nat>, mask: nat, numKeys: nat, numFree: nat, freeKeys: nat)

  /** What the memory holds: the lists it spells, and the map they stand for. */
  datatype Shape = Shape(
    live: seq<nat>, pool: seq<nat>, chains: seq<seq<nat>>, node: map<nat, nat>, keys: map<nat, Key>)

  ghost predicate Ok(m: Memory, g: Shape)
  {
    && HEAD < |m.info| == |m.lf| == |m.lb| == |m.hlink|
    && Separate(g.live, g.pool, |m.info|)
    && Segment(m.lf, m.lb, HEAD, g.live, HEAD) && Chain(m.lf, m.freeKeys, g.pool)
    && Index(g.node, g.live, m.info) && Described(g.node, g.keys, m.info)
    && Housed(m.mask, g.chains, g.live, m.info) && Linked(m.hlink, m.table, g.chains)
    && m.numKeys == |g.live| && m.numFree == |g.pool|
  }

  // ------------------------------------------------------ pure proof steps

  /** Taking the first free entry and listing it last. */
  lemma SeparateMove(live: seq<nat>, pool: seq<nat>, size: nat)
    requires Separate(live, pool, size) && pool != []
    ensures Separate(live + [pool[0]], pool[1..], size)
    ensures pool[0] !in live && pool[0] !in pool[1..] && HEAD < pool[0] < size
  {
    assert pool[0] in pool && forall n :: n in pool[1..] ==> n in pool;
  }

  /** Unlisting an entry and freeing it. */
  lemma SeparateReturn(live: seq<nat>, pool: seq<nat>, size: nat, i: nat)
    requires Separate(live, pool, size) && i < |live|
    ensures Separate(Without(live, i), [live[i]] + pool, size)
    ensures live[i] !in pool && live[i] !in Without(live, i)
  {
    RemoveKeepsOthers(live, i);
    assert live[i] in live;
    PushFresh(pool, live[i]);
    hide Without;
  }

  lemma IndexAdd(node: map<nat, nat>, live: seq<nat>, info: seq<Entry>, sk: nat, e: Entry)
    requires Index(node, live, info) && sk < |info| && sk !in live && e.keyid !in node
    ensures Index(node[e.keyid := sk], live + [sk], info[sk := e])
  {
  }

  lemma IndexRemove(node: map<nat, nat>, live: seq<nat>, info: seq<Entry>, i: nat)
    requires Index(node, live, info) && NoDup(live) && i < |live| && live[i] < |info|
    ensures Index(node - {IdOf(info, live[i])}, Without(live, i), info[live[i] := CLEARED])
  {
    RemoveKeepsOthers(live, i);
    hide Without;
  }

  lemma HousedAdd(mask: nat, chains: seq<seq<nat>>, live: seq<nat>, info: seq<Entry>, sk: nat, e: Entry)
    requires Housed(mask, chains, live, info) && sk < |info| && sk !in live
    ensures var b := KeyHash(e.keyid, mask);
            Housed(mask, chains[b := [sk] + chains[b]], live + [sk], info[sk := e])
  {
    hide KeyHash;
    var h := KeyHash(e.keyid, mask);
    var chains', live', info' := chains[h := [sk] + chains[h]], live + [sk], info[sk := e];
    assert forall b :: 0 <= b < |chains| ==> sk !in chains[b];
    PushFresh(chains[h], sk);
    forall b, n | 0 <= b < |chains'|
      ensures n in chains'[b] <==> n in live' && KeyHash(IdOf(info', n), mask) == b
    {
      assert n != sk ==> IdOf(info', n) == IdOf(info, n);
      assert n in chains'[b] <==> n in chains[b] || (n == sk && b == h);
    }
  }

  lemma HousedRemove(mask: nat, chains: seq<seq<nat>>, live: seq<nat>, info: seq<Entry>, i: nat, at: nat)
    requires Housed(mask, chains, live, info) && NoDup(live) && i < |live| && live[i] < |info|
    requires var b := KeyHash(IdOf(info, live[i]), mask); at < |chains[b]| && chains[b][at] == live[i]
    ensures var b := KeyHash(IdOf(info, live[i]), mask);
            Housed(mask, chains[b := Without(chains[b], at)], Without(live, i), info[live[i] := CLEARED])
  {
    var b := KeyHash(IdOf(info, live[i]), mask);
    RemoveKeepsOthers(live, i);
    RemoveKeepsOthers(chains[b], at);
    hide KeyHash, Without, NoDup;
    var chains', live', info' := chains[b := Without(chains[b], at)], Without(live, i), info[live[i] := CLEARED];
    forall c, n | 0 <= c < |chains'|
      ensures n in chains'[c] <==> n in live' && KeyHash(IdOf(info', n), mask) == c
    {
      assert n != live[i] ==> IdOf(info', n) == IdOf(info, n);
      assert n in live' <==> n in live && n != live[i];
      assert c != b ==> chains'[c] == chains[c];
    }
  }

  /** Changing a key but not its id disturbs nothing. */
  lemma PayloadUpdate(node: map<nat, nat>, mask: nat, chains: seq<seq<nat>>, live: seq<nat>, info: seq<Entry>,
                      sk: nat, k: Key)
    requires Index(node, live, info) && Housed(mask, chains, live, info) && sk < |info|
    ensures Index(node, live, info[sk := info[sk].(key := k)])
    ensures Housed(mask, chains, live, info[sk := info[sk].(key := k)])
  {
    hide KeyHash, NoDup;
  }

  lemma LinkedPush(hlink: seq<nat>, table: seq<nat>, chains: seq<seq<nat>>, b: nat, sk: nat)
    requires Linked(hlink, table, chains) && b < |chains| && 0 < sk < |hlink|
    requires forall c :: 0 <= c < |chains| ==> sk !in chains[c]
    ensures |table| == |chains|
    ensures Linked(hlink[sk := table[b]], table[b := sk], chains[b := [sk] + chains[b]])
  {
    var hlink', table', chains' := hlink[sk := table[b]], table[b := sk], chains[b := [sk] + chains[b]];
    forall c | 0 <= c < |chains|
      ensures Chain(hlink', table'[c], chains'[c])
    {
      if c == b {
        ChainPush(hlink, table[b], chains[b], sk);
      } else {
        ChainFrame(hlink, hlink', table[c], chains[c]);
      }
    }
  }

  /** Splicing one chain leaves the others, which share no entry with it. */
  lemma LinkedRemove(hlink: seq<nat>, hlink': seq<nat>, table: seq<nat>, chains: seq<seq<nat>>, b: nat, at: nat, p: nat)
    requires Linked(hlink, table, chains) && b < |chains| && at < |chains[b]| && |hlink'| == |hlink|
    requires Chain(hlink', p, Without(chains[b], at))
    requires forall c, n :: 0 <= c < |chains| && c != b && n in chains[c] ==> n !in chains[b]
    requires forall n :: 0 <= n < |hlink| && n !in chains[b] ==> hlink'[n] == hlink[n]
    ensures Linked(hlink', table[b := p], chains[b := Without(chains[b], at)])
  {
    forall c | 0 <= c < |chains| && c != b
      ensures Chain(hlink', table[c], chains[c])
    {
      ChainFrame(hlink, hlink', table[c], chains[c]);
    }
  }

  /** The key with a given id is in the bucket it hashes to, or nowhere. */
  lemma BucketOf(mask: nat, chains: seq<seq<nat>>, live: seq<nat>, info: seq<Entry>, node: map<nat, nat>, id: nat)
    requires Housed(mask, chains, live, info) && Index(node, live, info)
    ensures var b := KeyHash(id, mask);
            && (id in node ==> node[id] in chains[b])
            && (forall n :: n in chains[b] && IdOf(info, n) == id ==> id in node && node[id] == n)
  {
    hide KeyHash, NoDup;
  }

  lemma DescribedFrame(node: map<nat, nat>, live: seq<nat>, keys: map<nat, Key>, info: seq<Entry>, info': seq<Entry>)
    requires Index(node, live, info) && Described(node, keys, info) && |info| <= |info'|
    requires forall n :: n in live && n < |info| ==> info'[n] == info[n]
    ensures Described(node, keys, info')
  {
  }

  /** A larger arena holds the same structures. */
  lemma GrowRecords(m: Memory, g: Shape, info: seq<Entry>)
    requires Ok(m, g) && m.info <= info
    ensures Separate(g.live, g.pool, |info|) && Index(g.node, g.live, info) && Housed(m.mask, g.chains, g.live, info)
    ensures forall k :: k in g.live ==> IdOf(info, k) == IdOf(m.info, k)
  {
    hide KeyHash, NoDup, Segment, Chain, Described, Linked;
  }

  lemma Grow(m: Memory, g: Shape, n: nat)
    requires Ok(m, g)
    ensures var zeros := seq(n, _ => NULL);
            Ok(m.(hlink := m.hlink + zeros, lf := m.lf + zeros, lb := m.lb + zeros,
                  info := m.info + seq(n, _ => CLEARED)), g)
  {
    hide KeyHash, NoDup, Segment, Chain, Index, Described, Housed, Linked;
    var zeros, info' := seq(n, _ => NULL), m.info + seq(n, _ => CLEARED);
    GrowRecords(m, g, info');
    DescribedFrame(g.node, g.live, g.keys, m.info, info');
    SegmentFrame(m.lf, m.lb, m.lf + zeros, m.lb + zeros, HEAD, g.live, HEAD);
    ChainFrame(m.lf, m.lf + zeros, m.freeKeys, g.pool);
    GrowLinks(m.hlink, m.table, g.chains, zeros);
  }

  lemma GrowLinks(hlink: seq<nat>, table: seq<nat>, chains: seq<seq<nat>>, more: seq<nat>)
    requires Linked(hlink, table, chains)
    ensures Linked(hlink + more, table, chains)
  {
    forall b | 0 <= b < |chains|
      ensures Chain(hlink + more, table[b], chains[b])
    {
      ChainFrame(hlink, hlink + more, table[b], chains[b]);
    }
  }

  /** Linking an unused entry into the free list. */
  lemma FreeOne(lf: seq<nat>, lb: seq<nat>, live: seq<nat>, p: nat, pool: seq<nat>, sk: nat)
    requires Segment(lf, lb, HEAD, live, HEAD) && Chain(lf, p, pool) && Separate(live, pool, |lf|)
    requires HEAD < sk < |lf| && sk !in live && sk !in pool
    ensures Segment(lf[sk := p], lb, HEAD, live, HEAD) && Chain(lf[sk := p], sk, [sk] + pool)
    ensures Separate(live, [sk] + pool, |lf|)
  {
    ChainPush(lf, p, pool, sk);
    SegmentFrame(lf, lb, lf[sk := p], lb, HEAD, live, HEAD);
    PushFresh(pool, sk);
  }

  lemma NotHoused(mask: nat, chains: seq<seq<nat>>, live: seq<nat>, info: seq<Entry>, sk: nat)
    requires Housed(mask, chains, live, info) && sk !in live
    ensures |chains| == mask + 1 && forall c :: 0 <= c < |chains| ==> sk !in chains[c]
  {
  }

  class Store {
    var m: Memory
    var keyExpired: nat
    var cache: Cache
    ghost var g: Shape

    ghost predicate Valid()
      reads this
    { Ok(m, g) }

    /** The state the store stands for. */
    ghost function Model(): State
      reads this
    { State(g.keys, cache) }

    /** init_auth */
    constructor (buckets: nat)
      requires buckets > 0
      ensures Valid() && Model() == EMPTY && m.numFree == 0 && m.mask == buckets - 1
    {
      m := Memory([0, 0], [0, HEAD], [0, HEAD], [CLEARED, CLEARED], seq(buckets, _ => NULL), buckets - 1, 0, 0, NULL);
      keyExpired := 0;
      cache := EMPTY.cache;
      g := Shape([], [], seq(buckets, _ => []), map[], map[]);
    }

    /** auth_findkey */
    method FindKey(id: nat) returns (sk: nat)
      requires Valid()
      ensures sk == if id in g.keys then g.node[id] else NULL
      ensures id in g.keys ==> HEAD < sk < |m.info| && m.info[sk] == Entry(id, g.keys[id]) && sk in g.live
    {
      hide KeyHash, NoDup, Segment;
      var m := this.m;
      ghost var s := g.chains[KeyHash(id, m.mask)];
      BucketOf(m.mask, g.chains, g.live, m.info, g.node, id);
      sk := m.table[KeyHash(id, m.mask)];
      ghost var i := 0;
      assert s[0..] == s;
      while sk != NULL
        invariant 0 <= i <= |s| && Chain(m.hlink, sk, s[i..])
        invariant forall j :: 0 <= j < i ==> IdOf(m.info, s[j]) != id
        decreases |s| - i
      {
        assert sk == s[i..][0] == s[i] && s[i] in s;
        if m.info[sk].keyid == id {
          return;
        }
        sk := m.hlink[sk];
        assert s[i..][1..] == s[i + 1..];
        i := i + 1;
      }
    }

    /** auth_moremem */
    method MoreMem(keycount: int)
      requires Valid()
      modifies this`m, this`g
      ensures Valid() && g == old(g).(pool := g.pool) && m.mask == old(m.mask) && m.numKeys == old(m.numKeys)
      ensures m.numFree == old(m.numFree) + if keycount > 0 then keycount else MEMINC
    {
      hide KeyHash, NoDup, Segment, Chain, Linked, Housed, Index, Described;
      var i := if keycount > 0 then keycount else MEMINC;
      var m, sk := this.m, |this.m.info|;
      ghost var g := this.g;
      Grow(m, g, i);
      var zeros := seq(i, _ => NULL);
      m := m.(hlink := m.hlink + zeros, lf := m.lf + zeros, lb := m.lb + zeros, info := m.info + seq(i, _ => CLEARED));
      while i > 0
        invariant 0 <= i && sk + i == |m.info| && HEAD < sk
        invariant m.numFree == |g.pool| == old(this.m.numFree) + (if keycount > 0 then keycount else MEMINC) - i
        invariant Ok(m, g) && (forall n :: n in g.pool || n in g.live ==> n < sk)
        invariant g == old(this.g).(pool := g.pool) && m.mask == old(this.m.mask) && m.numKeys == old(this.m.numKeys)
      {
        FreeOne(m.lf, m.lb, g.live, m.freeKeys, g.pool, sk);
        m := m.(lf := m.lf[sk := m.freeKeys], freeKeys := sk, numFree := m.numFree + 1);
        g := g.(pool := [sk] + g.pool);
        i, sk := i - 1, sk + 1;
      }
      this.m, this.g := m, g;
    }

    /** allocsymkey: take an entry off the free list (making some first when
        there is none) and link it into its bucket and at the list's tail. */
    method AllocSymkey(id: nat, key: Key)
      requires Valid() && id !in g.keys
      modifies this`m, this`g
      ensures Valid() && g.keys == old(g.keys)[id := key]
      ensures id in g.node && g.live == old(g.live) + [g.node[id]]
    {
      hide KeyHash, NoDup, Segment, Housed, Linked, Index, Described, Separate, Chain;
      if m.numFree < 1 {
        MoreMem(-1);
      }
      ghost var g, sk := this.g, this.m.freeKeys;
      var m := this.m;
      ActivateOk(m, g, id, key);
      var b, p := KeyHash(id, m.mask), m.freeKeys;
      m := m.(freeKeys := m.lf[p]);
      m := m.(info := m.info[p := Entry(id, key)]);
      m := m.(hlink := m.hlink[p := m.table[b]], table := m.table[b := p]);
      m := m.(lb := m.lb[p := m.lb[HEAD]], lf := m.lf[p := HEAD]);
      m := m.(lf := m.lf[m.lb[HEAD] := p], lb := m.lb[HEAD := p]);
      m := m.(numFree := m.numFree - 1, numKeys := m.numKeys + 1);
      this.m := m;
      this.g := Activated(g, KeyHash(id, m.mask), sk, id, key);
    }

    /** UNLINK_SLIST on a bucket: walk the slots until one holds sk, then make
        that slot skip it.  The slot is the table entry while prev is NULL. */
    method UnlinkBucket(b: nat, sk: nat) returns (m: Memory, ghost at: nat)
      requires Valid() && b < |this.m.table| && sk in g.chains[b]
      ensures at < |g.chains[b]| && g.chains[b][at] == sk
      ensures m == this.m.(hlink := m.hlink, table := m.table) && |m.hlink| == |this.m.hlink|
      ensures Linked(m.hlink, m.table, g.chains[b := Without(g.chains[b], at)])
    {
      hide KeyHash, Segment;
      m := this.m;
      ghost var s := g.chains[b];
      var prev, cur := NULL, m.table[b];
      at := 0;
      assert s[0..] == s;
      while cur != sk
        invariant at < |s| && Chain(m.hlink, cur, s[at..]) && sk in s[at..]
        invariant prev == if at == 0 then NULL else s[at - 1]
        decreases |s| - at
      {
        assert cur == s[at..][0] == s[at] && s[at..][1..] == s[at + 1..];
        prev, cur := cur, m.hlink[cur];
        at := at + 1;
      }
      assert cur == s[at..][0] == s[at] && s[at..][1..] == s[at + 1..];
      Unlinked(m, g, b, at);
      if prev == NULL {
        m := m.(table := m.table[b := m.hlink[cur]]);
      } else {
        m := m.(hlink := m.hlink[prev := m.hlink[cur]]);
        assert this.m.table[b := this.m.table[b]] == this.m.table;
      }
    }

    /** freesymkey: unlink an entry, clear it and put it on the free list. */
    method FreeSymkey(sk: nat, ghost i: nat)
      requires Valid() && i < |g.live| && g.live[i] == sk
      modifies this`m, this`g
      ensures Valid() && g.live == Without(old(g.live), i) && m.numKeys == old(m.numKeys) - 1
      ensures old(IdOf(m.info, sk)) in old(g.keys) && g.keys == old(g.keys) - {old(IdOf(m.info, sk))}
      ensures g.node == old(g.node) - {old(IdOf(m.info, sk))}
      ensures forall n: nat :: n in g.live && n < |m.info| ==> n < |old(m.info)| && m.info[n] == old(m.info)[n]
    {
      hide KeyHash, NoDup, Segment, Housed, Linked, Index, Described, Separate, Without;
      ListedEntry(this.m, g, i);
      var id := this.m.info[sk].keyid;
      var m, at := UnlinkBucket(KeyHash(id, this.m.mask), sk);
      FreedOk(this.m, m, g, i, at);
      m := m.(lf := m.lf[m.lb[sk] := m.lf[sk]], lb := m.lb[m.lf[sk] := m.lb[sk]]);
      m := m.(info := m.info[sk := CLEARED]);
      m := m.(lf := m.lf[sk := m.freeKeys], freeKeys := sk);
      m := m.(numKeys := m.numKeys - 1, numFree := m.numFree + 1);
      assert m.info == this.m.info[sk := CLEARED];
      assert forall n: nat :: n in Without(g.live, i) ==> n < |m.info| && m.info[n] == this.m.info[n];
      this.m, g := m, Freed(g, KeyHash(id, m.mask), at, i, id);
    }

    /** Overwrite the key that an entry holds. */
    method Update(sk: nat, key: Key)
      requires Valid() && sk in g.live && sk < |m.info|
      modifies this`m, this`g
      ensures Valid() && g == old(g).(keys := old(g.keys)[old(m.info)[sk].keyid := key])
      ensures m == old(m).(info := old(m.info)[sk := old(m.info)[sk].(key := key)])
    {
      UpdatedOk(m, g, sk, key);
      m, g := m.(info := m.info[sk := m.info[sk].(key := key)]), g.(keys := g.keys[m.info[sk].keyid := key]);
    }

    /** authhavekey */
    method HaveKey(id: nat) returns (have: bool)
      requires Valid()
      modifies this`cache
      ensures Valid() && have == HaveAnswer(old(Model()), id) && Model() == Apply(old(Model()), Have(id))
    {
      hide Ok;
      if 0 == id || cache.keyid == id {
        return true;
      }
      var sk := FindKey(id);
      if sk != NULL && 0 == m.info[sk].key.ktype {
        return false;
      }
      if NULL == sk {
        return false;
      }
      if !m.info[sk].key.trusted {
        return false;
      }
      var k := m.info[sk].key;
      cache := Cache(m.info[sk].keyid, k.ktype, k.trusted, k.secret);
      return true;
    }

    /** authistrusted */
    method IsTrusted(id: nat) returns (trusted: bool)
      requires Valid()
      ensures trusted == TrustedAnswer(Model(), id)
    {
      hide Ok;
      if id == cache.keyid {
        return cache.trusted;
      }
      var sk := FindKey(id);
      if NULL == sk || !m.info[sk].key.trusted {
        return false;
      }
      return true;
    }

    /** authtrust */
    method Trust(id: nat, trust: nat, now: nat)
      requires Valid()
      modifies this
      ensures Valid() && Model() == Apply(old(Model()), Op.Trust(id, trust, now)) && keyExpired == old(keyExpired)
    {
      hide Ok, Without;
      var sk := FindKey(id);
      if trust == 0 && NULL == sk {
        return;
      }
      if sk != NULL {
        if cache.keyid == id {
          cache := cache.(trusted := false, keyid := 0);
        }
        if trust > 0 {
          Update(sk, m.info[sk].key.(trusted := true, lifetime := if trust > 1 then now + trust else 0));
          return;
        }
        ghost var i :| 0 <= i < |g.live| && g.live[i] == sk;
        FreeSymkey(sk, i);
        return;
      }
      AllocSymkey(id, Key(true, 0, [], if trust > 1 then now + trust else 0));
    }

    /** MD5auth_setkey */
    method SetKey(id: nat, ktype: int, secret: seq<int>)
      requires Valid()
      modifies this
      ensures Valid() && Model() == Apply(old(Model()), Op.SetKey(id, ktype, secret)) && keyExpired == old(keyExpired)
    {
      hide Ok;
      var sk := FindKey(id);
      if sk != NULL {
        Update(sk, m.info[sk].key.(ktype := ktype % 65536, secret := secret));
        if cache.keyid == id {
          cache := cache.(trusted := false, keyid := 0);
        }
        return;
      }
      AllocSymkey(id, Key(false, ktype % 65536, secret, 0));
    }

    /** auth_resize_hashtable: 4 to 15 bits, whatever the logarithm suggests. */
    method Resize(log: nat)
      requires Valid()
      modifies this`m, this`g
      ensures Valid() && Model() == Apply(old(Model()), Op.Resize)
      ensures m.numKeys == old(m.numKeys) && m.numFree == old(m.numFree)
      ensures m.mask == Pow2(if log < 4 then 4 else if log > 15 then 15 else log) - 1
    {
      hide KeyHash, NoDup, Linked, Housed, Index, Pow2;
      var hashbits := if 4 > log then 4 else log;
      hashbits := if 15 < hashbits then 15 else hashbits;
      var m := this.m.(table := seq(Pow2(hashbits), _ => NULL), mask := Pow2(hashbits) - 1);
      ghost var live, chains := g.live, seq(Pow2(hashbits), _ => []);
      EmptyTable(m.hlink, m.mask, m.table, chains, m.info);
      ghost var i := 0;
      var sk := m.lf[HEAD];
      assert live[..0] == [];
      while sk != HEAD
        invariant 0 <= i <= |live| && sk == if i < |live| then live[i] else HEAD
        invariant m == this.m.(table := m.table, mask := Pow2(hashbits) - 1, hlink := m.hlink)
        invariant |m.hlink| == |m.info|
        invariant Housed(m.mask, chains, live[..i], m.info) && Linked(m.hlink, m.table, chains)
        invariant i < |live| ==> live[i] in live
        modifies {}
        decreases |live| - i
      {
        Neighbours(m.lf, m.lb, HEAD, live, HEAD, i);
        var next, b := m.lf[sk], KeyHash(m.info[sk].keyid, m.mask);
        Rehashed(m, chains, live, i);
        m := m.(hlink := m.hlink[sk := m.table[b]], table := m.table[b := sk]);
        chains := chains[b := [sk] + chains[b]];
        sk, i := next, i + 1;
      }
      assert live[..i] == live;
      this.m, g := m, g.(chains := chains);
    }

    /** auth_prealloc_symkeys */
    method Prealloc(keycount: int, log: nat)
      requires Valid()
      modifies this`m, this`g
      ensures Valid() && Model() == old(Model())
      ensures m.numKeys + m.numFree >= keycount
    {
      hide Ok;
      var additional := keycount - (m.numKeys + m.numFree);
      if additional > 0 {
        MoreMem(additional);
      }
      Resize(log);
    }

    /** auth_delkeys: the list is walked while entries leave it. */
    method DelKeys()
      requires Valid()
      modifies this`m, this`g
      ensures Valid() && Model() == old(Model()).(keys := SweepKeys(Del, old(g.keys)))
    {
      hide Ok, Swept;
      ghost var k0, n0, todo, i := g.keys, g.node, g.live, 0;
      SweepStart(m, g, Del);
      var sk := m.lf[HEAD];
      while sk != HEAD
        invariant Valid() && i <= |g.live| && todo == g.live[i..]
        invariant sk == if i < |g.live| then g.live[i] else HEAD
        invariant Swept(Del, k0, n0, todo, g.keys, g.node)
        decreases |todo|
      {
        SweepNext(m, g, i);
        var next := m.lf[sk];
        ghost var k1, n1, id := g.keys, g.node, m.info[sk].keyid;
        if m.info[sk].keyid > NTP_MAXKEY {
          SweepStep(Del, k0, n0, todo, k1, n1, id);
          i := i + 1;
        } else {
          if m.info[sk].key.trusted {
            Update(sk, m.info[sk].key.(secret := [], lifetime := 0));
            SweepStep(Del, k0, n0, todo, k1, n1, id);
            i := i + 1;
          } else {
            FreeSymkey(sk, i);
            SweepStep(Del, k0, n0, todo, k1, n1, id);
          }
        }
        todo := todo[1..];
        sk := next;
      }
      SweepNext(m, g, i);
      SweepDone(Del, k0, n0, g.keys, g.node);
    }

    /** auth_agekeys */
    method AgeKeys(now: nat)
      requires Valid()
      modifies this`m, this`g, this`keyExpired
      ensures Valid() && Model() == old(Model()).(keys := SweepKeys(Age(now), old(g.keys)))
      ensures keyExpired - old(keyExpired) == old(m.numKeys) - m.numKeys
    {
      hide Ok, Swept;
      ghost var k0, n0, todo, i := g.keys, g.node, g.live, 0;
      SweepStart(m, g, Age(now));
      var sk := m.lf[HEAD];
      while sk != HEAD
        invariant Valid() && i <= |g.live| && todo == g.live[i..]
        invariant sk == if i < |g.live| then g.live[i] else HEAD
        invariant Swept(Age(now), k0, n0, todo, g.keys, g.node)
        invariant keyExpired - old(keyExpired) == old(m.numKeys) - m.numKeys
        decreases |todo|
      {
        SweepNext(m, g, i);
        var next := m.lf[sk];
        ghost var k1, n1, id := g.keys, g.node, m.info[sk].keyid;
        if m.info[sk].key.lifetime > 0 && now > m.info[sk].key.lifetime {
          FreeSymkey(sk, i);
          keyExpired := keyExpired + 1;
        } else {
          i := i + 1;
        }
        SweepStep(Age(now), k0, n0, todo, k1, n1, id);
        todo := todo[1..];
        sk := next;
      }
      SweepNext(m, g, i);
      SweepDone(Age(now), k0, n0, g.keys, g.node);
    }
  }

  /** What is listed after an entry was taken into use. */
  ghost function Activated(g: Shape, b: nat, sk: nat, id: nat, key: Key): Shape
    requires b < |g.chains| && g.pool != []
  {
    Shape(g.live + [sk], g.pool[1..], g.chains[b := [sk] + g.chains[b]], g.node[id := sk], g.keys[id := key])
  }

  lemma ActivateOk(m: Memory, g: Shape, id: nat, key: Key)
    requires Ok(m, g) && id !in g.keys && m.numFree > 0
    ensures var b, sk := KeyHash(id, m.mask), m.freeKeys;
            && HEAD < sk < |m.info| && m.lb[HEAD] < |m.info| && b < |m.table| == |g.chains| && g.pool != []
            && Ok(Memory(m.hlink[sk := m.table[b]], m.lf[sk := HEAD][m.lb[HEAD] := sk],
                         m.lb[sk := m.lb[HEAD]][HEAD := sk], m.info[sk := Entry(id, key)], m.table[b := sk],
                         m.mask, m.numKeys + 1, m.numFree - 1, m.lf[sk]),
                  Activated(g, b, sk, id, key))
  {
    hide KeyHash, NoDup, Segment, Housed, Linked, Index;
    var b, sk := KeyHash(id, m.mask), m.freeKeys;
    SeparateMove(g.live, g.pool, |m.info|);
    IndexAdd(g.node, g.live, m.info, sk, Entry(id, key));
    DescribedFrame(g.node, g.live, g.keys, m.info, m.info[sk := Entry(id, key)]);
    NotHoused(m.mask, g.chains, g.live, m.info, sk);
    HousedAdd(m.mask, g.chains, g.live, m.info, sk, Entry(id, key));
    LinkedPush(m.hlink, m.table, g.chains, b, sk);
    SegmentAppend(m.lf, m.lb, HEAD, g.live, HEAD, sk);
    LastBack(m.lf, m.lb, HEAD, g.live, HEAD);
    ChainFrame(m.lf, m.lf[sk := HEAD][m.lb[HEAD] := sk], m.lf[sk], g.pool[1..]);
  }

  lemma BucketsDisjoint(mask: nat, chains: seq<seq<nat>>, live: seq<nat>, info: seq<Entry>)
    requires Housed(mask, chains, live, info)
    ensures forall b, c, n :: 0 <= b < |chains| && 0 <= c < |chains| && c != b && n in chains[c] ==> n !in chains[b]
  {
    hide KeyHash;
    forall b, c, n | 0 <= b < |chains| && 0 <= c < |chains| && c != b && n in chains[c]
      ensures n !in chains[b]
    {
      assert KeyHash(IdOf(info, n), mask) == c;
    }
  }

  /** Splicing the at-th entry out of a bucket. */
  lemma Unlinked(m: Memory, g: Shape, b: nat, at: nat)
    requires Ok(m, g) && b < |g.chains| && at < |g.chains[b]|
    ensures Within(g.chains[b], |m.hlink|)
    ensures var s := g.chains[b];
            var links := if at == 0 then m.hlink else m.hlink[s[at - 1] := m.hlink[s[at]]];
            Linked(links, m.table[b := if at == 0 then m.hlink[s[0]] else m.table[b]], g.chains[b := Without(s, at)])
  {
    hide KeyHash, Segment;
    var s := g.chains[b];
    ChainWithin(m.hlink, m.table[b], s);
    BucketsDisjoint(m.mask, g.chains, g.live, m.info);
    ChainRemove(m.hlink, m.table[b], s, at);
    if at == 0 {
      LinkedRemove(m.hlink, m.hlink, m.table, g.chains, b, 0, m.hlink[s[0]]);
    } else {
      LinkedRemove(m.hlink, m.hlink[s[at - 1] := m.hlink[s[at]]], m.table, g.chains, b, at, m.table[b]);
    }
  }

  lemma ListedEntry(m: Memory, g: Shape, i: nat)
    requires Ok(m, g) && i < |g.live|
    ensures var sk, b := g.live[i], KeyHash(IdOf(m.info, g.live[i]), m.mask);
            && HEAD < sk < |m.info| && b < |m.table| == |g.chains| && sk in g.chains[b]
            && m.info[sk].keyid in g.keys && m.info[sk].key == g.keys[m.info[sk].keyid]
            && g.node[m.info[sk].keyid] == sk
  {
    hide KeyHash, NoDup, Segment;
    assert g.live[i] in g.live;
  }

  ghost function Freed(g: Shape, b: nat, at: nat, i: nat, id: nat): Shape
    requires b < |g.chains| && at < |g.chains[b]| && i < |g.live|
  {
    var chains := g.chains[b := Without(g.chains[b], at)];
    Shape(Without(g.live, i), [g.live[i]] + g.pool, chains, g.node - {id}, g.keys - {id})
  }

  lemma FreedOk(m: Memory, m1: Memory, g: Shape, i: nat, at: nat)
    requires Ok(m, g) && i < |g.live| && g.live[i] < |m.info|
    requires var b := KeyHash(m.info[g.live[i]].keyid, m.mask);
             b < |g.chains| && at < |g.chains[b]| && g.chains[b][at] == g.live[i]
    requires m1 == m.(hlink := m1.hlink, table := m1.table) && |m1.hlink| == |m.hlink|
    requires var b := KeyHash(m.info[g.live[i]].keyid, m.mask);
             Linked(m1.hlink, m1.table, g.chains[b := Without(g.chains[b], at)])
    ensures m.lb[g.live[i]] < |m.lf| && m.lf[g.live[i]] < |m.lb| && m.numKeys > 0
    ensures var sk := g.live[i];
            var lf, lb := m.lf[m.lb[sk] := m.lf[sk]], m.lb[m.lf[sk] := m.lb[sk]];
            Ok(m1.(lf := lf[sk := m.freeKeys], lb := lb, info := m.info[sk := CLEARED], freeKeys := sk,
                   numKeys := m.numKeys - 1, numFree := m.numFree + 1),
               Freed(g, KeyHash(m.info[sk].keyid, m.mask), at, i, m.info[sk].keyid))
    ensures forall n: nat :: n in Without(g.live, i) ==> n != g.live[i] && n < |m.info|
  {
    hide KeyHash, NoDup, Segment, Housed, Linked, Index;
    var sk := g.live[i];
    SeparateReturn(g.live, g.pool, |m.info|, i);
    RemoveKeepsOthers(g.live, i);
    SegmentRemove(m.lf, m.lb, HEAD, g.live, HEAD, i);
    Neighbours(m.lf, m.lb, HEAD, g.live, HEAD, i);
    var lf, lb := m.lf[m.lb[sk] := m.lf[sk]], m.lb[m.lf[sk] := m.lb[sk]];
    SegmentFrame(lf, lb, lf[sk := m.freeKeys], lb, HEAD, Without(g.live, i), HEAD);
    ChainFrame(m.lf, lf, m.freeKeys, g.pool);
    ChainPush(lf, m.freeKeys, g.pool, sk);
    IndexRemove(g.node, g.live, m.info, i);
    HousedRemove(m.mask, g.chains, g.live, m.info, i, at);
    DescribedRemove(g.node, g.live, g.keys, m.info, i);
  }

  lemma DescribedRemove(node: map<nat, nat>, live: seq<nat>, keys: map<nat, Key>, info: seq<Entry>, i: nat)
    requires Index(node, live, info) && Described(node, keys, info) && i < |live| && live[i] < |info|
    ensures var id := info[live[i]].keyid; Described(node - {id}, keys - {id}, info[live[i] := CLEARED])
  {
    assert live[i] in live;
  }

  lemma UpdatedOk(m: Memory, g: Shape, sk: nat, key: Key)
    requires Ok(m, g) && sk in g.live && sk < |m.info|
    ensures Ok(m.(info := m.info[sk := m.info[sk].(key := key)]), g.(keys := g.keys[m.info[sk].keyid := key]))
  {
    hide KeyHash, NoDup, Segment, Chain, Housed, Linked;
    PayloadUpdate(g.node, m.mask, g.chains, g.live, m.info, sk, key);
  }

  lemma EmptyTable(hlink: seq<nat>, mask: nat, table: seq<nat>, chains: seq<seq<nat>>, info: seq<Entry>)
    requires |table| == |chains| == mask + 1
    requires forall b :: 0 <= b < |chains| ==> table[b] == NULL && chains[b] == []
    ensures Housed(mask, chains, [], info) && Linked(hlink, table, chains)
  {
    hide KeyHash;
  }

  /** Linking the i-th key into the new table. */
  lemma Rehashed(m: Memory, chains: seq<seq<nat>>, live: seq<nat>, i: nat)
    requires i < |live| && NoDup(live) && 0 < live[i] < |m.info| == |m.hlink|
    requires Housed(m.mask, chains, live[..i], m.info) && Linked(m.hlink, m.table, chains)
    ensures var sk, b := live[i], KeyHash(m.info[live[i]].keyid, m.mask);
            && b < |m.table| == |chains|
            && Housed(m.mask, chains[b := [sk] + chains[b]], live[..i + 1], m.info)
            && Linked(m.hlink[sk := m.table[b]], m.table[b := sk], chains[b := [sk] + chains[b]])
  {
    hide KeyHash, Housed, Linked;
    var sk := live[i];
    NotHoused(m.mask, chains, live[..i], m.info, sk);
    HousedAdd(m.mask, chains, live[..i], m.info, sk, m.info[sk]);
    assert m.info[sk := m.info[sk]] == m.info && live[..i] + [sk] == live[..i + 1];
    LinkedPush(m.hlink, m.table, chains, KeyHash(m.info[sk].keyid, m.mask), sk);
  }

  // ------------------------------------------------------- walks with removal

  /** Part way through a walk: entries in todo are as they were, the others have
      been kept or dropped as the sweep says. */
  ghost predicate OneEach(node: map<nat, nat>)
  {
    forall a, b :: a in node && b in node && node[a] == node[b] ==> a == b
  }

  ghost predicate Swept(sw: Sweep, k0: map<nat, Key>, n0: map<nat, nat>, todo: seq<nat>,
                        keys: map<nat, Key>, node: map<nat, nat>)
  {
    && k0.Keys == n0.Keys && keys.Keys == node.Keys && NoDup(todo)
    && OneEach(n0)
    && (forall id :: id in keys <==> id in k0 && (n0[id] in todo || Keeps(sw, id, k0[id])))
    && (forall id :: id in keys ==>
          node[id] == n0[id] && keys[id] == if n0[id] in todo then k0[id] else Kept(sw, id, k0[id]))
  }

  lemma SweepStart(m: Memory, g: Shape, sw: Sweep)
    requires Ok(m, g)
    ensures Swept(sw, g.keys, g.node, g.live, g.keys, g.node)
    ensures g.live[0..] == g.live && HEAD < |m.lf|
    ensures m.lf[HEAD] == if |g.live| > 0 then g.live[0] else HEAD
  {
    hide KeyHash, NoDup, Housed, Linked, Chain;
  }

  /** The current entry, and where its forward link leads. */
  lemma SweepNext(m: Memory, g: Shape, i: nat)
    requires Ok(m, g) && i <= |g.live|
    ensures i < |g.live| ==>
      var sk := g.live[i];
      && HEAD < sk < |m.info| == |m.lf| && sk in g.live
      && m.info[sk].keyid in g.keys && g.keys[m.info[sk].keyid] == m.info[sk].key
      && g.node[m.info[sk].keyid] == sk
      && m.lf[sk] == (if i + 1 < |g.live| then g.live[i + 1] else HEAD)
      && g.live[i..][0] == sk && g.live[i..][1..] == g.live[i + 1..] == Without(g.live, i)[i..]
  {
    hide KeyHash, NoDup, Housed, Linked, Chain, Segment;
    if i < |g.live| {
      Neighbours(m.lf, m.lb, HEAD, g.live, HEAD, i);
      assert g.live[i] in g.live;
    }
  }

  /** One entry dropped, or kept. */
  lemma SweepStep(sw: Sweep, k0: map<nat, Key>, n0: map<nat, nat>, todo: seq<nat>,
                  keys: map<nat, Key>, node: map<nat, nat>, id: nat)
    requires Swept(sw, k0, n0, todo, keys, node) && todo != [] && id in keys && node[id] == todo[0]
    ensures if Keeps(sw, id, keys[id]) then Swept(sw, k0, n0, todo[1..], keys[id := Kept(sw, id, keys[id])], node)
            else Swept(sw, k0, n0, todo[1..], keys - {id}, node - {id})
    ensures keys[id := keys[id]] == keys
  {
    hide Keeps, Kept, Swept;
    if Keeps(sw, id, keys[id]) {
      SweepKeeps(sw, k0, n0, todo, keys, node, id);
    } else {
      SweepDrops(sw, k0, n0, todo, keys, node, id);
    }
  }

  lemma SweepKeeps(sw: Sweep, k0: map<nat, Key>, n0: map<nat, nat>, todo: seq<nat>,
                   keys: map<nat, Key>, node: map<nat, nat>, id: nat)
    requires Swept(sw, k0, n0, todo, keys, node) && todo != [] && id in keys && node[id] == todo[0]
    requires Keeps(sw, id, keys[id])
    ensures Swept(sw, k0, n0, todo[1..], keys[id := Kept(sw, id, keys[id])], node)
  {
    hide Keeps, Kept, NoDup, OneEach;
    OthersStay(k0, n0, todo, id);
    assert keys[id] == k0[id];
  }

  lemma SweepDrops(sw: Sweep, k0: map<nat, Key>, n0: map<nat, nat>, todo: seq<nat>,
                   keys: map<nat, Key>, node: map<nat, nat>, id: nat)
    requires Swept(sw, k0, n0, todo, keys, node) && todo != [] && id in keys && node[id] == todo[0]
    requires !Keeps(sw, id, keys[id])
    ensures Swept(sw, k0, n0, todo[1..], keys - {id}, node - {id})
  {
    hide Keeps, Kept, NoDup, OneEach;
    OthersStay(k0, n0, todo, id);
    assert keys[id] == k0[id];
  }

  lemma OthersStay(k0: map<nat, Key>, n0: map<nat, nat>, todo: seq<nat>, id: nat)
    requires k0.Keys == n0.Keys && OneEach(n0) && NoDup(todo) && todo != [] && id in k0 && n0[id] == todo[0]
    ensures NoDup(todo[1..]) && n0[id] !in todo[1..]
    ensures forall k :: k in k0 && k != id ==> (n0[k] in todo <==> n0[k] in todo[1..])
  {
    FirstLeaves(todo);
    hide NoDup;
  }

  lemma FirstLeaves(s: seq<nat>)
    requires NoDup(s) && s != []
    ensures NoDup(s[1..]) && s[0] !in s[1..] && forall n :: n in s <==> n == s[0] || n in s[1..]
  {
  }

  lemma SweepDone(sw: Sweep, k0: map<nat, Key>, n0: map<nat, nat>, keys: map<nat, Key>, node: map<nat, nat>)
    requires Swept(sw, k0, n0, [], keys, node)
    ensures keys == SweepKeys(sw, k0)
  {
    hide Keeps, Kept;
  }

  /** The counter of active keys is the size of the map. */
  lemma CountsKeys(m: Memory, g: Shape)
    requires Ok(m, g)
    ensures m.numKeys == |g.keys|
  {
    hide KeyHash, NoDup, Housed, Linked, Chain, Segment;
    var ids: seq<nat> := seq(|g.live|, j requires 0 <= j < |g.live| => IdOf(m.info, g.live[j]));
    assert forall j :: 0 <= j < |ids| ==> g.live[j] in g.live && g.node[ids[j]] == g.live[j];
    assert NoDup(ids) by { DistinctIds(ids, g.live, g.node); }
    assert g.keys.Keys == set j | 0 <= j < |ids| :: ids[j] by {
      forall id | id in g.keys
        ensures exists j :: 0 <= j < |ids| && ids[j] == id
      {
        var j :| 0 <= j < |g.live| && g.live[j] == g.node[id];
        assert ids[j] == id;
      }
    }
    SetSize(ids);
  }

  lemma DistinctIds(ids: seq<nat>, live: seq<nat>, node: map<nat, nat>)
    requires |ids| == |live| && NoDup(live)
    requires forall j :: 0 <= j < |ids| ==> ids[j] in node && node[ids[j]] == live[j]
    ensures NoDup(ids)
  {
  }

  lemma {:induction false} SetSize(s: seq<nat>)
    requires NoDup(s)
    ensures |set j | 0 <= j < |s| :: s[j]| == |s|
  {
    if s != [] {
      var t := s[..|s| - 1];
      SetSize(t);
      assert (set j | 0 <= j < |s| :: s[j]) == (set j | 0 <= j < |t| :: t[j]) + {s[|s| - 1]};
    }
  }
}
