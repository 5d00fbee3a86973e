/** What the key store of libntp/authkeys.c means: a map from key ids to keys and
    a one-entry cache in front of it. */
module KeyMap {

  const NTP_MAXKEY := 65535

  /** What the store knows about one key id.  Secrets are values. */
  datatype Key = Key(trusted: bool, ktype: int, secret: seq<int>, lifetime: int)

  /** The key last looked up, or keyid 0. */
  datatype Cache = Cache(keyid: nat, ktype: int, trusted: bool, secret: seq<int>)

  datatype State = State(keys: map<nat, Key>, cache: Cache)

  const EMPTY := State(map[], Cache(0, 0, false, []))

  datatype Op =
    | Have(id: nat)
    | Trust(id: nat, trust: nat, now: nat)
    | SetKey(id: nat, ktype: int, secret: seq<int>)
    | Resize

  // ------------------------------------------------------ the operations

  function Invalidated(c: Cache, id: nat): Cache
  {
    if c.keyid == id then c.(keyid := 0, trusted := false) else c
  }

  /** authtrust */
  function TrustKeys(keys: map<nat, Key>, id: nat, trust: nat, now: nat): map<nat, Key>
  {
    var lifetime := if trust > 1 then now + trust else 0;
    if trust == 0 then keys - {id}
    else if id in keys then keys[id := keys[id].(trusted := true, lifetime := lifetime)]
    else keys[id := Key(true, 0, [], lifetime)]
  }

  /** MD5auth_setkey; the type is kept in 16 bits. */
  function SetKeys(keys: map<nat, Key>, id: nat, ktype: int, secret: seq<int>): map<nat, Key>
  {
    if id in keys then keys[id := keys[id].(ktype := ktype % 65536, secret := secret)]
    else keys[id := Key(false, ktype % 65536, secret, 0)]
  }

  /** A key that may be used: present, typed and trusted. */
  predicate Usable(keys: map<nat, Key>, id: nat) { id in keys && keys[id].ktype != 0 && keys[id].trusted }

  predicate Trusted(keys: map<nat, Key>, id: nat) { id in keys && keys[id].trusted }

  function CacheOf(id: nat, k: Key): Cache { Cache(id, k.ktype, k.trusted, k.secret) }

  /** authhavekey: the answer, with the cache consulted first. */
  predicate HaveAnswer(st: State, id: nat) { id == 0 || st.cache.keyid == id || Usable(st.keys, id) }

  function HaveCache(st: State, id: nat): Cache
  {
    if id != 0 && st.cache.keyid != id && Usable(st.keys, id) then CacheOf(id, st.keys[id]) else st.cache
  }

  /** authistrusted */
  predicate TrustedAnswer(st: State, id: nat)
  {
    if id == st.cache.keyid then st.cache.trusted else Trusted(st.keys, id)
  }

  function Apply(st: State, op: Op): State
  {
    match op
    case Have(id) => st.(cache := HaveCache(st, id))
    case Trust(id, trust, now) =>
      State(TrustKeys(st.keys, id, trust, now), if id in st.keys then Invalidated(st.cache, id) else st.cache)
    case SetKey(id, ktype, secret) =>
      State(SetKeys(st.keys, id, ktype, secret), if id in st.keys then Invalidated(st.cache, id) else st.cache)
    case Resize => st
  }

  function Run(ops: seq<Op>): State
  {
    if ops == [] then EMPTY else Apply(Run(ops[..|ops| - 1]), ops[|ops| - 1])
  }

  // -------------------------------------------------------- sweeps of the list

  /** auth_delkeys and auth_agekeys walk all keys, dropping some. */
  datatype Sweep = Del | Age(now: nat)

  predicate Keeps(sw: Sweep, id: nat, k: Key)
  {
    match sw
    case Del => id > NTP_MAXKEY || k.trusted
    case Age(now) => k.lifetime <= 0 || now <= k.lifetime
  }

  /** What a kept key becomes. */
  function Kept(sw: Sweep, id: nat, k: Key): Key
  {
    if sw.Del? && id <= NTP_MAXKEY then k.(secret := [], lifetime := 0) else k
  }

  function SweepKeys(sw: Sweep, keys: map<nat, Key>): map<nat, Key>
  {
    map id | id in keys && Keeps(sw, id, keys[id]) :: Kept(sw, id, keys[id])
  }

  // -------------------------------------------------------------- properties

  /** A cached key is a present, trusted, typed key with the same fields. */
  predicate CacheOk(st: State)
  {
    if st.cache.keyid == 0 then !st.cache.trusted
    else Usable(st.keys, st.cache.keyid) && st.cache == CacheOf(st.cache.keyid, st.keys[st.cache.keyid])
  }

  lemma ApplyKeepsCache(st: State, op: Op)
    requires CacheOk(st)
    ensures CacheOk(Apply(st, op))
  {
  }

  /** In every run of lookups, trust changes, key changes and rehashes. */
  lemma {:induction false} RunKeepsCache(ops: seq<Op>)
    ensures CacheOk(Run(ops))
  {
    if ops != [] {
      RunKeepsCache(ops[..|ops| - 1]);
      ApplyKeepsCache(Run(ops[..|ops| - 1]), ops[|ops| - 1]);
    }
  }

  /** The cache is transparent: the answers are those of an uncached lookup.  For
      key id 0, which marks an empty cache, authistrusted says no whenever the
      cache is empty, whatever the store holds. */
  lemma CacheTransparent(ops: seq<Op>, id: nat)
    ensures var keys := Run(ops).keys;
            id != 0 ==> (HaveAnswer(Run(ops), id) <==> id in keys && keys[id].ktype != 0 && keys[id].trusted)
    ensures var keys := Run(ops).keys;
            (TrustedAnswer(Run(ops), id) <==> id in keys && keys[id].trusted)
            <==> (id != 0 || Run(ops).cache.keyid != 0 || !(0 in keys && keys[0].trusted))
  {
    RunKeepsCache(ops);
  }

  /** Trusting key id 0 is possible, and then authistrusted denies it. */
  lemma ZeroIsSpecial()
    ensures var st := Run([Trust(0, 1, 0)]); Trusted(st.keys, 0) && !TrustedAnswer(st, 0)
  {
    assert [Trust(0, 1, 0)][..0] == [];
  }

  // ------------------------------------------------------ what the operations give

  /** Two maps agree on every id but one. */
  ghost predicate SameElsewhere(a: map<nat, Key>, b: map<nat, Key>, id: nat)
  {
    forall k :: k != id ==> (k in a <==> k in b) && (k in a && k in b ==> a[k] == b[k])
  }

  /** Trusting a key: with trust 0 it is gone; else it is trusted, and a sweep at time t
      keeps it if and only if the trust is unlimited or has not run out by then.  Its type
      and secret stay, or are none at all in a new key, and no other key changes. */
  lemma TrustMeaning(st: State, id: nat, trust: nat, now: nat, t: nat)
    ensures var keys, after := st.keys, Apply(st, Trust(id, trust, now)).keys;
            && SameElsewhere(after, keys, id)
            && (trust == 0 ==> id !in after)
            && (trust > 0 ==>
                  && id in after && after[id].trusted
                  && (id in SweepKeys(Age(t), after) <==> trust == 1 || t <= now + trust)
                  && after[id].ktype == (if id in keys then keys[id].ktype else 0)
                  && after[id].secret == (if id in keys then keys[id].secret else []))
  {
    hide Invalidated;
    var after := Apply(st, Trust(id, trust, now)).keys;
    assert trust > 0 ==> (id in SweepKeys(Age(t), after) <==> Keeps(Age(t), id, after[id]));
  }

  /** Setting a key: it has the new type, in 16 bits, and secret; a present one keeps its
      trust and lifetime, a new one is not trusted and has no end.  No other key changes. */
  lemma SetKeyMeaning(st: State, id: nat, ktype: int, secret: seq<int>, t: nat)
    ensures var keys, after := st.keys, Apply(st, SetKey(id, ktype, secret)).keys;
            && SameElsewhere(after, keys, id)
            && id in after && after[id].secret == secret
            && 0 <= after[id].ktype < 65536 && (after[id].ktype - ktype) % 65536 == 0
            && (id in keys ==> after[id].trusted == keys[id].trusted && after[id].lifetime == keys[id].lifetime)
            && (id !in keys ==> !after[id].trusted && id in SweepKeys(Age(t), after))
  {
    hide Invalidated;
    var after := Apply(st, SetKey(id, ktype, secret)).keys;
    assert id !in st.keys ==> Keeps(Age(t), id, after[id]);
  }

  /** Lookups and rehashes change no key. */
  lemma OthersChangeNothing(st: State, id: nat)
    ensures Apply(st, Have(id)).keys == st.keys && Apply(st, Resize).keys == st.keys
  {
  }

  /** Aging drops the keys whose end has passed, and changes no other. */
  lemma AgeMeaning(keys: map<nat, Key>, t: nat, id: nat)
    ensures var after := SweepKeys(Age(t), keys);
            && (id in after <==> id in keys && !(0 < keys[id].lifetime < t))
            && (id in after ==> after[id] == keys[id])
  {
  }

  /** Deleting keeps autokey keys, above 65535, as they are, and of the others the trusted
      ones, without secret and end. */
  lemma DelMeaning(keys: map<nat, Key>, id: nat)
    ensures var after := SweepKeys(Del, keys);
            && (id in after <==> id in keys && (id > 65535 || keys[id].trusted))
            && (id in after && id > 65535 ==> after[id] == keys[id])
            && (id in after && id <= 65535 ==> after[id] == Key(true, keys[id].ktype, [], 0))
  {
  }

  predicate Touches(op: Op, id: nat) { (op.Trust? || op.SetKey?) && op.id == id }

  lemma {:induction false} Untouched(before: seq<Op>, rest: seq<Op>, id: nat)
    requires forall i :: 0 <= i < |rest| ==> !Touches(rest[i], id)
    ensures var a, b := Run(before).keys, Run(before + rest).keys;
            (id in a <==> id in b) && (id in a ==> a[id] == b[id])
    decreases |rest|
  {
    if rest == [] {
      assert before + rest == before;
    } else {
      var n := |rest| - 1;
      var all := before + rest;
      assert all[..|all| - 1] == before + rest[..n] && all[|all| - 1] == rest[n];
      Untouched(before, rest[..n], id);
    }
  }

  /** In every run: a key last trusted at `now` lives until the trust runs out, whatever
      happened before and whatever is done to other keys since. */
  lemma TrustLasts(before: seq<Op>, id: nat, trust: nat, now: nat, rest: seq<Op>, t: nat)
    requires trust > 0 && forall i :: 0 <= i < |rest| ==> !Touches(rest[i], id)
    ensures var keys := Run(before + [Trust(id, trust, now)] + rest).keys;
            && id in keys && keys[id].trusted
            && (id in SweepKeys(Age(t), keys) <==> trust == 1 || t <= now + trust)
  {
    var all := before + [Trust(id, trust, now)];
    assert all[..|before|] == before;
    TrustMeaning(Run(before), id, trust, now, t);
    Untouched(all, rest, id);
    AgeMeaning(Run(all).keys, t, id);
    AgeMeaning(Run(all + rest).keys, t, id);
    hide Apply, SweepKeys;
  }

  /** The sweeps leave the cache alone.  Aging breaks it exactly when the cached
      key has expired. */
  lemma AgeAndCache(st: State, now: nat)
    requires CacheOk(st)
    ensures CacheOk(State(SweepKeys(Age(now), st.keys), st.cache))
       <==> (st.cache.keyid != 0 ==> var k := st.keys[st.cache.keyid]; k.lifetime <= 0 || now <= k.lifetime)
  {
  }

  /** Deleting breaks it exactly when the cached key is not an autokey key and
      has a secret to lose: the cache goes on serving the old secret. */
  lemma DelAndCache(st: State)
    requires CacheOk(st)
    ensures CacheOk(State(SweepKeys(Del, st.keys), st.cache))
       <==> (st.cache.keyid == 0 || st.cache.keyid > NTP_MAXKEY || st.cache.secret == [])
  {
    var id := st.cache.keyid;
    if id != 0 {
      assert id in SweepKeys(Del, st.keys);
    }
  }

  /** An expired key still answered for by the cache. */
  lemma StaleAfterAging()
    ensures var st := Run([SetKey(7, 4, [1]), Trust(7, 5, 10), Have(7)]);
            var aged := State(SweepKeys(Age(100), st.keys), st.cache);
            HaveAnswer(aged, 7) && !Usable(aged.keys, 7)
  {
    var ops := [SetKey(7, 4, [1]), Trust(7, 5, 10), Have(7)];
    assert ops[..2] == [SetKey(7, 4, [1]), Trust(7, 5, 10)];
    assert ops[..2][..1] == [SetKey(7, 4, [1])];
    assert ops[..2][..1][..0] == [];
    var st1 := Apply(EMPTY, ops[0]);
    assert Run(ops[..2][..1]) == st1;
    assert Run(ops[..2]) == Apply(st1, ops[1]);
  }

  /** A secret that was erased but is still cached. */
  lemma StaleSecret()
    ensures var st := Run([SetKey(7, 4, [1]), Trust(7, 1, 0), Have(7)]);
            var swept := State(SweepKeys(Del, st.keys), st.cache);
            && !CacheOk(swept) && HaveAnswer(swept, 7) && swept.cache.keyid == 7 && swept.cache.secret == [1]
            && 7 in swept.keys && swept.keys[7].secret == []
  {
    var ops := [SetKey(7, 4, [1]), Trust(7, 1, 0), Have(7)];
    assert ops[..2] == [SetKey(7, 4, [1]), Trust(7, 1, 0)];
    assert ops[..2][..1] == [SetKey(7, 4, [1])];
    assert ops[..2][..1][..0] == [];
    var st1 := Apply(EMPTY, ops[0]);
    assert Run(ops[..2][..1]) == st1;
    assert Run(ops[..2]) == Apply(st1, ops[1]);
  }
}
