/** The list macros of include/ntp_lists.h over an explicit memory: a pointer is
    an address, 0 is NULL, and a link field is a sequence indexed by address. */
module Lists {

  const NULL := 0

  ghost predicate NoDup<T>(s: seq<T>) { forall i, j :: 0 <= i < j < |s| ==> s[i] != s[j] }

  ghost function Without<T>(s: seq<T>, i: nat): seq<T>
    requires i < |s|
  { s[..i] + s[i + 1..] }

  lemma PushFresh(s: seq<nat>, n: nat)
    requires NoDup(s) && n !in s
    ensures NoDup([n] + s)
  {
  }

  /** Every address of s is a node of a memory of the given size. */
  ghost predicate Within(s: seq<nat>, size: nat) { forall i :: 0 <= i < |s| ==> 0 < s[i] < size }

  // ------------------------------------------------------------------- SLIST

  /** Following `next` from p visits exactly s and ends at NULL. */
  ghost predicate Chain(next: seq<nat>, p: nat, s: seq<nat>)
    decreases |s|
  {
    if s == [] then p == NULL
    else p == s[0] && 0 < p < |next| && Chain(next, next[p], s[1..])
  }

  /** A chain does not see changes to the links of other nodes. */
  lemma {:induction false} ChainFrame(next: seq<nat>, next': seq<nat>, p: nat, s: seq<nat>)
    requires Chain(next, p, s) && |next| <= |next'|
    requires forall n :: n in s && n < |next| ==> next'[n] == next[n]
    ensures Chain(next', p, s)
    decreases |s|
  {
    if s != [] {
      ChainFrame(next, next', next[p], s[1..]);
    }
  }

  lemma {:induction false} ChainWithin(next: seq<nat>, p: nat, s: seq<nat>)
    requires Chain(next, p, s)
    ensures Within(s, |next|)
    decreases |s|
  {
    if s != [] {
      ChainWithin(next, next[p], s[1..]);
    }
  }

  /** A chain cut at position i continues from its i-th node. */
  lemma {:induction false} ChainTail(next: seq<nat>, p: nat, s: seq<nat>, i: nat)
    requires Chain(next, p, s) && i < |s|
    ensures 0 < s[i] < |next| && Chain(next, s[i], s[i..]) && Chain(next, next[s[i]], s[i + 1..])
    decreases |s|
  {
    if i > 0 {
      ChainTail(next, next[p], s[1..], i - 1);
      assert s[1..][i - 1..] == s[i..] && s[1..][i..] == s[i + 1..];
    } else {
      assert s[0..] == s;
    }
  }

  /** LINK_SLIST */
  lemma ChainPush(next: seq<nat>, p: nat, s: seq<nat>, n: nat)
    requires Chain(next, p, s) && 0 < n < |next| && n !in s
    ensures Chain(next[n := p], n, [n] + s)
  {
    ChainFrame(next, next[n := p], p, s);
    assert ([n] + s)[1..] == s;
  }

  /** UNLINK_SLIST: redirecting the head or the link before a node around it takes just
      it off the list. */
  lemma ChainRemove(next: seq<nat>, p: nat, s: seq<nat>, i: nat)
    requires Chain(next, p, s) && NoDup(s) && i < |s|
    ensures Within(s, |next|)
    ensures if i == 0 then Chain(next, next[s[0]], Without(s, 0))
            else Chain(next[s[i - 1] := next[s[i]]], p, Without(s, i))
  {
    ChainWithin(next, p, s);
    if i == 0 {
      ChainTail(next, p, s, 0);
      assert Without(s, 0) == s[1..];
    } else {
      ChainSplice(next, p, s, i);
    }
  }

  lemma {:induction false} ChainSplice(next: seq<nat>, p: nat, s: seq<nat>, i: nat)
    requires Chain(next, p, s) && NoDup(s) && 0 < i < |s|
    ensures Within(s, |next|)
    ensures Chain(next[s[i - 1] := next[s[i]]], p, Without(s, i))
    decreases |s|
  {
    ChainWithin(next, p, s);
    ChainTail(next, p, s, i);
    var next' := next[s[i - 1] := next[s[i]]];
    assert Without(s, i)[1..] == Without(s[1..], i - 1);
    if i > 1 {
      ChainSplice(next, next[p], s[1..], i - 1);
    } else {
      ChainFrame(next, next', next[s[1]], s[2..]);
      assert Without(s[1..], 0) == s[2..];
    }
  }

  // ------------------------------------------------------------------- DLIST

  /** From p, forward links visit s and reach q, and backward links return. */
  ghost predicate Segment(lf: seq<nat>, lb: seq<nat>, p: nat, s: seq<nat>, q: nat)
    decreases |s|
  {
    && p < |lf| && q < |lb|
    && if s == [] then lf[p] == q && lb[q] == p
       else lf[p] == s[0] && s[0] < |lb| && lb[s[0]] == p && Segment(lf, lb, s[0], s[1..], q)
  }

  lemma {:induction false} SegmentFrame(lf: seq<nat>, lb: seq<nat>, lf': seq<nat>, lb': seq<nat>,
                                        p: nat, s: seq<nat>, q: nat)
    requires Segment(lf, lb, p, s, q) && |lf| <= |lf'| && |lb| <= |lb'|
    requires lf'[p] == lf[p] && (forall n :: n in s && n < |lf| ==> lf'[n] == lf[n])
    requires lb'[q] == lb[q] && (forall n :: n in s && n < |lb| ==> lb'[n] == lb[n])
    ensures Segment(lf', lb', p, s, q)
    decreases |s|
  {
    if s != [] {
      assert s[0] in s;
      SegmentFrame(lf, lb, lf', lb', s[0], s[1..], q);
    }
  }

  /** Linking n before q: LINK_TAIL_DLIST, where q is the list head. */
  lemma {:induction false} SegmentAppend(lf: seq<nat>, lb: seq<nat>, p: nat, s: seq<nat>, q: nat, n: nat)
    requires Segment(lf, lb, p, s, q) && |lf| == |lb| && n < |lf|
    requires NoDup(s) && p !in s && q !in s && n !in s && n != p && n != q
    ensures lb[q] < |lf|
    ensures Segment(lf[n := q][lb[q] := n], lb[n := lb[q]][q := n], p, s + [n], q)
    decreases |s|
  {
    if s == [] {
    } else {
      SegmentAppend(lf, lb, s[0], s[1..], q, n);
      LastBack(lf, lb, s[0], s[1..], q);
      assert (s + [n])[1..] == s[1..] + [n];
    }
  }

  lemma {:induction false} LastBack(lf: seq<nat>, lb: seq<nat>, p: nat, s: seq<nat>, q: nat)
    requires Segment(lf, lb, p, s, q)
    ensures lb[q] == if s == [] then p else s[|s| - 1]
    decreases |s|
  {
    if s != [] {
      LastBack(lf, lb, s[0], s[1..], q);
    }
  }

  /** The neighbours of the i-th node. */
  lemma {:induction false} Neighbours(lf: seq<nat>, lb: seq<nat>, p: nat, s: seq<nat>, q: nat, i: nat)
    requires Segment(lf, lb, p, s, q) && i < |s|
    ensures s[i] < |lf| && s[i] < |lb|
    ensures lf[s[i]] == if i + 1 < |s| then s[i + 1] else q
    ensures lb[s[i]] == if i > 0 then s[i - 1] else p
    ensures lf[s[i]] < |lb| && lb[s[i]] < |lf|
    decreases |s|
  {
    if i > 0 {
      Neighbours(lf, lb, s[0], s[1..], q, i - 1);
    }
  }

  /** UNLINK_DLIST */
  lemma {:induction false} SegmentRemove(lf: seq<nat>, lb: seq<nat>, p: nat, s: seq<nat>, q: nat, i: nat)
    requires Segment(lf, lb, p, s, q) && NoDup(s) && p !in s && q !in s && i < |s|
    ensures s[i] < |lf| && s[i] < |lb| && lf[s[i]] < |lb| && lb[s[i]] < |lf|
    ensures Segment(lf[lb[s[i]] := lf[s[i]]], lb[lf[s[i]] := lb[s[i]]], p, Without(s, i), q)
    decreases |s|
  {
    Neighbours(lf, lb, p, s, q, i);
    var lf', lb' := lf[lb[s[i]] := lf[s[i]]], lb[lf[s[i]] := lb[s[i]]];
    if i == 0 {
      assert Without(s, 0) == s[1..];
      if |s| > 1 {
        assert s[1..][1..] == s[2..];
        SegmentFrame(lf, lb, lf', lb', s[1], s[2..], q);
      }
    } else {
      SegmentRemove(lf, lb, s[0], s[1..], q, i - 1);
      assert Without(s, i)[1..] == Without(s[1..], i - 1);
    }
  }

  lemma RemoveKeepsOthers<T>(s: seq<T>, i: nat)
    requires i < |s| && NoDup(s)
    ensures NoDup(Without(s, i)) && s[i] !in Without(s, i)
    ensures forall x :: x in Without(s, i) <==> x in s && x != s[i]
  {
    forall x | x in s && x != s[i]
      ensures x in Without(s, i)
    {
      var j :| 0 <= j < |s| && s[j] == x;
      assert Without(s, i)[if j < i then j else j - 1] == x;
    }
  }
}
