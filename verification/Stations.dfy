/** The pool of stations in nas.c, threaded through hash chains, with eviction of the least recently used
    station. Pointers into the pool are slot numbers; NIL is the null pointer. */
module Stations {
  const POOL: nat := 128              // MAX_SUPPLICANTS
  const NIL: int := -1

  datatype EtherAddr = EtherAddr(b0: bv8, b1: bv8, b2: bv8, b3: bv8, b4: bv8, b5: bv8)

  /** pae_hash */
  function Hash(ea: EtherAddr): (h: nat)
    ensures h < POOL
  {
    var b := (ea.b3 ^ ea.b4 ^ ea.b5) & 0x7f;
    assert b < 0x80;
    b as int
  }

  /** The slot after position k of chain c. */
  function After(c: seq<int>, k: nat): (x: int)
  {
    if k + 1 < |c| then c[k + 1] else NIL
  }

  /** The chain c hangs off head: each slot's link leads to the next one, the last to NIL. */
  ghost predicate Linked(head: int, c: seq<int>, next: seq<int>)
  {
    && head == (if c == [] then NIL else c[0])
    && forall k :: 0 <= k < |c| ==> 0 <= c[k] < |next| && next[c[k]] == After(c, k)
  }

  ghost predicate Distinct(c: seq<int>)
  {
    forall k, l :: 0 <= k < l < |c| ==> c[k] != c[l]
  }

  /** The slots of chain h are used and hold addresses that hash to h. */
  ghost predicate InBucket(h: nat, c: seq<int>, used: seq<bool>, ea: seq<EtherAddr>)
  {
    |used| == POOL && |ea| == POOL &&
    forall k :: 0 <= k < |c| ==> 0 <= c[k] < POOL && used[c[k]] && Hash(ea[c[k]]) == h
  }

  ghost predicate NoTwice(used: seq<bool>, ea: seq<EtherAddr>)
  {
    |used| == POOL && |ea| == POOL &&
    forall i, j :: 0 <= i < j < POOL && used[i] && used[j] ==> ea[i] != ea[j]
  }

  /** Every used slot is in the chain of its own address. */
  ghost predicate AllChained(used: seq<bool>, ea: seq<EtherAddr>, chains: seq<seq<int>>)
  {
    |used| == POOL && |ea| == POOL && |chains| == POOL &&
    forall i :: 0 <= i < POOL && used[i] ==> i in chains[Hash(ea[i])]
  }

  ghost predicate Shape(used: seq<bool>, ea: seq<EtherAddr>, next: seq<int>, hashed: seq<int>, chains: seq<seq<int>>)
  {
    && |used| == POOL && |ea| == POOL && |next| == POOL && |hashed| == POOL && |chains| == POOL
    && (forall h :: 0 <= h < POOL ==> Linked(hashed[h], chains[h], next))
    && (forall h :: 0 <= h < POOL ==> Distinct(chains[h]))
    && (forall h :: 0 <= h < POOL ==> InBucket(h, chains[h], used, ea))
    && AllChained(used, ea, chains)
    && NoTwice(used, ea)
  }

  /** A used slot is on exactly one chain, exactly once. */
  lemma OnOneChain(used: seq<bool>, ea: seq<EtherAddr>, next: seq<int>, hashed: seq<int>, chains: seq<seq<int>>, i: int)
    requires Shape(used, ea, next, hashed, chains) && 0 <= i < POOL
    ensures forall h :: 0 <= h < POOL ==> (i in chains[h] <==> used[i] && h == Hash(ea[i]))
    ensures forall h, k, l :: 0 <= h < POOL && 0 <= k < l < |chains[h]| ==> chains[h][k] != chains[h][l]
  {
    forall h | 0 <= h < POOL
      ensures i in chains[h] <==> used[i] && h == Hash(ea[i])
    {
      assert InBucket(h, chains[h], used, ea);
      if i in chains[h] {
        var k :| 0 <= k < |chains[h]| && chains[h][k] == i;
      }
    }
    forall h, k, l | 0 <= h < POOL && 0 <= k < l < |chains[h]|
      ensures chains[h][k] != chains[h][l]
    {
      assert Distinct(chains[h]);
    }
  }

  lemma LinkedElsewhere(head: int, c: seq<int>, next: seq<int>, x: int, v: int)
    requires Linked(head, c, next) && 0 <= x < |next| && x !in c
    ensures Linked(head, c, next[x := v])
  {
    forall k | 0 <= k < |c|
      ensures next[x := v][c[k]] == next[c[k]]
    {
      assert c[k] in c;
    }
  }

  lemma LinkedPush(head: int, c: seq<int>, next: seq<int>, x: int)
    requires Linked(head, c, next) && 0 <= x < |next| && x !in c
    ensures Linked(x, [x] + c, next[x := head])
  {
    LinkedElsewhere(head, c, next, x, head);
    var d := [x] + c;
    forall k | 0 <= k < |d|
      ensures next[x := head][d[k]] == After(d, k)
    {
      if k > 0 { assert d[k] == c[k - 1]; }
      if k + 1 < |d| { assert d[k + 1] == c[k]; }
      if k > 0 { assert c[k - 1] in c; }
    }
  }

  function Without(c: seq<int>, k: nat): (r: seq<int>)
    requires k < |c|
  {
    c[..k] + c[k + 1..]
  }

  lemma LinkedRemoveHead(head: int, c: seq<int>, next: seq<int>)
    requires Linked(head, c, next) && c != []
    ensures Linked(next[c[0]], Without(c, 0), next)
  {
    var d := Without(c, 0);
    assert next[c[0]] == After(c, 0);
    forall k | 0 <= k < |d|
      ensures 0 <= d[k] < |next| && next[d[k]] == After(d, k)
    {
      assert d[k] == c[k + 1];
      if k + 1 < |d| { assert d[k + 1] == c[k + 2]; }
    }
  }

  lemma LinkedRemoveInner(head: int, c: seq<int>, next: seq<int>, k: nat)
    requires Linked(head, c, next) && Distinct(c) && 0 < k < |c|
    ensures Linked(head, Without(c, k), next[c[k - 1] := next[c[k]]])
  {
    var d := Without(c, k);
    var n := next[c[k - 1] := next[c[k]]];
    assert d[0] == c[0];
    forall l | 0 <= l < |d|
      ensures 0 <= d[l] < |n| && n[d[l]] == After(d, l)
    {
      RemovedLink(head, c, next, k, l);
    }
  }

  /** The link of one slot once position k has been bridged. */
  lemma RemovedLink(head: int, c: seq<int>, next: seq<int>, k: nat, l: nat)
    requires Linked(head, c, next) && Distinct(c) && 0 < k < |c| && l < |c| - 1
    ensures var d := Without(c, k);
      0 <= d[l] < |next| && next[c[k - 1] := next[c[k]]][d[l]] == After(d, l)
  {
    var d := Without(c, k);
    if l < k - 1 {
      assert d[l] == c[l] && d[l + 1] == c[l + 1] && next[c[l]] == After(c, l) && c[l] != c[k - 1];
    } else if l == k - 1 {
      assert d[l] == c[k - 1] && next[c[k]] == After(c, k);
      if k + 1 < |c| { assert d[l + 1] == c[k + 1]; }
    } else {
      assert d[l] == c[l + 1] && next[c[l + 1]] == After(c, l + 1) && c[k - 1] != c[l + 1];
      if l + 2 < |c| { assert d[l + 1] == c[l + 2]; }
    }
  }

  lemma WithoutMembers(c: seq<int>, k: nat)
    requires k < |c| && Distinct(c)
    ensures forall x :: x in Without(c, k) <==> x in c && x != c[k]
    ensures Distinct(Without(c, k))
  {
    var d := Without(c, k);
    forall x | x in c && x != c[k]
      ensures x in d
    {
      var j :| 0 <= j < |c| && c[j] == x;
      assert d[if j < k then j else j - 1] == x;
    }
    forall x | x in d
      ensures x in c && x != c[k]
    {
      var l :| 0 <= l < |d| && d[l] == x;
      assert d[l] == c[if l < k then l else l + 1];
    }
    forall l, j | 0 <= l < j < |d|
      ensures d[l] != d[j]
    {
      assert d[l] == c[if l < k then l else l + 1] && d[j] == c[if j < k then j else j + 1];
    }
  }

  /** The links after taking the k-th slot out of chain c, next' and head'. */
  ghost predicate Unlinked(head: int, c: seq<int>, next: seq<int>, k: nat, head': int, next': seq<int>)
    requires k < |c|
  {
    && 0 <= c[k] < |next| && (k > 0 ==> 0 <= c[k - 1] < |next|)
    && (k == 0 ==> head' == next[c[k]] && next' == next)
    && (k > 0 ==> head' == head && next' == next[c[k - 1] := next[c[k]]])
  }

  lemma LinkedRemove(head: int, c: seq<int>, next: seq<int>, k: nat, head': int, next': seq<int>)
    requires Linked(head, c, next) && Distinct(c) && k < |c| && Unlinked(head, c, next, k, head', next')
    ensures Linked(head', Without(c, k), next')
  {
    if k == 0 { LinkedRemoveHead(head, c, next); } else { LinkedRemoveInner(head, c, next, k); }
  }

  /** A chain with no slot in common with c stays as it is. */
  lemma LinkedBeside(head: int, c: seq<int>, next: seq<int>, k: nat, head': int, next': seq<int>, g: int, d: seq<int>)
    requires k < |c| && Unlinked(head, c, next, k, head', next') && Linked(g, d, next)
    requires forall y :: y in c ==> y !in d
    ensures Linked(g, d, next')
  {
    if k > 0 {
      assert c[k - 1] in c;
      LinkedElsewhere(g, d, next, c[k - 1], next[c[k]]);
    }
  }

  lemma Disjoint(used: seq<bool>, ea: seq<EtherAddr>, c: seq<int>, d: seq<int>, h: nat, g: nat)
    requires InBucket(h, c, used, ea) && InBucket(g, d, used, ea) && h != g
    ensures forall y :: y in c ==> y !in d
  {
  }

  /** Taking slot x, the k-th of its chain, out. */
  lemma ShapeRemoved(used: seq<bool>, ea: seq<EtherAddr>, next: seq<int>, hashed: seq<int>, chains: seq<seq<int>>,
                     x: int, h: nat, k: nat, next': seq<int>, head': int)
    requires Shape(used, ea, next, hashed, chains) && 0 <= x < POOL && used[x] && h == Hash(ea[x])
    requires k < |chains[h]| && chains[h][k] == x && Unlinked(hashed[h], chains[h], next, k, head', next')
    ensures |next'| == POOL
    ensures Shape(used[x := false], ea, next', hashed[h := head'], chains[h := Without(chains[h], k)])
  {
    hide Linked, InBucket, Distinct, Without, AllChained, NoTwice, Hash;
    var c := chains[h];
    var used', hashed', chains' := used[x := false], hashed[h := head'], chains[h := Without(c, k)];
    UnlinkedLength(hashed[h], c, next, k, head', next');
    WithoutMembers(c, k);
    LinkedRemove(hashed[h], c, next, k, head', next');
    forall g | 0 <= g < POOL
      ensures Linked(hashed'[g], chains'[g], next') && Distinct(chains'[g]) && InBucket(g, chains'[g], used', ea)
    {
      if g != h {
        Disjoint(used, ea, c, chains[g], h, g);
        LinkedBeside(hashed[h], c, next, k, head', next', hashed[g], chains[g]);
        assert x in c;
      }
      BucketKept(g, chains[g], chains'[g], used, ea, x);
    }
    ChainedRemoved(used, ea, chains, x, h, k);
  }

  lemma UnlinkedLength(head: int, c: seq<int>, next: seq<int>, k: nat, head': int, next': seq<int>)
    requires k < |c| && Unlinked(head, c, next, k, head', next')
    ensures |next'| == |next|
  {
  }

  lemma ChainedRemoved(used: seq<bool>, ea: seq<EtherAddr>, chains: seq<seq<int>>, x: int, h: nat, k: nat)
    requires AllChained(used, ea, chains) && NoTwice(used, ea) && 0 <= x < POOL && used[x] && h == Hash(ea[x])
    requires k < |chains[h]| && chains[h][k] == x && Distinct(chains[h])
    ensures AllChained(used[x := false], ea, chains[h := Without(chains[h], k)]) && NoTwice(used[x := false], ea)
  {
    WithoutMembers(chains[h], k);
  }

  lemma BucketKept(h: nat, c: seq<int>, d: seq<int>, used: seq<bool>, ea: seq<EtherAddr>, x: int)
    requires InBucket(h, c, used, ea) && 0 <= x < POOL && x !in d && forall y :: y in d ==> y in c
    ensures InBucket(h, d, used[x := false], ea)
  {
    forall k | 0 <= k < |d|
      ensures 0 <= d[k] < POOL && used[x := false][d[k]] && Hash(ea[d[k]]) == h
    {
      var y := d[k];
      assert y in d;
      assert y in c;
    }
  }

  /** Entering an unused slot x at the head of the chain of its new address. */
  lemma ShapeEntered(used: seq<bool>, ea: seq<EtherAddr>, next: seq<int>, hashed: seq<int>, chains: seq<seq<int>>,
                     x: int, a: EtherAddr)
    requires Shape(used, ea, next, hashed, chains) && 0 <= x < POOL && !used[x]
    requires forall i :: 0 <= i < POOL && used[i] ==> ea[i] != a
    ensures Shape(used[x := true], ea[x := a], next[x := hashed[Hash(a)]], hashed[Hash(a) := x],
                  chains[Hash(a) := [x] + chains[Hash(a)]])
  {
    var h := Hash(a);
    var used', ea', next', hashed' := used[x := true], ea[x := a], next[x := hashed[h]], hashed[h := x];
    var chains' := chains[h := [x] + chains[h]];
    forall g | 0 <= g < POOL
      ensures Linked(hashed'[g], chains'[g], next') && Distinct(chains'[g]) && InBucket(g, chains'[g], used', ea')
    {
      assert Linked(hashed[g], chains[g], next) && Distinct(chains[g]) && InBucket(g, chains[g], used, ea);
      assert x !in chains[g];
      if g == h { LinkedPush(hashed[h], chains[h], next, x); } else { LinkedElsewhere(hashed[g], chains[g], next, x, hashed[h]); }
      EnterBucket(g, chains[g], chains'[g], used, ea, x, a);
    }
    forall i | 0 <= i < POOL && used'[i]
      ensures i in chains'[Hash(ea'[i])]
    {
      if i == x { assert chains'[h][0] == x; }
    }
  }

  lemma EnterBucket(h: nat, c: seq<int>, d: seq<int>, used: seq<bool>, ea: seq<EtherAddr>, x: int, a: EtherAddr)
    requires InBucket(h, c, used, ea) && Distinct(c) && 0 <= x < POOL && x !in c
    requires d == (if h == Hash(a) then [x] + c else c)
    ensures InBucket(h, d, used[x := true], ea[x := a]) && Distinct(d)
  {
    forall k | 0 <= k < |d|
      ensures 0 <= d[k] < POOL && used[x := true][d[k]] && Hash(ea[x := a][d[k]]) == h
    {
      var i := if h == Hash(a) then k - 1 else k;
      if i >= 0 { assert d[k] == c[i] && c[i] in c; }
    }
    forall k, l | 0 <= k < l < |d|
      ensures d[k] != d[l]
    {
      if h == Hash(a) {
        assert d[l] == c[l - 1] && c[l - 1] in c;
        if k > 0 { assert d[k] == c[k - 1]; }
      }
    }
  }

  lemma NoneChained(used: seq<bool>, ea: seq<EtherAddr>, next: seq<int>, hashed: seq<int>, chains: seq<seq<int>>)
    requires |used| == POOL && |ea| == POOL && |next| == POOL && |hashed| == POOL && |chains| == POOL
    requires forall i :: 0 <= i < POOL ==> !used[i]
    requires forall h :: 0 <= h < POOL ==> hashed[h] == NIL && chains[h] == []
    ensures Shape(used, ea, next, hashed, chains)
  {
  }

  /** Slot r holds address a. */
  ghost predicate HeldAt(used: seq<bool>, ea: seq<EtherAddr>, a: EtherAddr, r: int)
    requires |used| == |ea|
  {
    0 <= r < |used| && used[r] && ea[r] == a
  }

  ghost predicate Known(used: seq<bool>, ea: seq<EtherAddr>, a: EtherAddr)
    requires |used| == |ea|
  {
    exists r :: HeldAt(used, ea, a, r)
  }

  /** r is the lowest unused slot. */
  ghost predicate FirstFree(used: seq<bool>, r: int)
  {
    0 <= r < |used| && !used[r] && forall i :: 0 <= i < r ==> used[i]
  }

  /** r is the first of the slots with the smallest time stamp, which is before now. */
  ghost predicate Oldest(lastUse: seq<int>, now: int, r: int)
  {
    && 0 <= r < |lastUse| && lastUse[r] < now
    && (forall i :: 0 <= i < |lastUse| ==> lastUse[r] <= lastUse[i])
    && (forall i :: 0 <= i < r ==> lastUse[r] < lastUse[i])
  }

  /** The slot a new station gets: a free one, else the least recently used one, else none because nothing is
      strictly older than now. */
  ghost predicate Chosen(used: seq<bool>, lastUse: seq<int>, now: int, r: int)
    requires |used| == |lastUse|
  {
    || FirstFree(used, r)
    || ((forall i :: 0 <= i < |used| ==> used[i]) && Oldest(lastUse, now, r))
    || ((forall i :: 0 <= i < |used| ==> used[i]) && (forall i :: 0 <= i < |used| ==> lastUse[i] >= now) && r == NIL)
  }

  /** The choice is determined, and there is none exactly when the pool is full with nothing older. A used slot is
      chosen only when there is no other, and then none has been unused for longer. */
  lemma ChosenUnique(used: seq<bool>, lastUse: seq<int>, now: int, r: int, r': int)
    requires |used| == |lastUse| && Chosen(used, lastUse, now, r) && Chosen(used, lastUse, now, r')
    ensures r == r'
    ensures r == NIL <==> forall i :: 0 <= i < |used| ==> used[i] && lastUse[i] >= now
    ensures r != NIL ==> 0 <= r < |used| && (!used[r] <==> exists i :: 0 <= i < |used| && !used[i])
    ensures r != NIL && used[r] ==> lastUse[r] < now && forall i :: 0 <= i < |used| ==> lastUse[r] <= lastUse[i]
  {
  }

  class StationCache {
    const used: array<bool>
    const ea: array<EtherAddr>
    const lastUse: array<int>
    const next: array<int>
    const hashed: array<int>
    ghost var chains: seq<seq<int>>

    ghost predicate Separate()
    {
      && used.Length == POOL && ea.Length == POOL && lastUse.Length == POOL && next.Length == POOL
      && hashed.Length == POOL && next != lastUse && next != hashed && lastUse != hashed
    }

    ghost predicate Valid()
      reads this, used, ea, next, hashed
    {
      Separate() && Shape(used[..], ea[..], next[..], hashed[..], chains)
    }

    constructor ()
      ensures Valid() && fresh(used) && fresh(ea) && fresh(lastUse) && fresh(next) && fresh(hashed)
      ensures forall i :: 0 <= i < POOL ==> !used[i]
    {
      used := new bool[POOL](_ => false);
      ea := new EtherAddr[POOL](_ => EtherAddr(0, 0, 0, 0, 0, 0));
      lastUse := new int[POOL](_ => 0);
      next := new int[POOL](_ => NIL);
      hashed := new int[POOL](_ => NIL);
      chains := seq(POOL, _ => []);
      new;
      NoneChained(used[..], ea[..], next[..], hashed[..], chains);
    }

    /** toss_sta: find the slot on its chain, unlink it and mark it unused. */
    method Toss(x: int)
      requires Valid() && 0 <= x < POOL && used[x]
      modifies this`chains, used, next, hashed
      ensures Valid() && used[..] == old(used[..])[x := false]
    {
      hide Linked, InBucket, Distinct, Without, AllChained, NoTwice, Hash;
      ghost var us, es, ns, hs, cs := used[..], ea[..], next[..], hashed[..], chains;
      var h := Hash(ea[x]);
      ghost var c := cs[h];
      ghost var k: nat := ChainPosition(us, es, cs, x);
      var list := hashed[h];
      LinkHead(hs[h], c, ns);
      if list == x {
        SamePlace(c, 0, k);
        assert next[x] == ns[x];
        hashed[h] := next[x];
        assert hashed[..] == hs[h := ns[x]];
      } else {
        ghost var j: nat := 0;
        while list != NIL && next[list] != x
          invariant j < k < |c| && list == c[j] && c[k] == x && 0 <= list < POOL
          invariant next[..] == ns && hashed[..] == hs && used[..] == us
          decreases k - j
        {
          LinkStep(hs[h], c, ns, j);
          assert next[list] == ns[list];
          j := j + 1;
          list := next[list];
          LinkStep(hs[h], c, ns, j);
        }
        LinkStep(hs[h], c, ns, j);
        assert next[list] == ns[list] && next[x] == ns[x];
        SamePlace(c, j + 1, k);
        next[list] := next[x];
        assert next[..] == ns[list := ns[x]];
        assert hashed[..] == hs == hs[h := hs[h]];
      }
      used[x] := false;
      ShapeRemoved(us, es, ns, hs, cs, x, h, k, next[..], hashed[h]);
      chains := cs[h := Without(c, k)];
      assert used[..] == us[x := false];
    }

    /** The search loop of lookup_sta over one chain. */
    method Find(a: EtherAddr) returns (sta: int)
      requires Valid()
      ensures sta == NIL || HeldAt(used[..], ea[..], a, sta)
      ensures sta == NIL ==> !Known(used[..], ea[..], a)
    {
      hide Linked, InBucket, Distinct, AllChained, NoTwice, Hash;
      ghost var us, es, ns, hs := used[..], ea[..], next[..], hashed[..];
      var h := Hash(a);
      ghost var c := chains[h];
      LinkHead(hs[h], c, ns);
      sta := hashed[h];
      ghost var k: nat := 0;
      while sta != NIL && ea[sta] != a
        invariant k <= |c| && sta == (if k < |c| then c[k] else NIL)
        invariant forall i :: 0 <= i < k ==> 0 <= c[i] < POOL && es[c[i]] != a
        invariant forall i :: 0 <= i < |c| ==> 0 <= c[i] < POOL
        decreases |c| - k
      {
        LinkStep(hs[h], c, ns, k);
        assert ea[sta] == es[sta] && next[sta] == ns[sta];
        k := k + 1;
        sta := next[sta];
      }
      if sta == NIL { NotInChain(us, es, chains, a); } else { ChainMember(h, c, us, es, k); }
    }

    /** Which slot a new station gets: the scan over the pool. */
    method Choose(now: int) returns (r: int)
      requires Separate()
      ensures Chosen(used[..], lastUse[..], now, r)
    {
      var i, oldest, oldIdx := 0, now, NIL;
      while i < POOL && used[i]
        invariant 0 <= i <= POOL && forall j :: 0 <= j < i ==> used[j]
        invariant oldIdx == NIL ==> oldest == now
        invariant oldIdx != NIL ==> 0 <= oldIdx < i && lastUse[oldIdx] == oldest < now
        invariant forall j :: 0 <= j < i ==> lastUse[j] >= oldest
        invariant forall j :: 0 <= j < oldIdx ==> lastUse[j] > oldest
      {
        if lastUse[i] < oldest {
          oldest := lastUse[i];
          oldIdx := i;
        }
        i := i + 1;
      }
      r := if i < POOL then i else oldIdx;
    }

    /** The new entry: memset, then pushed on the chain of its address. */
    method Enter(x: int, a: EtherAddr)
      requires Valid() && 0 <= x < POOL && !used[x] && !Known(used[..], ea[..], a)
      modifies this`chains, used, ea, next, hashed
      ensures Valid() && used[..] == old(used[..])[x := true] && ea[..] == old(ea[..])[x := a]
    {
      hide Linked, InBucket, Distinct, AllChained, NoTwice, Hash;
      ghost var us, es, ns, hs, cs := used[..], ea[..], next[..], hashed[..], chains;
      assert forall i :: 0 <= i < POOL && us[i] ==> HeldAt(us, es, es[i], i);
      var h := Hash(a);
      ea[x] := a;
      used[x] := true;
      next[x] := hashed[h];
      hashed[h] := x;
      chains := cs[h := [x] + cs[h]];
      ShapeEntered(us, es, ns, hs, cs, x, a);
      assert used[..] == us[x := true] && ea[..] == es[x := a] && next[..] == ns[x := hs[h]] && hashed[..] == hs[h := x];
    }

    /** lookup_sta. A known station only gets a new time stamp. Otherwise, if asked to, the station is entered
        in the chosen slot, whose old station alone is lost. */
    method Lookup(a: EtherAddr, enter: bool, now: int) returns (sta: int, created: bool)
      requires Valid()
      modifies this`chains, used, ea, lastUse, next, hashed
      ensures Valid()
      ensures sta != NIL ==> HeldAt(used[..], ea[..], a, sta) && lastUse[..] == old(lastUse[..])[sta := now]
      ensures sta == NIL ==> !created && lastUse[..] == old(lastUse[..])
      ensures !created ==> used[..] == old(used[..]) && ea[..] == old(ea[..]) && next[..] == old(next[..])
                           && hashed[..] == old(hashed[..]) && chains == old(chains)
      ensures created ==> used[..] == old(used[..])[sta := true] && ea[..] == old(ea[..])[sta := a]
      ensures old(Known(used[..], ea[..], a)) <==> sta != NIL && !created
      ensures !old(Known(used[..], ea[..], a)) ==>
        if enter then old(Chosen(used[..], lastUse[..], now, sta)) && (created <==> sta != NIL) else sta == NIL
    {
      hide Shape, Known, Hash;
      created := false;
      sta := Find(a);
      KnownAt(used[..], ea[..], a, sta);
      if sta == NIL {
        if !enter { return; }
        ghost var us, es := used[..], ea[..];
        sta := Choose(now);
        if sta == NIL { return; }
        if used[sta] { Toss(sta); }
        StillUnknown(us, es, used[..], a, sta);
        Enter(sta, a);
        assert used[..] == us[sta := true];
        created := true;
      }
      lastUse[sta] := now;
    }
  }

  lemma NotInChain(used: seq<bool>, ea: seq<EtherAddr>, chains: seq<seq<int>>, a: EtherAddr)
    requires AllChained(used, ea, chains)
    requires forall k :: 0 <= k < |chains[Hash(a)]| ==> 0 <= chains[Hash(a)][k] < POOL && ea[chains[Hash(a)][k]] != a
    ensures !Known(used, ea, a)
  {
    if Known(used, ea, a) {
      var r :| HeldAt(used, ea, a, r);
      var k := ChainPosition(used, ea, chains, r);
    }
  }

  lemma ChainMember(h: nat, c: seq<int>, used: seq<bool>, ea: seq<EtherAddr>, k: nat)
    requires InBucket(h, c, used, ea) && k < |c|
    ensures 0 <= c[k] < POOL && used[c[k]]
  {
  }

  lemma KnownAt(used: seq<bool>, ea: seq<EtherAddr>, a: EtherAddr, r: int)
    requires |used| == |ea|
    ensures HeldAt(used, ea, a, r) ==> Known(used, ea, a)
  {
  }

  lemma StillUnknown(used: seq<bool>, ea: seq<EtherAddr>, used': seq<bool>, a: EtherAddr, x: int)
    requires |used| == |ea| && !Known(used, ea, a) && 0 <= x < |used| && (used' == used || used' == used[x := false])
    ensures !Known(used', ea, a)
  {
    if Known(used', ea, a) {
      var r :| HeldAt(used', ea, a, r);
      HeldBefore(used, ea, used', a, x, r);
    }
  }

  lemma HeldBefore(used: seq<bool>, ea: seq<EtherAddr>, used': seq<bool>, a: EtherAddr, x: int, r: int)
    requires |used| == |ea| == |used'| && 0 <= x < |used| && (used' == used || used' == used[x := false])
    requires HeldAt(used', ea, a, r)
    ensures HeldAt(used, ea, a, r)
  {
  }

  lemma ChainPosition(used: seq<bool>, ea: seq<EtherAddr>, chains: seq<seq<int>>, x: int) returns (k: nat)
    requires AllChained(used, ea, chains) && 0 <= x < POOL && used[x]
    ensures k < |chains[Hash(ea[x])]| && chains[Hash(ea[x])][k] == x
  {
    var c := chains[Hash(ea[x])];
    k :| 0 <= k < |c| && c[k] == x;
  }

  lemma LinkHead(head: int, c: seq<int>, next: seq<int>)
    requires Linked(head, c, next)
    ensures head == (if c == [] then NIL else c[0]) && forall k :: 0 <= k < |c| ==> 0 <= c[k] < |next|
  {
  }

  lemma LinkStep(head: int, c: seq<int>, next: seq<int>, k: nat)
    requires Linked(head, c, next) && k < |c|
    ensures 0 <= c[k] < |next| && next[c[k]] == (if k + 1 < |c| then c[k + 1] else NIL)
  {
    assert next[c[k]] == After(c, k);
  }

  lemma SamePlace(c: seq<int>, i: nat, k: nat)
    requires Distinct(c) && i < |c| && k < |c| && c[i] == c[k]
    ensures i == k
  {
  }
}
