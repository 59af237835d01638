/** Allocation-table chains of a compound file ([MS-CFB] section 2.3): sector i is followed by
    sector `table[i]`, and 0xfffffffe ends the chain. The specifications name the special values by their numbers. */
module SectorChains {
  import opened Wrappers

  const FREE_SECTOR: nat := 0xffffffff
  const END_OF_CHAIN: nat := 0xfffffffe
  const FAT_SECTOR: nat := 0xfffffffd
  const DIFAT_SECTOR: nat := 0xfffffffc

  /** `id` may stand in a chain over `table`. */
  predicate Allocatable(table: seq<nat>, id: nat) {
    id < |table| && id != 0xffffffff && id != 0xfffffffe && id != 0xfffffffd && id != 0xfffffffc
  }

  /** `path` lists the sectors from `start` to the end of the chain, in order. */
  ghost predicate IsChain(table: seq<nat>, start: nat, path: seq<nat>)
    decreases |path|
  {
    if path == [] then start == 0xfffffffe
    else path[0] == start && Allocatable(table, start) && IsChain(table, table[start], path[1..])
  }

  /** A table has at most one terminating path from a given start. */
  lemma {:induction false} ChainUnique(table: seq<nat>, start: nat, p: seq<nat>, q: seq<nat>)
    requires IsChain(table, start, p) && IsChain(table, start, q)
    ensures p == q
    decreases |p|
  {
    if p != [] && q != [] {
      ChainUnique(table, table[start], p[1..], q[1..]);
      assert p == [p[0]] + p[1..] && q == [q[0]] + q[1..];
    }
  }

  /** Sector `p[i]` lies in the table, is none of the four special values, and its entry names the next sector or, for
      the last one, the end mark. */
  ghost predicate IsLink(table: seq<nat>, p: seq<nat>, i: nat)
    requires i < |p|
  {
    p[i] < |table| && p[i] !in {0xfffffffc, 0xfffffffd, 0xfffffffe, 0xffffffff}
    && table[p[i]] == if i + 1 < |p| then p[i + 1] else 0xfffffffe
  }

  lemma LinksSplit(table: seq<nat>, p: seq<nat>)
    requires p != []
    ensures (forall i :: 0 <= i < |p| ==> IsLink(table, p, i)) <==>
            IsLink(table, p, 0) && forall i :: 0 <= i < |p[1..]| ==> IsLink(table, p[1..], i)
  {
    forall i | 0 <= i < |p[1..]|
      ensures IsLink(table, p[1..], i) <==> IsLink(table, p, i + 1)
    {
    }
    if IsLink(table, p, 0) && forall i :: 0 <= i < |p[1..]| ==> IsLink(table, p[1..], i) {
      forall i | 0 <= i < |p|
        ensures IsLink(table, p, i)
      {
        assert i == 0 || IsLink(table, p[1..], i - 1);
      }
    }
  }

  /** A chain link by link. */
  lemma {:induction false} ChainsAreExact(table: seq<nat>, start: nat, p: seq<nat>)
    ensures IsChain(table, start, p) <==>
            start == (if p == [] then 0xfffffffe else p[0]) && forall i :: 0 <= i < |p| ==> IsLink(table, p, i)
    decreases |p|
  {
    if p != [] {
      LinksSplit(table, p);
      if p[0] < |table| {
        ChainsAreExact(table, table[p[0]], p[1..]);
      }
    }
  }

  /** Every suffix of a chain is the chain of its own first sector. */
  lemma {:induction false} ChainSuffix(table: seq<nat>, start: nat, p: seq<nat>, i: nat)
    requires IsChain(table, start, p) && i < |p|
    ensures Allocatable(table, p[i]) && IsChain(table, p[i], p[i..])
    decreases i
  {
    if i == 0 {
      assert p[0..] == p;
    } else {
      ChainSuffix(table, table[start], p[1..], i - 1);
      assert p[1..][i - 1..] == p[i..];
    }
  }

  /** A path that terminates never visits a sector twice: two equal sectors would have the same
      remaining chain, of two different lengths. */
  lemma ChainNeverRepeats(table: seq<nat>, start: nat, p: seq<nat>)
    requires IsChain(table, start, p)
    ensures Distinct(p)
  {
    forall i, j | 0 <= i < j < |p|
      ensures p[i] != p[j]
    {
      ChainSuffix(table, start, p, i);
      ChainSuffix(table, start, p, j);
      if p[i] == p[j] {
        ChainUnique(table, p[i], p[i..], p[j..]);
        assert false;
      }
    }
  }

  /** `walked` leads from `start` to `current`: the chains from `start` are exactly `walked` followed by
      the chains from `current`. */
  ghost predicate LeadsTo(table: seq<nat>, start: nat, walked: seq<nat>, current: nat) {
    && (forall rest {:trigger IsChain(table, current, rest)} ::
          IsChain(table, current, rest) ==> IsChain(table, start, walked + rest))
    && (forall p {:trigger IsChain(table, start, p)} ::
          IsChain(table, start, p) ==> walked <= p && IsChain(table, current, p[|walked|..]))
  }

  lemma LeadsToItself(table: seq<nat>, start: nat)
    ensures LeadsTo(table, start, [], start)
  {
    forall rest: seq<nat> | IsChain(table, start, rest)
      ensures IsChain(table, start, [] + rest) && IsChain(table, start, rest[0..])
    {
      assert [] + rest == rest && rest[0..] == rest;
    }
  }

  lemma LeadsOneFurther(table: seq<nat>, start: nat, walked: seq<nat>, current: nat)
    requires LeadsTo(table, start, walked, current) && Allocatable(table, current)
    ensures LeadsTo(table, start, walked + [current], table[current])
  {
    var next, further := table[current], walked + [current];
    forall rest | IsChain(table, next, rest)
      ensures IsChain(table, start, further + rest)
    {
      assert ([current] + rest)[1..] == rest;
      assert IsChain(table, current, [current] + rest);
      assert walked + ([current] + rest) == further + rest;
    }
    forall p | IsChain(table, start, p)
      ensures further <= p && IsChain(table, next, p[|further|..])
    {
      assert p[|walked|..][1..] == p[|further|..];
      assert p[|walked|] == current;
    }
  }

  /** A sector that cannot stand in a chain, or stands in it twice, leaves no chain from `start`. */
  lemma LeadsNowhere(table: seq<nat>, start: nat, walked: seq<nat>, current: nat)
    requires LeadsTo(table, start, walked, current) && current != END_OF_CHAIN
    requires !Allocatable(table, current) || current in walked
    ensures forall p :: !IsChain(table, start, p)
  {
    forall p | IsChain(table, start, p)
      ensures false
    {
      ChainNeverRepeats(table, start, p);
    }
  }

  /** Walks the chain from `start`, giving up on a sector that is out of range, already seen or
      beyond `maxItems`. It fails only when no chain of at most `maxItems` sectors exists: the
      `seen` test never rejects a chain that terminates. */
  method FollowChain(start: nat, table: seq<nat>, maxItems: nat) returns (r: Option<seq<nat>>)
    ensures r.Some? ==> IsChain(table, start, r.value) && |r.value| <= maxItems && Distinct(r.value)
    ensures r.None? ==> forall p :: IsChain(table, start, p) ==> |p| > maxItems
  {
    var result: seq<nat> := [];
    var seen: set<nat> := {};
    var current: nat := start;
    LeadsToItself(table, start);
    while current != END_OF_CHAIN
      invariant forall id :: id in seen <==> id in result
      invariant |result| <= maxItems
      invariant |seen| == |result| && forall id :: id in seen ==> id < |table|
      invariant LeadsTo(table, start, result, current)
      decreases |table| - |seen|
    {
      if current == FREE_SECTOR || current == FAT_SECTOR || current == DIFAT_SECTOR
         || current >= |table| || current in seen
      {
        LeadsNowhere(table, start, result, current);
        return None;
      }
      if |result| >= maxItems {
        return None;
      }
      BoundedSize(seen + {current}, |table|);
      LeadsOneFurther(table, start, result, current);
      seen := seen + {current};
      result := result + [current];
      current := table[current];
    }
    assert IsChain(table, current, []);
    assert result + [] == result;
    ChainNeverRepeats(table, start, result);
    return Some(result);
  }

  /** A set of numbers below `n` has at most `n` members. */
  lemma {:induction false} BoundedSize(s: set<nat>, n: nat)
    requires forall x :: x in s ==> x < n
    ensures |s| <= n
  {
    if n > 0 {
      BoundedSize(s - {n - 1}, n - 1);
    } else {
      assert s == {};
    }
  }
}
