/** Grouping of spans: the bucket `Map` (keys in insertion order), the
    anchor-based greedy grouping used for rhymes and for assonance, and the
    two methods that run it with a `groupOf` array or a `used` array. */
module Grouping {
  import opened Phones
  import opened Distance

  /** A word considered for rhyming: its token index, line, word, rhyming
      tail, bucket key and whether it ends its line. */
  datatype Span = Span(i: nat, line: nat, word: string, tail: NucleusCoda, bucketKey: string, isEnd: bool)

  /** `ps[0] || '_'`. */
  function FirstOr(ps: seq<string>): string {
    if ps != [] && ps[0] != "" then ps[0] else "_"
  }

  /** `ps[ps.length - 1] || '_'`. */
  function LastOr(ps: seq<string>): string {
    if ps != [] && ps[|ps| - 1] != "" then ps[|ps| - 1] else "_"
  }

  /** The rhyme bucket key: the nucleus phone and the last coda phone. */
  function BucketKey(t: NucleusCoda): string {
    FirstOr(t.nucleus) + "|" + LastOr(t.coda)
  }

  /** The assonance bucket key: the nucleus phone alone. */
  function NucleusKey(t: NucleusCoda): string {
    FirstOr(t.nucleus)
  }

  predicate Increasing(xs: seq<nat>) {
    forall a, b :: 0 <= a < b < |xs| ==> xs[a] < xs[b]
  }

  predicate Distinct<T(==)>(xs: seq<T>) {
    forall a, b :: 0 <= a < b < |xs| ==> xs[a] != xs[b]
  }

  // ----- The bucket map -----

  /** The distinct keys in order of first appearance: the order in which a
      `Map` built by `set` on first sight iterates. */
  function KeyOrder(keys: seq<string>): (r: seq<string>)
    ensures forall k :: k in r <==> k in keys
    ensures Distinct(r)
    decreases |keys|
  {
    if keys == [] then []
    else
      var p := KeyOrder(keys[..|keys| - 1]);
      assert forall k :: k in keys <==> k in keys[..|keys| - 1] || k == keys[|keys| - 1];
      if keys[|keys| - 1] in p then p else p + [keys[|keys| - 1]]
  }

  /** The positions holding key `k`, ascending: the array a bucket collects. */
  function IndicesOf(keys: seq<string>, k: string): (r: seq<nat>)
    ensures Increasing(r)
    ensures forall i: nat :: i in r <==> i < |keys| && keys[i] == k
    decreases |keys|
  {
    if keys == [] then []
    else
      var front := keys[..|keys| - 1];
      var p := IndicesOf(front, k);
      assert forall a :: 0 <= a < |p| ==> p[a] < |front| by {
        forall a | 0 <= a < |p| ensures p[a] < |front| {
          assert p[a] in p;
        }
      }
      assert forall i :: 0 <= i < |front| ==> front[i] == keys[i];
      if keys[|keys| - 1] == k then p + [|keys| - 1] else p
  }

  /** The bucket arrays in iteration order. */
  function BucketLists(keys: seq<string>): (r: seq<seq<nat>>)
    ensures |r| == |KeyOrder(keys)|
    ensures forall m :: 0 <= m < |r| ==> r[m] == IndicesOf(keys, KeyOrder(keys)[m])
  {
    var order := KeyOrder(keys);
    seq(|order|, m requires 0 <= m < |order| => IndicesOf(keys, order[m]))
  }

  /** The buckets are never empty and no position lies in two of them;
      every position lies in the bucket of its key, which `KeyOrder` lists. */
  lemma BucketsPartition(keys: seq<string>)
    ensures var bs := BucketLists(keys);
            && (forall m :: 0 <= m < |bs| ==> bs[m] != [])
            && (forall m, n, i :: 0 <= m < n < |bs| && i in bs[m] ==> i !in bs[n])
  {
    var order := KeyOrder(keys);
    var bs := BucketLists(keys);
    forall m | 0 <= m < |bs| ensures bs[m] != [] {
      assert order[m] in keys;
      var i :| 0 <= i < |keys| && keys[i] == order[m];
      assert i in bs[m];
    }
  }

  lemma IndicesStep(keys: seq<string>, s: nat, k: string)
    requires s < |keys|
    ensures IndicesOf(keys[..s + 1], k) == IndicesOf(keys[..s], k) + (if keys[s] == k then [s] else [])
  {
    assert keys[..s + 1][..s] == keys[..s];
  }

  lemma IndicesAbsent(keys: seq<string>, k: string)
    requires k !in keys
    ensures IndicesOf(keys, k) == []
  {
  }

  /** The loop that fills the bucket `Map`: the map itself, and the order in
      which its keys were first set. */
  method Buckets(keys: seq<string>) returns (order: seq<string>, buckets: map<string, seq<nat>>)
    ensures order == KeyOrder(keys)
    ensures buckets.Keys == set k | k in order
    ensures forall k | k in buckets :: buckets[k] == IndicesOf(keys, k)
  {
    order, buckets := [], map[];
    for s := 0 to |keys|
      invariant order == KeyOrder(keys[..s])
      invariant buckets.Keys == set k | k in order
      invariant forall k | k in buckets :: buckets[k] == IndicesOf(keys[..s], k)
    {
      assert keys[..s + 1][..s] == keys[..s];
      var k := keys[s];
      if k !in buckets {
        IndicesAbsent(keys[..s], k);
        buckets := buckets[k := []];
        order := order + [k];
      }
      buckets := buckets[k := buckets[k] + [s]];
      forall k' | k' in buckets ensures buckets[k'] == IndicesOf(keys[..s + 1], k') {
        IndicesStep(keys, s, k');
      }
    }
    assert keys[..|keys|] == keys;
  }

  // ----- The greedy grouping -----

  /** `tryJoin`: two spans join when their rhyme distance is within the
      perfect threshold if both end their lines, and within the slant
      threshold otherwise. Positions outside the spans never join. */
  function RhymeJoin(spans: seq<Span>, perfT: real, slantT: real): (nat, nat) -> bool {
    (a: nat, b: nat) =>
      && a < |spans| && b < |spans|
      && RhymeDist(spans[a].tail, spans[b].tail) <= (if spans[a].isEnd && spans[b].isEnd then perfT else slantT)
  }

  /** `tryJoin` does not depend on the order of its two spans. */
  lemma RhymeJoinSymmetric(spans: seq<Span>, perfT: real, slantT: real, a: nat, b: nat)
    ensures RhymeJoin(spans, perfT, slantT)(a, b) == RhymeJoin(spans, perfT, slantT)(b, a)
  {
    if a < |spans| && b < |spans| {
      RhymeDistSymmetric(spans[a].tail, spans[b].tail);
    }
  }

  /** The assonance test: nucleus distance within the threshold. */
  function VowelJoin(spans: seq<Span>, th: real): (nat, nat) -> bool {
    (a: nat, b: nat) =>
      a < |spans| && b < |spans| && NucleusDist(spans[a].tail.nucleus, spans[b].tail.nucleus) <= th
  }

  lemma MemberBelow(xs: seq<nat>, e: nat)
    requires Increasing(xs) && xs != [] && e in xs[..|xs| - 1]
    ensures e < xs[|xs| - 1]
  {
    var i :| 0 <= i < |xs| - 1 && xs[..|xs| - 1][i] == e;
  }

  /** The members of `xs` that join anchor `a`, in order. */
  function Joined(join: (nat, nat) -> bool, a: nat, xs: seq<nat>): (r: seq<nat>)
    ensures |r| <= |xs|
    decreases |xs|
  {
    if xs == [] then []
    else Joined(join, a, xs[..|xs| - 1]) + (if join(a, xs[|xs| - 1]) then [xs[|xs| - 1]] else [])
  }

  /** The members of `xs` that do not join anchor `a`, in order. */
  function Unjoined(join: (nat, nat) -> bool, a: nat, xs: seq<nat>): (r: seq<nat>)
    ensures |r| <= |xs|
    decreases |xs|
  {
    if xs == [] then []
    else Unjoined(join, a, xs[..|xs| - 1]) + (if join(a, xs[|xs| - 1]) then [] else [xs[|xs| - 1]])
  }

  lemma SnocIncreasing(p: seq<nat>, xs: seq<nat>)
    requires Increasing(xs) && xs != [] && forall e :: e in p ==> e in xs[..|xs| - 1]
    requires Increasing(p)
    ensures Increasing(p + [xs[|xs| - 1]])
  {
    forall k | 0 <= k < |p| ensures p[k] < xs[|xs| - 1] {
      assert p[k] in p;
      MemberBelow(xs, p[k]);
    }
  }

  /** `Joined` and `Unjoined` split `xs` by the join test, keeping it ascending. */
  lemma {:induction false} SplitMembers(join: (nat, nat) -> bool, a: nat, xs: seq<nat>)
    ensures forall e :: e in Joined(join, a, xs) <==> e in xs && join(a, e)
    ensures forall e :: e in Unjoined(join, a, xs) <==> e in xs && !join(a, e)
    ensures Increasing(xs) ==> Increasing(Joined(join, a, xs)) && Increasing(Unjoined(join, a, xs))
    decreases |xs|
  {
    if xs != [] {
      var front := xs[..|xs| - 1];
      SplitMembers(join, a, front);
      assert forall e :: e in xs <==> e in front || e == xs[|xs| - 1];
      if Increasing(xs) {
        assert Increasing(front);
        if join(a, xs[|xs| - 1]) {
          SnocIncreasing(Joined(join, a, front), xs);
        } else {
          SnocIncreasing(Unjoined(join, a, front), xs);
        }
      }
    }
  }

  /** The greedy pass over one bucket: the first open member anchors a group
      of every later open member that joins it; the group is kept when it
      has a second member, and the anchor is given up otherwise. */
  function Greedy(join: (nat, nat) -> bool, arr: seq<nat>): seq<seq<nat>>
    decreases |arr|
  {
    if arr == [] then []
    else
      var a := arr[0];
      var joined := Joined(join, a, arr[1..]);
      (if joined != [] then [[a] + joined] else []) + Greedy(join, Unjoined(join, a, arr[1..]))
  }

  /** A group as the source builds it: at least two members, ascending, the
      anchor first, and every other member joining the anchor. */
  predicate WellFormedGroup(join: (nat, nat) -> bool, g: seq<nat>) {
    && |g| >= 2
    && Increasing(g)
    && forall k :: 1 <= k < |g| ==> join(g[0], g[k])
  }

  predicate Disjoint(gs: seq<seq<nat>>) {
    forall p, q, e :: 0 <= p < q < |gs| && e in gs[p] ==> e !in gs[q]
  }

  lemma DisjointAppend(gs: seq<seq<nat>>, hs: seq<seq<nat>>)
    requires Disjoint(gs) && Disjoint(hs)
    requires forall p, q, e :: 0 <= p < |gs| && 0 <= q < |hs| && e in gs[p] ==> e !in hs[q]
    ensures Disjoint(gs + hs)
  {
    var r := gs + hs;
    forall p, q, e | 0 <= p < q < |r| && e in r[p] ensures e !in r[q] {
      if q < |gs| {
        assert r[p] == gs[p] && r[q] == gs[q];
      } else if p < |gs| {
        assert r[p] == gs[p] && r[q] == hs[q - |gs|];
      } else {
        assert r[p] == hs[p - |gs|] && r[q] == hs[q - |gs|];
      }
    }
  }

  /** Every member of every group is in `xs`. */
  predicate Within(gs: seq<seq<nat>>, xs: seq<nat>) {
    forall p, e :: 0 <= p < |gs| && e in gs[p] ==> e in xs
  }

  /** The group an anchor collects is well formed. */
  lemma AnchorGroup(join: (nat, nat) -> bool, arr: seq<nat>)
    requires Increasing(arr) && arr != [] && Joined(join, arr[0], arr[1..]) != []
    ensures var g := [arr[0]] + Joined(join, arr[0], arr[1..]);
            && WellFormedGroup(join, g)
            && forall e :: e in g ==> e in arr && (e == arr[0] || join(arr[0], e))
  {
    var a, rest := arr[0], arr[1..];
    SplitMembers(join, a, rest);
    assert arr == [a] + rest;
    AnchorShape(join, a, rest, Joined(join, a, rest));
  }

  /** An anchor below every member of `rest`, followed by the ascending
      members of `rest` that join it, is a well-formed group. */
  lemma AnchorShape(join: (nat, nat) -> bool, a: nat, rest: seq<nat>, joined: seq<nat>)
    requires Increasing([a] + rest)
    requires joined != [] && Increasing(joined)
    requires forall e :: e in joined <==> e in rest && join(a, e)
    ensures var g := [a] + joined;
            && WellFormedGroup(join, g)
            && forall e :: e in g ==> e in [a] + rest && (e == a || join(a, e))
  {
    var arr := [a] + rest;
    var g := [a] + joined;
    forall k | 1 <= k < |g| ensures g[k] == joined[k - 1] && join(a, g[k]) && a < g[k] {
      assert joined[k - 1] in joined;
      var i :| 0 <= i < |rest| && rest[i] == joined[k - 1];
      assert arr[0] == a && arr[i + 1] == rest[i];
      assert arr[0] < arr[i + 1];
    }
    forall e | e in g ensures e in arr && (e == a || join(a, e)) {
      if e != a {
        assert e in joined;
      }
    }
  }

  lemma WithinAppend(gs: seq<seq<nat>>, hs: seq<seq<nat>>, xs: seq<nat>)
    requires Within(gs, xs) && Within(hs, xs)
    ensures Within(gs + hs, xs)
  {
    var r := gs + hs;
    forall p, e | 0 <= p < |r| && e in r[p] ensures e in xs {
      if p >= |gs| {
        assert r[p] == hs[p - |gs|];
      } else {
        assert r[p] == gs[p];
      }
    }
  }

  lemma WithinWider(gs: seq<seq<nat>>, xs: seq<nat>, ys: seq<nat>)
    requires Within(gs, xs) && forall e :: e in xs ==> e in ys
    ensures Within(gs, ys)
  {
  }

  /** A group none of whose members is in `rest` shares no member with
      groups drawn from `rest`. */
  lemma SeparateFrom(g: seq<nat>, tail: seq<seq<nat>>, rest: seq<nat>)
    requires Within(tail, rest) && forall e :: e in g ==> e !in rest
    ensures forall p, q, e :: 0 <= p < |[g]| && 0 <= q < |tail| && e in [g][p] ==> e !in tail[q]
  {
  }

  /** Every group of the greedy pass is well formed and drawn from the
      bucket, and no position is in two groups. */
  lemma {:induction false} GreedyShape(join: (nat, nat) -> bool, arr: seq<nat>)
    requires Increasing(arr)
    ensures GreedyGroups(join, Greedy(join, arr), arr)
    decreases |arr|
  {
    if arr != [] {
      var a := arr[0];
      var xs := arr[1..];
      var joined := Joined(join, a, xs);
      var rest := Unjoined(join, a, xs);
      SplitMembers(join, a, xs);
      GreedyShape(join, rest);
      var tail := Greedy(join, rest);
      if joined != [] {
        AnchorGroup(join, arr);
        assert a !in rest by {
          assert forall e :: e in xs ==> a < e;
        }
        GroupThenTail(join, [a] + joined, tail, rest, arr);
        assert Greedy(join, arr) == [[a] + joined] + tail;
      } else {
        WithinWider(tail, rest, arr);
        assert Greedy(join, arr) == tail;
      }
    }
  }

  /** The groups are well formed, drawn from `arr`, and share no member. */
  predicate GreedyGroups(join: (nat, nat) -> bool, gs: seq<seq<nat>>, arr: seq<nat>) {
    AllWellFormed(join, gs) && Within(gs, arr) && Disjoint(gs)
  }

  /** An anchor's group followed by the groups of the members it left. */
  lemma GroupThenTail(join: (nat, nat) -> bool, g: seq<nat>, tail: seq<seq<nat>>, rest: seq<nat>, arr: seq<nat>)
    requires WellFormedGroup(join, g) && Within([g], arr)
    requires GreedyGroups(join, tail, rest)
    requires forall e :: e in rest ==> e in arr
    requires forall e :: e in g ==> e !in rest
    ensures GreedyGroups(join, [g] + tail, arr)
  {
    WithinWider(tail, rest, arr);
    SeparateFrom(g, tail, rest);
    DisjointAppend([g], tail);
    WithinAppend([g], tail, arr);
    AllWellFormedCons(join, g, tail);
  }

  lemma AllWellFormedCons(join: (nat, nat) -> bool, g: seq<nat>, tail: seq<seq<nat>>)
    requires WellFormedGroup(join, g) && AllWellFormed(join, tail)
    ensures AllWellFormed(join, [g] + tail)
  {
    forall p | 0 <= p < |[g] + tail| ensures WellFormedGroup(join, ([g] + tail)[p]) {
      if p > 0 {
        assert ([g] + tail)[p] == tail[p - 1];
      }
    }
  }

  /** The groups of all buckets, bucket after bucket. */
  function AllGroups(join: (nat, nat) -> bool, arrs: seq<seq<nat>>): seq<seq<nat>>
    decreases |arrs|
  {
    if arrs == [] then [] else AllGroups(join, arrs[..|arrs| - 1]) + Greedy(join, arrs[|arrs| - 1])
  }

  /** Every member of every group is a position of `keys`, has the key of
      its group's anchor, and that key is one of `ks`. */
  predicate Keyed(gs: seq<seq<nat>>, keys: seq<string>, ks: seq<string>) {
    forall p, e :: 0 <= p < |gs| && e in gs[p] ==>
      e < |keys| && gs[p] != [] && gs[p][0] < |keys| && keys[e] == keys[gs[p][0]] && keys[e] in ks
  }

  lemma KeyedAppend(gs: seq<seq<nat>>, hs: seq<seq<nat>>, keys: seq<string>, ks: seq<string>, ks': seq<string>)
    requires Keyed(gs, keys, ks) && Keyed(hs, keys, ks')
    requires forall k :: k in ks ==> k in ks'
    ensures Keyed(gs + hs, keys, ks')
  {
    var r := gs + hs;
    forall p, e | 0 <= p < |r| && e in r[p]
      ensures e < |keys| && r[p] != [] && r[p][0] < |keys| && keys[e] == keys[r[p][0]] && keys[e] in ks'
    {
      if p >= |gs| {
        assert r[p] == hs[p - |gs|];
      } else {
        assert r[p] == gs[p];
      }
    }
  }

  /** Groups drawn from one bucket are keyed by the bucket's key. */
  lemma BucketKeyed(gs: seq<seq<nat>>, keys: seq<string>, k: string)
    requires Within(gs, IndicesOf(keys, k))
    requires forall p :: 0 <= p < |gs| ==> gs[p] != []
    ensures Keyed(gs, keys, [k])
  {
    forall p, e | 0 <= p < |gs| && e in gs[p]
      ensures e < |keys| && gs[p][0] < |keys| && keys[e] == keys[gs[p][0]] && keys[e] in [k]
    {
      assert gs[p][0] in gs[p];
      assert gs[p][0] in IndicesOf(keys, k) && e in IndicesOf(keys, k);
    }
  }

  /** Groups with keys in `ks` and groups with a key outside `ks` share no member. */
  lemma KeyedApart(gs: seq<seq<nat>>, hs: seq<seq<nat>>, keys: seq<string>, ks: seq<string>, k: string)
    requires Keyed(gs, keys, ks) && Keyed(hs, keys, [k]) && k !in ks
    ensures forall p, q, e :: 0 <= p < |gs| && 0 <= q < |hs| && e in gs[p] ==> e !in hs[q]
  {
  }

  predicate AllWellFormed(join: (nat, nat) -> bool, gs: seq<seq<nat>>) {
    forall p :: 0 <= p < |gs| ==> WellFormedGroup(join, gs[p])
  }

  lemma AllWellFormedAppend(join: (nat, nat) -> bool, gs: seq<seq<nat>>, hs: seq<seq<nat>>)
    requires AllWellFormed(join, gs) && AllWellFormed(join, hs)
    ensures AllWellFormed(join, gs + hs)
  {
    var r := gs + hs;
    forall p | 0 <= p < |r| ensures WellFormedGroup(join, r[p]) {
      if p >= |gs| {
        assert r[p] == hs[p - |gs|];
      } else {
        assert r[p] == gs[p];
      }
    }
  }

  /** Groups `gs` are well formed, keyed by `keys` within `ks`, and disjoint. */
  predicate GroupsOver(join: (nat, nat) -> bool, gs: seq<seq<nat>>, keys: seq<string>, ks: seq<string>) {
    AllWellFormed(join, gs) && Keyed(gs, keys, ks) && Disjoint(gs)
  }

  /** Adding the groups of a bucket with a new key to groups of earlier buckets. */
  lemma NextBucket(join: (nat, nat) -> bool, keys: seq<string>, front: seq<seq<nat>>, back: seq<seq<nat>>,
                   ks: seq<string>, k: string)
    requires GroupsOver(join, front, keys, ks)
    requires AllWellFormed(join, back) && Within(back, IndicesOf(keys, k)) && Disjoint(back)
    requires k !in ks
    ensures GroupsOver(join, front + back, keys, ks + [k])
  {
    AllWellFormedAppend(join, front, back);
    BucketKeyed(back, keys, k);
    KeyedApart(front, back, keys, ks, k);
    DisjointAppend(front, back);
    KeyedAppend(front, [], keys, ks, ks + [k]);
    KeyedAppend(back, [], keys, [k], ks + [k]);
    assert front + [] == front && back + [] == back;
    KeyedAppend(front, back, keys, ks + [k], ks + [k]);
  }

  /** Over the buckets of `keys`: every group is well formed, all its
      members share one key, and no position is in two groups. */
  lemma {:induction false} AllGroupsShape(join: (nat, nat) -> bool, keys: seq<string>, m: nat)
    requires m <= |KeyOrder(keys)|
    ensures GroupsOver(join, AllGroups(join, BucketLists(keys)[..m]), keys, KeyOrder(keys)[..m])
  {
    ListsShape(join, keys, BucketLists(keys), KeyOrder(keys), m);
  }

  /** `AllGroupsShape` over any lists `bs` of the positions of distinct keys `order`. */
  lemma {:induction false} ListsShape(join: (nat, nat) -> bool, keys: seq<string>, bs: seq<seq<nat>>,
                                      order: seq<string>, m: nat)
    requires m <= |bs| == |order| && Distinct(order)
    requires forall i :: 0 <= i < |bs| ==> bs[i] == IndicesOf(keys, order[i])
    ensures GroupsOver(join, AllGroups(join, bs[..m]), keys, order[..m])
  {
    if m == 0 {
      assert bs[..m] == [];
    } else {
      ListsShape(join, keys, bs, order, m - 1);
      assert bs[..m][..m - 1] == bs[..m - 1];
      assert order[..m] == order[..m - 1] + [order[m - 1]];
      assert bs[..m][m - 1] == IndicesOf(keys, order[m - 1]);
      LastNotInFront(order, m);
      BucketStep(join, keys, bs[..m], order[..m - 1], order[m - 1]);
    }
  }

  /** The groups of one more bucket, whose key is new, keep `GroupsOver`. */
  lemma BucketStep(join: (nat, nat) -> bool, keys: seq<string>, bs: seq<seq<nat>>, ks: seq<string>, k: string)
    requires bs != [] && bs[|bs| - 1] == IndicesOf(keys, k) && k !in ks
    requires GroupsOver(join, AllGroups(join, bs[..|bs| - 1]), keys, ks)
    ensures GroupsOver(join, AllGroups(join, bs), keys, ks + [k])
  {
    var front, back := AllGroups(join, bs[..|bs| - 1]), Greedy(join, bs[|bs| - 1]);
    GreedyShape(join, bs[|bs| - 1]);
    NextBucket(join, keys, front, back, ks, k);
  }

  lemma LastNotInFront(xs: seq<string>, m: nat)
    requires Distinct(xs) && 0 < m <= |xs|
    ensures xs[m - 1] !in xs[..m - 1]
  {
  }


  /** A whole pass over the buckets of `keys`. */
  lemma GroupsShape(join: (nat, nat) -> bool, keys: seq<string>)
    ensures var gs := AllGroups(join, BucketLists(keys));
            && AllWellFormed(join, gs)
            && Keyed(gs, keys, KeyOrder(keys))
            && Disjoint(gs)
  {
    AllGroupsShape(join, keys, |KeyOrder(keys)|);
    assert BucketLists(keys)[..|KeyOrder(keys)|] == BucketLists(keys);
    assert KeyOrder(keys)[..|KeyOrder(keys)|] == KeyOrder(keys);
  }

  /** The buckets with at least two members, in order. */
  function Populous(arrs: seq<seq<nat>>): (r: seq<seq<nat>>)
    ensures |r| <= |arrs|
    decreases |arrs|
  {
    if arrs == [] then []
    else Populous(arrs[..|arrs| - 1]) + (if |arrs[|arrs| - 1]| >= 2 then [arrs[|arrs| - 1]] else [])
  }

  lemma {:induction false} JoinedAll(join: (nat, nat) -> bool, a: nat, xs: seq<nat>)
    requires forall k :: 0 <= k < |xs| ==> join(a, xs[k])
    ensures Joined(join, a, xs) == xs && Unjoined(join, a, xs) == []
    decreases |xs|
  {
    if xs != [] {
      var front := xs[..|xs| - 1];
      JoinedAll(join, a, front);
      assert xs == front + [xs[|xs| - 1]];
    }
  }


  lemma {:induction false} JoinedNone(join: (nat, nat) -> bool, a: nat, xs: seq<nat>)
    requires forall k :: 0 <= k < |xs| ==> !join(a, xs[k])
    ensures Joined(join, a, xs) == [] && Unjoined(join, a, xs) == xs
    decreases |xs|
  {
    if xs != [] {
      var front := xs[..|xs| - 1];
      JoinedNone(join, a, front);
      assert xs == front + [xs[|xs| - 1]];
    }
  }


  /** When the anchor joins every other member, the bucket is one group,
      kept only if it has a second member. */
  lemma GreedyAllJoin(join: (nat, nat) -> bool, arr: seq<nat>)
    requires arr != [] && forall k :: 1 <= k < |arr| ==> join(arr[0], arr[k])
    ensures Greedy(join, arr) == if |arr| >= 2 then [arr] else []
  {
    var a, xs := arr[0], arr[1..];
    forall k | 0 <= k < |xs| ensures join(a, xs[k]) {
      assert xs[k] == arr[k + 1];
    }
    JoinedAll(join, a, xs);
    GreedyWhole(join, a, xs);
    assert [a] + xs == arr;
    assert |arr| >= 2 <==> xs != [];
  }

  /** An anchor that collects all the rest makes the only group. */
  lemma GreedyWhole(join: (nat, nat) -> bool, a: nat, xs: seq<nat>)
    requires Joined(join, a, xs) == xs && Unjoined(join, a, xs) == []
    ensures Greedy(join, [a] + xs) == if xs != [] then [[a] + xs] else []
  {
    GreedyAnchor(join, a, xs);
    assert Greedy(join, []) == [];
  }


  /** When no two positions join, the pass finds no group. */
  lemma {:induction false} GreedyNoJoin(join: (nat, nat) -> bool, arr: seq<nat>)
    requires forall a, b :: !join(a, b)
    ensures Greedy(join, arr) == []
    decreases |arr|
  {
    if arr != [] {
      JoinedNone(join, arr[0], arr[1..]);
      GreedyNoJoin(join, arr[1..]);
    }
  }

  /** When every anchor joins its whole bucket, the groups are exactly the
      buckets with at least two members. */
  lemma {:induction false} AllGroupsAllJoin(join: (nat, nat) -> bool, arrs: seq<seq<nat>>)
    requires forall m :: 0 <= m < |arrs| ==> arrs[m] != [] && forall k :: 1 <= k < |arrs[m]| ==> join(arrs[m][0], arrs[m][k])
    ensures AllGroups(join, arrs) == Populous(arrs)
    decreases |arrs|
  {
    if arrs != [] {
      var front := arrs[..|arrs| - 1];
      assert forall m :: 0 <= m < |front| ==> front[m] == arrs[m];
      AllGroupsAllJoin(join, front);
      GreedyAllJoin(join, arrs[|arrs| - 1]);
    }
  }

  /** When no two positions join, a pass finds no group at all. */
  lemma {:induction false} AllGroupsNoJoin(join: (nat, nat) -> bool, arrs: seq<seq<nat>>)
    requires forall a, b :: !join(a, b)
    ensures AllGroups(join, arrs) == []
    decreases |arrs|
  {
    if arrs != [] {
      AllGroupsNoJoin(join, arrs[..|arrs| - 1]);
      GreedyNoJoin(join, arrs[|arrs| - 1]);
    }
  }

  // ----- The passes over one bucket, with a flag per bucket position -----

  /** The members of `arr[lo..hi]` whose flag is clear, in order. */
  function Pending(arr: seq<nat>, used: seq<bool>, lo: nat, hi: nat): (r: seq<nat>)
    requires lo <= hi <= |arr| == |used|
    ensures |r| <= hi - lo
    decreases hi - lo
  {
    if hi == lo then []
    else Pending(arr, used, lo, hi - 1) + (if used[hi - 1] then [] else [arr[hi - 1]])
  }

  lemma {:induction false} PendingCons(arr: seq<nat>, used: seq<bool>, lo: nat, hi: nat)
    requires lo < hi <= |arr| == |used|
    ensures Pending(arr, used, lo, hi) == (if used[lo] then [] else [arr[lo]]) + Pending(arr, used, lo + 1, hi)
    decreases hi - lo
  {
    if hi > lo + 1 {
      PendingCons(arr, used, lo, hi - 1);
    }
  }

  /** Flags outside `lo..hi` do not matter. */
  lemma {:induction false} PendingFrame(arr: seq<nat>, used: seq<bool>, used': seq<bool>, lo: nat, hi: nat)
    requires lo <= hi <= |arr| == |used| == |used'|
    requires used[lo..hi] == used'[lo..hi]
    ensures Pending(arr, used, lo, hi) == Pending(arr, used', lo, hi)
    decreases hi - lo
  {
    if hi > lo {
      assert used[hi - 1] == used[lo..hi][hi - 1 - lo];
      assert used[lo..hi - 1] == used[lo..hi][..hi - 1 - lo];
      assert used'[lo..hi - 1] == used'[lo..hi][..hi - 1 - lo];
      PendingFrame(arr, used, used', lo, hi - 1);
    }
  }

  /** With every flag clear, all of `arr[lo..hi]` is pending. */
  lemma {:induction false} PendingNone(arr: seq<nat>, used: seq<bool>, lo: nat, hi: nat)
    requires lo <= hi <= |arr| == |used|
    requires forall i :: lo <= i < hi ==> !used[i]
    ensures Pending(arr, used, lo, hi) == arr[lo..hi]
    decreases hi - lo
  {
    if hi > lo {
      PendingNone(arr, used, lo, hi - 1);
      assert arr[lo..hi] == arr[lo..hi - 1] + [arr[hi - 1]];
    }
  }

  lemma JoinedSnoc(join: (nat, nat) -> bool, a: nat, xs: seq<nat>, b: nat)
    ensures Joined(join, a, xs + [b]) == Joined(join, a, xs) + (if join(a, b) then [b] else [])
    ensures Unjoined(join, a, xs + [b]) == Unjoined(join, a, xs) + (if join(a, b) then [] else [b])
  {
    assert (xs + [b])[..|xs|] == xs;
  }

  /** The greedy pass unfolded at a pending anchor `a`. */
  lemma GreedyAnchor(join: (nat, nat) -> bool, a: nat, rest: seq<nat>)
    ensures Greedy(join, [a] + rest)
         == (if Joined(join, a, rest) != [] then [[a] + Joined(join, a, rest)] else []) + Greedy(join, Unjoined(join, a, rest))
  {
    assert ([a] + rest)[1..] == rest;
  }

  /** What the groups so far and the greedy pass over the pending members
      become once anchor `a` has collected its group. */
  lemma AnchorStep(join: (nat, nat) -> bool, gs: seq<seq<nat>>, a: nat, rest: seq<nat>)
    ensures var group := [a] + Joined(join, a, rest);
            (if |group| > 1 then gs + [group] else gs) + Greedy(join, Unjoined(join, a, rest))
            == gs + Greedy(join, [a] + rest)
  {
    GreedyAnchor(join, a, rest);
  }

  /** `tryJoin(aIdx, bIdx)`. */
  method TryJoin(spans: seq<Span>, perfT: real, slantT: real, a: nat, b: nat) returns (ok: bool)
    requires a < |spans| && b < |spans|
    ensures ok == RhymeJoin(spans, perfT, slantT)(a, b)
  {
    var d := RhymeDistance(spans[a].tail, spans[b].tail);
    var endPair := spans[a].isEnd && spans[b].isEnd;
    var th := if endPair then perfT else slantT;
    ok := d <= th;
  }

  /** What the inner loop keeps after the members before `y`: flags up to
      the anchor and from `y` on untouched, the group so far the anchor and
      the pending members before `y` that join it, the members left pending
      those that do not. */
  ghost predicate CollectInv(join: (nat, nat) -> bool, arr: seq<nat>, x: nat, used0: seq<bool>,
                             y: nat, group: seq<nat>, used: seq<bool>)
    requires x < y <= |arr| == |used0|
  {
    && |used| == |used0| && used[..x + 1] == used0[..x + 1]
    && used[y..] == used0[y..]
    && group == [arr[x]] + Joined(join, arr[x], Pending(arr, used0, x + 1, y))
    && Pending(arr, used, x + 1, y) == Unjoined(join, arr[x], Pending(arr, used0, x + 1, y))
  }

  /** Equal suffixes from `y` agree at `y` and from `y + 1`. */
  lemma SuffixTail(u: seq<bool>, v: seq<bool>, y: nat)
    requires y < |u| == |v| && u[y..] == v[y..]
    ensures u[y] == v[y] && u[y + 1..] == v[y + 1..]
  {
    assert u[y] == u[y..][0] && v[y] == v[y..][0];
    assert u[y + 1..] == u[y..][1..] && v[y + 1..] == v[y..][1..];
  }

  /** A flagged member is passed over. */
  lemma CollectSkip(join: (nat, nat) -> bool, arr: seq<nat>, x: nat, used0: seq<bool>,
                    y: nat, group: seq<nat>, used: seq<bool>)
    requires x < y < |arr| == |used0|
    requires CollectInv(join, arr, x, used0, y, group, used) && used[y]
    ensures CollectInv(join, arr, x, used0, y + 1, group, used)
  {
    SuffixTail(used, used0, y);
    var P0, P := Pending(arr, used0, x + 1, y), Pending(arr, used, x + 1, y);
    assert Pending(arr, used0, x + 1, y + 1) == P0 + [] == P0;
    assert Pending(arr, used, x + 1, y + 1) == P + [] == P;
  }

  /** An open member that joins the anchor is taken and flagged. */
  lemma CollectTake(join: (nat, nat) -> bool, arr: seq<nat>, x: nat, used0: seq<bool>,
                    y: nat, group: seq<nat>, used: seq<bool>)
    requires x < y < |arr| == |used0|
    requires CollectInv(join, arr, x, used0, y, group, used) && !used[y] && join(arr[x], arr[y])
    ensures CollectInv(join, arr, x, used0, y + 1, group + [arr[y]], used[y := true])
  {
    var a, b := arr[x], arr[y];
    SuffixTail(used, used0, y);
    var P0 := Pending(arr, used0, x + 1, y);
    assert Pending(arr, used0, x + 1, y + 1) == P0 + [b];
    JoinedSnoc(join, a, P0, b);
    var used' := used[y := true];
    PendingFrame(arr, used', used, x + 1, y);
    assert Pending(arr, used', x + 1, y + 1) == Pending(arr, used', x + 1, y) + [];
    assert used'[..x + 1] == used[..x + 1];
    assert used'[y + 1..] == used[y + 1..];
  }

  /** An open member that does not join the anchor stays open. */
  lemma CollectPass(join: (nat, nat) -> bool, arr: seq<nat>, x: nat, used0: seq<bool>,
                    y: nat, group: seq<nat>, used: seq<bool>)
    requires x < y < |arr| == |used0|
    requires CollectInv(join, arr, x, used0, y, group, used) && !used[y] && !join(arr[x], arr[y])
    ensures CollectInv(join, arr, x, used0, y + 1, group, used)
  {
    var a, b := arr[x], arr[y];
    SuffixTail(used, used0, y);
    var P0 := Pending(arr, used0, x + 1, y);
    assert Pending(arr, used0, x + 1, y + 1) == P0 + [b];
    JoinedSnoc(join, a, P0, b);
    assert Pending(arr, used, x + 1, y + 1) == Pending(arr, used, x + 1, y) + [b];
  }

  /** The inner loop of both passes: anchor `arr[x]` takes every later
      member whose flag is clear and that joins it, and flags it. */
  method Collect(join: (nat, nat) -> bool, arr: seq<nat>, x: nat, used0: seq<bool>)
    returns (group: seq<nat>, used: seq<bool>)
    requires x < |arr| == |used0|
    ensures |used| == |used0| && used[..x + 1] == used0[..x + 1]
    ensures group == [arr[x]] + Joined(join, arr[x], Pending(arr, used0, x + 1, |arr|))
    ensures Pending(arr, used, x + 1, |arr|) == Unjoined(join, arr[x], Pending(arr, used0, x + 1, |arr|))
  {
    var a := arr[x];
    group, used := [a], used0;
    for y := x + 1 to |arr|
      invariant CollectInv(join, arr, x, used0, y, group, used)
    {
      if used[y] {
        CollectSkip(join, arr, x, used0, y, group, used);
      } else if join(a, arr[y]) {
        CollectTake(join, arr, x, used0, y, group, used);
        group := group + [arr[y]];
        used := used[y := true];
      } else {
        CollectPass(join, arr, x, used0, y, group, used);
      }
    }
  }

  /** What the outer loop keeps before member `x`: the groups so far and
      the greedy pass over the members still open from `x` on make up the
      greedy pass over the whole bucket. */
  ghost predicate BucketInv(join: (nat, nat) -> bool, arr: seq<nat>, x: nat, gs: seq<seq<nat>>, used: seq<bool>)
    requires x <= |arr|
  {
    |used| == |arr| && gs + Greedy(join, Pending(arr, used, x, |arr|)) == Greedy(join, arr)
  }

  /** A member flagged by an earlier anchor is passed over. */
  lemma BucketSkip(join: (nat, nat) -> bool, arr: seq<nat>, x: nat, gs: seq<seq<nat>>, used: seq<bool>)
    requires x < |arr| && BucketInv(join, arr, x, gs, used) && used[x]
    ensures BucketInv(join, arr, x + 1, gs, used)
  {
    PendingCons(arr, used, x, |arr|);
    var rest := Pending(arr, used, x + 1, |arr|);
    assert Pending(arr, used, x, |arr|) == [] + rest == rest;
  }

  /** The flag of `x` does not matter to the members after it. */
  lemma PendingFlip(arr: seq<nat>, used: seq<bool>, x: nat, v: bool)
    requires x < |arr| == |used|
    ensures Pending(arr, used[x := v], x + 1, |arr|) == Pending(arr, used, x + 1, |arr|)
  {
    assert used[x := v][x + 1..|arr|] == used[x + 1..|arr|];
    PendingFrame(arr, used[x := v], used, x + 1, |arr|);
  }

  /** An open member anchors a group: after `Collect` (flags `used`), the
      group is kept when it has a second member; either way the anchor's
      own flag no longer matters. */
  lemma BucketAnchor(join: (nat, nat) -> bool, arr: seq<nat>, x: nat, gs: seq<seq<nat>>, open: seq<bool>,
                     group: seq<nat>, used: seq<bool>)
    requires x < |arr| && BucketInv(join, arr, x, gs, open) && !open[x]
    requires |used| == |arr|
    requires group == [arr[x]] + Joined(join, arr[x], Pending(arr, open[x := true], x + 1, |arr|))
    requires Pending(arr, used, x + 1, |arr|) == Unjoined(join, arr[x], Pending(arr, open[x := true], x + 1, |arr|))
    ensures |group| > 1 ==> BucketInv(join, arr, x + 1, gs + [group], used)
    ensures |group| <= 1 ==> BucketInv(join, arr, x + 1, gs, used) && BucketInv(join, arr, x + 1, gs, used[x := false])
  {
    var a := arr[x];
    var rest := Pending(arr, open, x + 1, |arr|);
    PendingCons(arr, open, x, |arr|);
    assert Pending(arr, open, x, |arr|) == [a] + rest;
    PendingFlip(arr, open, x, true);
    AnchorStep(join, gs, a, rest);
    PendingFlip(arr, used, x, false);
  }

  /** The outer loop over one bucket: every member still unflagged anchors a
      group; a group of two or more is kept. The rhyme pass clears the flag
      of an anchor left alone (`groupOf[aIdx] = -1`), the assonance pass
      leaves it set (`keepAnchor`); later positions never read it. */
  method GreedyBucket(join: (nat, nat) -> bool, arr: seq<nat>, keepAnchor: bool) returns (gs: seq<seq<nat>>)
    ensures gs == Greedy(join, arr)
  {
    var used := seq(|arr|, _ => false);
    PendingNone(arr, used, 0, |arr|);
    assert arr[0..|arr|] == arr;
    gs := [];
    for x := 0 to |arr|
      invariant BucketInv(join, arr, x, gs, used)
    {
      if used[x] {
        BucketSkip(join, arr, x, gs, used);
        continue;
      }
      ghost var open := used;
      used := used[x := true];
      var group;
      group, used := Collect(join, arr, x, used);
      BucketAnchor(join, arr, x, gs, open, group, used);
      if |group| > 1 {
        gs := gs + [group];
      } else if !keepAnchor {
        used := used[x := false];
      }
    }
    assert Pending(arr, used, |arr|, |arr|) == [];
  }

  /** The bucket key of every span, in span order. */
  function RhymeKeys(spans: seq<Span>): (r: seq<string>)
    ensures |r| == |spans| && forall i :: 0 <= i < |spans| ==> r[i] == spans[i].bucketKey
  {
    seq(|spans|, i requires 0 <= i < |spans| => spans[i].bucketKey)
  }

  /** The assonance key of every span, in span order. */
  function VowelKeys(spans: seq<Span>): (r: seq<string>)
    ensures |r| == |spans| && forall i :: 0 <= i < |spans| ==> r[i] == NucleusKey(spans[i].tail)
  {
    seq(|spans|, i requires 0 <= i < |spans| => NucleusKey(spans[i].tail))
  }

  /** A whole pass: fill the bucket `Map`, then run the greedy pass over
      each bucket in the order the keys first appeared. */
  method GroupAll(join: (nat, nat) -> bool, keys: seq<string>, keepAnchor: bool) returns (groups: seq<seq<nat>>)
    ensures groups == AllGroups(join, BucketLists(keys))
  {
    var order, buckets := Buckets(keys);
    ghost var bs := BucketLists(keys);
    assert |bs| == |order| && forall m :: 0 <= m < |order| ==> order[m] in buckets && buckets[order[m]] == bs[m];
    groups := [];
    for m := 0 to |order|
      invariant groups == AllGroups(join, bs[..m])
    {
      var gs := GreedyBucket(join, buckets[order[m]], keepAnchor);
      AllGroupsSnoc(join, bs, m);
      groups := groups + gs;
    }
    assert bs[..|order|] == bs;
  }

  /** One more bucket adds its greedy groups. */
  lemma AllGroupsSnoc(join: (nat, nat) -> bool, bs: seq<seq<nat>>, m: nat)
    requires m < |bs|
    ensures AllGroups(join, bs[..m + 1]) == AllGroups(join, bs[..m]) + Greedy(join, bs[m])
  {
    assert bs[..m + 1][..m] == bs[..m] && bs[..m + 1][m] == bs[m];
  }

  // ----- The slant threshold is not monotone -----

  /** Three codas of one bucket: W T, Y T and Z Y T. */
  lemma ThreeCodas()
    ensures CodaDist(["W", "T"], ["Y", "T"]) == 0.5
    ensures CodaDist(["W", "T"], ["Z", "Y", "T"]) == 2.0 / 3.0
    ensures CodaDist(["Y", "T"], ["Z", "Y", "T"]) == 1.0 / 3.0
  {
    CodaWtYt();
    CodaWtZyt();
    CodaYtZyt();
  }

  lemma CodaWtYt()
    ensures CodaDist(["W", "T"], ["Y", "T"]) == 0.5
  {
    var wt, yt := ["W", "T"], ["Y", "T"];
    assert Eq("W") == "W" && Eq("Y") == "Y" && Eq("T") == "T";
    assert Slot(wt, 1) == "T" && Slot(wt, 2) == "W";
    assert Slot(yt, 1) == "T" && Slot(yt, 2) == "Y";
    assert Comparisons(wt, yt, 2) == 2 && Mismatches(wt, yt, 2) == 1;
  }

  lemma CodaWtZyt()
    ensures CodaDist(["W", "T"], ["Z", "Y", "T"]) == 2.0 / 3.0
  {
    var wt, zyt := ["W", "T"], ["Z", "Y", "T"];
    assert Eq("W") == "W" && Eq("Y") == "Y" && Eq("Z") == "S" && Eq("T") == "T" && Eq("") == "";
    assert Slot(wt, 1) == "T" && Slot(wt, 2) == "W" && Slot(wt, 3) == "";
    assert Slot(zyt, 1) == "T" && Slot(zyt, 2) == "Y" && Slot(zyt, 3) == "Z";
    assert Comparisons(wt, zyt, 3) == 3 && Mismatches(wt, zyt, 3) == 2;
  }

  lemma CodaYtZyt()
    ensures CodaDist(["Y", "T"], ["Z", "Y", "T"]) == 1.0 / 3.0
  {
    var yt, zyt := ["Y", "T"], ["Z", "Y", "T"];
    assert Eq("Y") == "Y" && Eq("Z") == "S" && Eq("T") == "T" && Eq("") == "";
    assert Slot(yt, 1) == "T" && Slot(yt, 2) == "Y" && Slot(yt, 3) == "";
    assert Slot(zyt, 1) == "T" && Slot(zyt, 2) == "Y" && Slot(zyt, 3) == "Z";
    assert Comparisons(yt, zyt, 3) == 3 && Mismatches(yt, zyt, 3) == 1;
  }

  /** A span of the example: vowel AE, not at a line end. */
  function Example(i: nat, coda: seq<string>): Span {
    Span(i, i, "", NucleusCoda(["AE"], coda), "AE|T", false)
  }

  /** Splitting two members by whether they join anchor `a`. */
  lemma SplitTwo(join: (nat, nat) -> bool, a: nat, x: nat, y: nat)
    ensures Joined(join, a, [x, y]) == (if join(a, x) then [x] else []) + (if join(a, y) then [y] else [])
    ensures Unjoined(join, a, [x, y]) == (if join(a, x) then [] else [x]) + (if join(a, y) then [] else [y])
  {
    assert [x, y][..1] == [x] && [x][..0] == [];
  }

  /** Two members that join form one group. */
  lemma GreedyPair(join: (nat, nat) -> bool, x: nat, y: nat)
    requires join(x, y)
    ensures Greedy(join, [x, y]) == [[x, y]]
  {
    assert [x, y][1..] == [y] && [y][..0] == [];
    assert Joined(join, x, [y]) == [y] && Unjoined(join, x, [y]) == [];
    assert Greedy(join, []) == [];
    assert [x] + [y] == [x, y];
  }

  /** A lone member forms no group. */
  lemma GreedySingle(join: (nat, nat) -> bool, x: nat)
    ensures Greedy(join, [x]) == []
  {
    assert [x][1..] == [];
  }

  /** The greedy pass over three members when only the last two join. */
  lemma GreedyLastTwo(join: (nat, nat) -> bool)
    requires !join(0, 1) && !join(0, 2) && join(1, 2)
    ensures Greedy(join, [0, 1, 2]) == [[1, 2]]
  {
    SplitTwo(join, 0, 1, 2);
    GreedyPair(join, 1, 2);
    assert [0, 1, 2][1..] == [1, 2];
  }

  /** The greedy pass over three members when the first joins the second only. */
  lemma GreedyFirstTwo(join: (nat, nat) -> bool)
    requires join(0, 1) && !join(0, 2)
    ensures Greedy(join, [0, 1, 2]) == [[0, 1]]
  {
    SplitTwo(join, 0, 1, 2);
    GreedySingle(join, 2);
    assert [0, 1, 2][1..] == [1, 2];
    assert Joined(join, 0, [1, 2]) == [1] && Unjoined(join, 0, [1, 2]) == [2];
    assert [0] + [1] == [0, 1];
  }

  /** The rhyme distances of the three example spans. */
  lemma ExampleDistances(spans: seq<Span>)
    requires spans == [Example(0, ["W", "T"]), Example(1, ["Y", "T"]), Example(2, ["Z", "Y", "T"])]
    ensures RhymeDist(spans[0].tail, spans[1].tail) == 0.15
    ensures RhymeDist(spans[0].tail, spans[2].tail) == 0.2
    ensures RhymeDist(spans[1].tail, spans[2].tail) == 0.1
  {
    ThreeCodas();
    SameNucleus(spans[0].tail, spans[1].tail);
    SameNucleus(spans[0].tail, spans[2].tail);
    SameNucleus(spans[1].tail, spans[2].tail);
  }

  /** Tails with the same nucleus are 0.3 times their coda distance apart. */
  lemma SameNucleus(a: NucleusCoda, b: NucleusCoda)
    requires a.nucleus == b.nucleus == ["AE"]
    ensures RhymeDist(a, b) == 0.3 * CodaDist(a.coda, b.coda)
  {
  }

  /** Raising the slant threshold can lose a pair: with the three codas above,
      0.12 groups the second and third span, and 0.18 lets the first anchor
      take the second, so the third is left alone. */
  lemma SlantThresholdNotMonotone()
    ensures var spans := [Example(0, ["W", "T"]), Example(1, ["Y", "T"]), Example(2, ["Z", "Y", "T"])];
            && Greedy(RhymeJoin(spans, 0.0, 0.12), [0, 1, 2]) == [[1, 2]]
            && Greedy(RhymeJoin(spans, 0.0, 0.18), [0, 1, 2]) == [[0, 1]]
  {
    var spans := [Example(0, ["W", "T"]), Example(1, ["Y", "T"]), Example(2, ["Z", "Y", "T"])];
    ExampleDistances(spans);
    GreedyLastTwo(RhymeJoin(spans, 0.0, 0.12));
    GreedyFirstTwo(RhymeJoin(spans, 0.0, 0.18));
  }
}
