/** Who owns a key, said without the ring's order, and what a change of the list does to ownership. */
module RingStability {
  import opened Base
  import opened HashRing

  /** A position on the circle of hashes, held by an address. */
  datatype Point = Point(hash: uint32, address: string)

  ghost function Points(nodes: seq<HashNode>): set<Point> {
    set n | n in nodes :: Point(n.hash, n.upstream.address)
  }

  ghost function ListPoints(hash: Hash, v: int, upstreams: UpstreamList): set<Point> {
    Points(AllNodes(hash, v, upstreams))
  }

  /** The distance from h to x going up and around. */
  function Clockwise(h: uint32, x: uint32): nat {
    if x >= h then x - h else x - h + TWO32
  }

  ghost predicate Nearest(points: set<Point>, h: uint32, p: Point) {
    p in points && forall q :: q in points ==> Clockwise(h, p.hash) <= Clockwise(h, q.hash)
  }

  ghost predicate Owns(points: set<Point>, h: uint32, address: string) {
    exists p :: Nearest(points, h, p) && p.address == address
  }

  /** No two addresses hold the same position. */
  ghost predicate NoCollision(points: set<Point>) {
    forall p, q :: p in points && q in points && p.hash == q.hash ==> p.address == q.address
  }

  ghost predicate OwnersUnique(points: set<Point>) {
    forall h, a, b :: Owns(points, h, a) && Owns(points, h, b) ==> a == b
  }

  /** Every hash has one owner exactly when no two addresses collide. */
  lemma UniqueIffNoCollision(points: set<Point>)
    ensures OwnersUnique(points) <==> NoCollision(points)
  {
    if OwnersUnique(points) {
      forall p, q | p in points && q in points && p.hash == q.hash ensures p.address == q.address {
        assert Nearest(points, p.hash, p) && Nearest(points, p.hash, q);
        assert Owns(points, p.hash, p.address) && Owns(points, p.hash, q.address);
      }
    }
    if NoCollision(points) {
      forall h, a, b | Owns(points, h, a) && Owns(points, h, b) ensures a == b {
        var p :| Nearest(points, h, p) && p.address == a;
        var q :| Nearest(points, h, q) && q.address == b;
        assert Clockwise(h, p.hash) == Clockwise(h, q.hash);
      }
    }
  }

  lemma SamePoints(a: seq<HashNode>, b: seq<HashNode>)
    requires multiset(a) == multiset(b)
    ensures Points(a) == Points(b)
  {
    forall n ensures n in a <==> n in b {
      assert n in multiset(a) <==> n in multiset(b);
    }
  }

  /** The upstream the ring answers with is one of the list, and its address owns the key's hash. */
  lemma OwnerOwns(r: Ring, hash: Hash, v: int, upstreams: UpstreamList, h: uint32)
    requires IsRing(r, hash, v, upstreams) && upstreams != []
    ensures Owner(r, h).Some? && Owner(r, h).value in upstreams
    ensures Owns(ListPoints(hash, v, upstreams), h, Owner(r, h).value.address)
  {
    hide AllNodes, UpstreamNodes;
    AllNodesNonEmpty(hash, v, upstreams);
    assert |r.nodes| == |multiset(r.nodes)| == |AllNodes(hash, v, upstreams)|;
    var k := FirstAtLeast(r.nodes, h, 0);
    var x := r.nodes[if k == |r.nodes| then 0 else k];
    assert x in multiset(r.nodes);
    NodesByUpstream(hash, v, upstreams, x);
    SamePoints(r.nodes, AllNodes(hash, v, upstreams));
    assert Nearest(Points(r.nodes), h, Point(x.hash, x.upstream.address));
  }

  lemma AllNodesNonEmpty(hash: Hash, v: int, upstreams: UpstreamList)
    requires upstreams != []
    ensures AllNodes(hash, v, upstreams) != []
  {
    var u := upstreams[|upstreams| - 1];
    assert |UpstreamNodes(hash, v, u)| >= 1;
  }

  /** Extra positions, all held by one address, take keys only for that address. */
  lemma ExtraPointsTakeOnlyTheirs(small: set<Point>, large: set<Point>, x: string, h: uint32, a: string, b: string)
    requires small <= large && NoCollision(large)
    requires forall p :: p in large && p !in small ==> p.address == x
    requires Owns(small, h, a) && Owns(large, h, b)
    ensures b == x || b == a
  {
    if b != x {
      var p :| Nearest(large, h, p) && p.address == b;
      assert Nearest(small, h, p);
      assert Owns(small, h, b);
      var q :| Nearest(small, h, q) && q.address == a;
      assert Clockwise(h, p.hash) == Clockwise(h, q.hash);
    }
  }

  // ----- when no two addresses collide

  ghost function PointsOf(hash: Hash, v: int, u: WeightedUpstream): (points: set<Point>)
    ensures forall p :: p in points ==> p.address == u.address
  {
    Points(UpstreamNodes(hash, v, u))
  }

  lemma {:induction false} PointsByUpstream(hash: Hash, v: int, upstreams: UpstreamList, p: Point)
    ensures p in ListPoints(hash, v, upstreams)
      <==> exists i :: 0 <= i < |upstreams| && p in PointsOf(hash, v, upstreams[i])
  {
    hide AllNodes, UpstreamNodes;
    if p in ListPoints(hash, v, upstreams) {
      var n :| n in AllNodes(hash, v, upstreams) && p == Point(n.hash, n.upstream.address);
      NodesByUpstream(hash, v, upstreams, n);
      var i :| 0 <= i < |upstreams| && upstreams[i] == n.upstream;
      assert p in PointsOf(hash, v, upstreams[i]);
    }
    if i :| 0 <= i < |upstreams| && p in PointsOf(hash, v, upstreams[i]) {
      var n :| n in UpstreamNodes(hash, v, upstreams[i]) && p == Point(n.hash, n.upstream.address);
      NodesNameTheirUpstream(hash, v, upstreams[i], n);
      NodesByUpstream(hash, v, upstreams, n);
    }
  }

  /** The labels of the virtual nodes of a list. */
  ghost function Labels(v: int, upstreams: UpstreamList): set<string> {
    set i, j | 0 <= i < |upstreams| && 0 <= j < NodeCount(v, upstreams[i].EffectiveWeight()) ::
      Label(upstreams[i].address, j)
  }

  lemma PointHasLabel(hash: Hash, v: int, u: WeightedUpstream, p: Point)
    ensures p in PointsOf(hash, v, u) <==>
      exists j :: 0 <= j < NodeCount(v, u.EffectiveWeight()) && p == Point(hash(Label(u.address, j)), u.address)
  {
    hide Label, NodeCount;
    var nodes := UpstreamNodes(hash, v, u);
    forall j | 0 <= j < |nodes| ensures Point(hash(Label(u.address, j)), u.address) in PointsOf(hash, v, u) {
      assert nodes[j] in nodes;
    }
  }

  /** A hash that tells the labels of a list apart lets no two of its addresses collide: different addresses
      have different labels. */
  lemma DistinctHashesDoNotCollide(hash: Hash, v: int, upstreams: UpstreamList)
    requires forall s, t :: s in Labels(v, upstreams) && t in Labels(v, upstreams) && hash(s) == hash(t) ==> s == t
    ensures NoCollision(ListPoints(hash, v, upstreams))
  {
    hide ListPoints, PointsOf, Label, NodeCount;
    var points := ListPoints(hash, v, upstreams);
    forall p, q | p in points && q in points && p.hash == q.hash ensures p.address == q.address {
      PointsByUpstream(hash, v, upstreams, p);
      PointsByUpstream(hash, v, upstreams, q);
      var i :| 0 <= i < |upstreams| && p in PointsOf(hash, v, upstreams[i]);
      var k :| 0 <= k < |upstreams| && q in PointsOf(hash, v, upstreams[k]);
      PointHasLabel(hash, v, upstreams[i], p);
      PointHasLabel(hash, v, upstreams[k], q);
      var m :| 0 <= m < NodeCount(v, upstreams[i].EffectiveWeight())
        && p == Point(hash(Label(upstreams[i].address, m)), upstreams[i].address);
      var n :| 0 <= n < NodeCount(v, upstreams[k].EffectiveWeight())
        && q == Point(hash(Label(upstreams[k].address, n)), upstreams[k].address);
      assert Label(upstreams[i].address, m) in Labels(v, upstreams);
      assert Label(upstreams[k].address, n) in Labels(v, upstreams);
      LabelsDistinct(upstreams[i].address, m, upstreams[k].address, n);
    }
  }

  // ----- changes of the list

  /** If one list has all the positions of another and more only at address x, then a key's owner is the
      same under both, or it is x under the larger. */
  lemma OnlyKeysOfXMove(hash: Hash, v: int, fewer: UpstreamList, more: UpstreamList, x: string,
                        small: Ring, large: Ring, h: uint32)
    requires fewer != [] && more != [] && IsRing(small, hash, v, fewer) && IsRing(large, hash, v, more)
    requires NoCollision(ListPoints(hash, v, more))
    requires ListPoints(hash, v, fewer) <= ListPoints(hash, v, more)
    requires forall p :: p in ListPoints(hash, v, more) && p !in ListPoints(hash, v, fewer) ==> p.address == x
    ensures Owner(small, h).Some? && Owner(large, h).Some?
    ensures Owner(large, h).value.address == x || Owner(large, h).value.address == Owner(small, h).value.address
  {
    hide ListPoints, Owner, Owns;
    OwnerOwns(small, hash, v, fewer, h);
    OwnerOwns(large, hash, v, more, h);
    ExtraPointsTakeOnlyTheirs(ListPoints(hash, v, fewer), ListPoints(hash, v, more), x, h,
      Owner(small, h).value.address, Owner(large, h).value.address);
  }

  lemma RemovalPoints(hash: Hash, v: int, upstreams: UpstreamList, i: nat, p: Point)
    requires i < |upstreams|
    ensures var rest := upstreams[..i] + upstreams[i + 1..];
      p in ListPoints(hash, v, upstreams) <==> p in ListPoints(hash, v, rest) || p in PointsOf(hash, v, upstreams[i])
  {
    hide ListPoints, PointsOf;
    var rest := upstreams[..i] + upstreams[i + 1..];
    PointsByUpstream(hash, v, upstreams, p);
    PointsByUpstream(hash, v, rest, p);
    if k :| 0 <= k < |upstreams| && k != i && p in PointsOf(hash, v, upstreams[k]) {
      assert rest[if k < i then k else k - 1] == upstreams[k];
    }
    if k :| 0 <= k < |rest| && p in PointsOf(hash, v, rest[k]) {
      assert upstreams[if k < i then k else k + 1] == rest[k];
    }
  }

  /** Removing an upstream moves only the keys it owned; read backwards, adding one moves keys only to it. */
  lemma RemovalMovesOnlyItsKeys(hash: Hash, v: int, upstreams: UpstreamList, i: nat,
                                before: Ring, after: Ring, h: uint32)
    requires i < |upstreams| && |upstreams| > 1
    requires IsRing(before, hash, v, upstreams)
    requires IsRing(after, hash, v, upstreams[..i] + upstreams[i + 1..])
    requires NoCollision(ListPoints(hash, v, upstreams))
    ensures Owner(before, h).Some? && Owner(after, h).Some?
    ensures Owner(before, h).value.address == upstreams[i].address
         || Owner(before, h).value.address == Owner(after, h).value.address
  {
    hide ListPoints, Owner, PointsOf;
    var rest := upstreams[..i] + upstreams[i + 1..];
    forall p
      ensures p in ListPoints(hash, v, rest) ==> p in ListPoints(hash, v, upstreams)
      ensures p in ListPoints(hash, v, upstreams) && p !in ListPoints(hash, v, rest)
        ==> p.address == upstreams[i].address
    {
      RemovalPoints(hash, v, upstreams, i, p);
    }
    OnlyKeysOfXMove(hash, v, rest, upstreams, upstreams[i].address, after, before, h);
  }

  lemma FewerNodesFewerPoints(hash: Hash, v: int, u: WeightedUpstream, u': WeightedUpstream)
    requires u.address == u'.address
    requires NodeCount(v, u'.EffectiveWeight()) <= NodeCount(v, u.EffectiveWeight())
    ensures PointsOf(hash, v, u') <= PointsOf(hash, v, u)
  {
    forall p | p in PointsOf(hash, v, u') ensures p in PointsOf(hash, v, u) {
      var nodes, nodes' := UpstreamNodes(hash, v, u), UpstreamNodes(hash, v, u');
      var j :| 0 <= j < |nodes'| && p == Point(nodes'[j].hash, nodes'[j].upstream.address);
      assert nodes[j] in nodes && p == Point(nodes[j].hash, nodes[j].upstream.address);
    }
  }

  /** Short of overflow an upstream gets virtualNodes * w / 10 nodes, but at least one; no fewer for more weight. */
  lemma NodeCountScales(v: nat, w: int, w': int)
    requires 1 <= w' <= w && v * w < TWO63
    ensures NodeCount(v, w) == if v * w < 10 then 1 else v * w / 10
    ensures NodeCount(v, w') <= NodeCount(v, w)
  {
    assert 0 <= v * w' <= v * w by {
      assert v * w == v * w' + v * (w - w');
    }
  }

  /** Lowering an upstream's weight moves only keys it owned; raising it back moves keys only to it. */
  lemma LowerWeightMovesOnlyItsKeys(hash: Hash, v: nat, upstreams: UpstreamList, i: nat, weight: int,
                                    before: Ring, after: Ring, h: uint32)
    requires i < |upstreams| && v * upstreams[i].EffectiveWeight() < TWO63
    requires upstreams[i].(weight := weight).EffectiveWeight() <= upstreams[i].EffectiveWeight()
    requires IsRing(before, hash, v, upstreams)
    requires IsRing(after, hash, v, upstreams[i := upstreams[i].(weight := weight)])
    requires NoCollision(ListPoints(hash, v, upstreams))
    ensures Owner(before, h).Some? && Owner(after, h).Some?
    ensures Owner(before, h).value.address == upstreams[i].address
         || Owner(before, h).value.address == Owner(after, h).value.address
  {
    hide ListPoints, Owner, PointsOf, NodeCount;
    var u' := upstreams[i].(weight := weight);
    var lowered := upstreams[i := u'];
    NodeCountScales(v, upstreams[i].EffectiveWeight(), u'.EffectiveWeight());
    FewerNodesFewerPoints(hash, v, upstreams[i], u');
    assert lowered[..i] + lowered[i + 1..] == upstreams[..i] + upstreams[i + 1..];
    forall p
      ensures p in ListPoints(hash, v, lowered) ==> p in ListPoints(hash, v, upstreams)
      ensures p in ListPoints(hash, v, upstreams) && p !in ListPoints(hash, v, lowered)
        ==> p.address == upstreams[i].address
    {
      RemovalPoints(hash, v, upstreams, i, p);
      RemovalPoints(hash, v, lowered, i, p);
    }
    OnlyKeysOfXMove(hash, v, lowered, upstreams, upstreams[i].address, after, before, h);
  }

  /** The order of the list never matters. */
  lemma OrderDoesNotMatter(hash: Hash, v: int, upstreams: UpstreamList, other: UpstreamList,
                           r: Ring, r': Ring, h: uint32)
    requires upstreams != [] && multiset(upstreams) == multiset(other)
    requires IsRing(r, hash, v, upstreams) && IsRing(r', hash, v, other)
    requires NoCollision(ListPoints(hash, v, upstreams))
    ensures Owner(r, h).Some? && Owner(r', h).Some?
    ensures Owner(r, h).value.address == Owner(r', h).value.address
  {
    hide AllNodes, UpstreamNodes, Owner;
    assert |other| == |multiset(other)| == |upstreams|;
    forall n ensures n in AllNodes(hash, v, upstreams) <==> n in AllNodes(hash, v, other) {
      NodesByUpstream(hash, v, upstreams, n);
      NodesByUpstream(hash, v, other, n);
      assert n.upstream in upstreams <==> n.upstream in multiset(upstreams);
      assert n.upstream in other <==> n.upstream in multiset(other);
    }
    assert ListPoints(hash, v, upstreams) == ListPoints(hash, v, other);
    OwnerOwns(r, hash, v, upstreams, h);
    OwnerOwns(r', hash, v, other, h);
    UniqueIffNoCollision(ListPoints(hash, v, upstreams));
  }

  // ----- size of the ring, and what the cached ring's fingerprint misses

  ghost function NodeCounts(v: int, upstreams: UpstreamList): (c: seq<int>)
    ensures |c| == |upstreams|
  {
    if upstreams == [] then []
    else NodeCounts(v, upstreams[..|upstreams| - 1]) + [NodeCount(v, upstreams[|upstreams| - 1].EffectiveWeight())]
  }

  lemma {:induction false} RingSize(hash: Hash, v: int, upstreams: UpstreamList)
    ensures |AllNodes(hash, v, upstreams)| == Sum(NodeCounts(v, upstreams))
  {
    if upstreams != [] {
      var n := |upstreams| - 1;
      RingSize(hash, v, upstreams[..n]);
      SumPrefix(NodeCounts(v, upstreams), NodeCounts(v, upstreams[..n]), n);
    }
  }

  lemma {:induction false} SumPrefix(s: seq<int>, p: seq<int>, n: nat)
    requires n <= |p| && p <= s
    ensures SumTo(s, n) == SumTo(p, n)
  {
    if n > 0 {
      SumPrefix(s, p, n - 1);
    }
  }

  /** Weights that differ by a multiple of 65536 write the same bytes, so the two lists have one fingerprint. */
  lemma FingerprintMissesHighBits(hash: Hash, before: UpstreamList, after: UpstreamList, u: WeightedUpstream, k: int)
    ensures ConfigHash(hash, before + [u] + after)
         == ConfigHash(hash, before + [u.(weight := u.weight + k * 65536)] + after)
  {
    FingerprintsAgreeIff(before, after, u, u.(weight := u.weight + k * 65536));
  }
}
