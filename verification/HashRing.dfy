/** The consistent-hash ring: how it is built, how a key finds its owner, and which keys move when the
    list of upstreams changes. Every result holds for every 32-bit hash function. */
module HashRing {
  import opened Base
  import opened Sorting

  type UpstreamList = seq<WeightedUpstream>
  type Hash = string -> uint32

  datatype HashNode = HashNode(hash: uint32, upstream: WeightedUpstream)

  datatype Ring = Ring(nodes: seq<HashNode>, upstreams: UpstreamList, configHash: uint32)

  // ----- labels of virtual nodes

  function Digit(d: nat): (c: char)
    requires d < 10
    ensures c != '-'
  {
    '0' + (d as char)
  }

  function Decimal(n: nat): (s: string)
    ensures s != [] && forall i :: 0 <= i < |s| ==> s[i] != '-'
  {
    if n < 10 then [Digit(n)] else Decimal(n / 10) + [Digit(n % 10)]
  }

  function Label(address: string, j: nat): string {
    address + "-" + Decimal(j)
  }

  lemma {:induction false} DecimalInjective(j: nat, k: nat)
    requires Decimal(j) == Decimal(k)
    ensures j == k
  {
    var s, t := Decimal(j), Decimal(k);
    assert s[|s| - 1] == Digit(j % 10) && t[|t| - 1] == Digit(k % 10);
    if j >= 10 && k >= 10 {
      assert s[..|s| - 1] == Decimal(j / 10) && t[..|t| - 1] == Decimal(k / 10);
      DecimalInjective(j / 10, k / 10);
    }
  }

  /** No two virtual nodes share a label, even when addresses contain dashes and digits. */
  lemma LabelsDistinct(a: string, j: nat, b: string, k: nat)
    ensures Label(a, j) == Label(b, k) <==> a == b && j == k
  {
    hide Decimal;
    if Label(a, j) == Label(b, k) {
      var s, x, y := Label(a, j), Decimal(j), Decimal(k);
      assert s == a + "-" + x && s == b + "-" + y;
      assert forall i :: |a| <= i < |s| ==> (s[i] == '-' <==> i == |a|);
      assert forall i :: |b| <= i < |s| ==> (s[i] == '-' <==> i == |b|);
      assert s[|a|] == '-' && s[|b|] == '-';
      assert |a| == |b|;
      assert a == s[..|a|] && x == s[|a| + 1..] && y == s[|b| + 1..];
      DecimalInjective(j, k);
    }
  }

  // ----- the nodes of a list

  /** How many virtual nodes an upstream of effective weight w gets. */
  function NodeCount(virtualNodes: int, w: int): (n: nat)
    ensures n >= 1
  {
    var n := TruncDiv(Int64(virtualNodes * w), 10);
    if n < 1 then 1 else n
  }

  function NodesOf(hash: Hash, u: WeightedUpstream, n: nat): (nodes: seq<HashNode>)
    ensures |nodes| == n && forall j :: 0 <= j < n ==> nodes[j] == HashNode(hash(Label(u.address, j)), u)
  {
    if n == 0 then [] else NodesOf(hash, u, n - 1) + [HashNode(hash(Label(u.address, n - 1)), u)]
  }

  function UpstreamNodes(hash: Hash, v: int, u: WeightedUpstream): seq<HashNode> {
    NodesOf(hash, u, NodeCount(v, u.EffectiveWeight()))
  }

  function AllNodes(hash: Hash, v: int, upstreams: UpstreamList): seq<HashNode> {
    if upstreams == [] then []
    else AllNodes(hash, v, upstreams[..|upstreams| - 1]) + UpstreamNodes(hash, v, upstreams[|upstreams| - 1])
  }

  lemma {:induction false} NodesByUpstream(hash: Hash, v: int, upstreams: UpstreamList, x: HashNode)
    ensures x in AllNodes(hash, v, upstreams)
      <==> x.upstream in upstreams && x in UpstreamNodes(hash, v, x.upstream)
  {
    hide UpstreamNodes;
    if upstreams != [] {
      var n := |upstreams| - 1;
      NodesByUpstream(hash, v, upstreams[..n], x);
      assert upstreams == upstreams[..n] + [upstreams[n]];
      if x in UpstreamNodes(hash, v, upstreams[n]) {
        NodesNameTheirUpstream(hash, v, upstreams[n], x);
      }
    }
  }

  lemma NodesNameTheirUpstream(hash: Hash, v: int, u: WeightedUpstream, x: HashNode)
    requires x in UpstreamNodes(hash, v, u)
    ensures x.upstream == u
  {
  }

  // ----- building and looking up

  function ConfigBytes(upstreams: UpstreamList): string {
    if upstreams == [] then []
    else var u := upstreams[|upstreams| - 1];
      ConfigBytes(upstreams[..|upstreams| - 1]) + u.address + [(u.weight % 256) as char, (u.weight / 256 % 256) as char]
  }

  function ConfigHash(hash: Hash, upstreams: UpstreamList): uint32 {
    hash(ConfigBytes(upstreams))
  }

  ghost predicate InOrder(nodes: seq<HashNode>) {
    forall i, j :: 0 <= i < j < |nodes| ==> nodes[i].hash <= nodes[j].hash
  }

  ghost predicate IsRing(r: Ring, hash: Hash, v: int, upstreams: UpstreamList) {
    && r.upstreams == upstreams
    && r.configHash == ConfigHash(hash, upstreams)
    && InOrder(r.nodes)
    && multiset(r.nodes) == multiset(AllNodes(hash, v, upstreams))
  }

  method ComputeUpstreamsHash(hash: Hash, upstreams: UpstreamList) returns (h: uint32)
    ensures h == ConfigHash(hash, upstreams)
  {
    var written := [];
    for i := 0 to |upstreams|
      invariant written == ConfigBytes(upstreams[..i])
    {
      var u := upstreams[i];
      written := written + u.address;
      written := written + [(u.weight % 256) as char, (u.weight / 256 % 256) as char];
      assert upstreams[..i + 1][..i] == upstreams[..i];
    }
    assert upstreams[..|upstreams|] == upstreams;
    h := hash(written);
  }

  method NewConsistentHashRing(hash: Hash, upstreams: UpstreamList, virtualNodes: int) returns (r: Ring)
    ensures IsRing(r, hash, virtualNodes, upstreams)
  {
    var configHash := ComputeUpstreamsHash(hash, upstreams);
    var nodes: seq<HashNode> := [];
    for i := 0 to |upstreams|
      invariant nodes == AllNodes(hash, virtualNodes, upstreams[..i])
    {
      var weight := upstreams[i].EffectiveWeight();
      var numNodes := TruncDiv(Int64(virtualNodes * weight), 10);
      if numNodes < 1 {
        numNodes := 1;
      }
      ghost var before := nodes;
      for j := 0 to numNodes
        invariant nodes == before + NodesOf(hash, upstreams[i], j)
      {
        nodes := nodes + [HashNode(hash(Label(upstreams[i].address, j)), upstreams[i])];
      }
      assert upstreams[..i + 1][..i] == upstreams[..i];
    }
    assert upstreams[..|upstreams|] == upstreams;
    var less := (x: HashNode, y: HashNode) => x.hash < y.hash;
    nodes := SortSlice(nodes, less);
    assert forall i, j :: 0 <= i < j < |nodes| ==> !less(nodes[j], nodes[i]);
    r := Ring(nodes, upstreams, configHash);
  }

  /** The first position, scanning from the left, whose hash is at least h. */
  function FirstAtLeast(nodes: seq<HashNode>, h: uint32, from: nat): (k: nat)
    requires from <= |nodes|
    ensures from <= k <= |nodes| && (k < |nodes| ==> nodes[k].hash >= h)
    ensures forall i :: from <= i < k ==> nodes[i].hash < h
    decreases |nodes| - from
  {
    if from == |nodes| || nodes[from].hash >= h then from else FirstAtLeast(nodes, h, from + 1)
  }

  /** The upstream that owns hash h: that of the first node at or after h, or of the first node of all. */
  function Owner(r: Ring, h: uint32): Option<WeightedUpstream> {
    if r.nodes == [] then None
    else var k := FirstAtLeast(r.nodes, h, 0);
      Some(r.nodes[if k == |r.nodes| then 0 else k].upstream)
  }

  method Get(r: Ring, hash: Hash, key: string) returns (u: Option<WeightedUpstream>)
    requires InOrder(r.nodes)
    ensures u == Owner(r, hash(key))
  {
    if |r.nodes| == 0 {
      return None;
    }
    var h := hash(key);
    var i, j := 0, |r.nodes|;
    while i < j
      invariant 0 <= i <= j <= |r.nodes|
      invariant forall k :: 0 <= k < i ==> r.nodes[k].hash < h
      invariant forall k :: j <= k < |r.nodes| ==> r.nodes[k].hash >= h
    {
      var m := (i + j) / 2;
      if r.nodes[m].hash >= h {
        j := m;
      } else {
        i := m + 1;
      }
    }
    if i >= |r.nodes| {
      i := 0;
    }
    u := Some(r.nodes[i].upstream);
  }

  // ----- what labels and fingerprints are made of

  /** The number that a string of digits reads as. */
  function Reading(s: string): int {
    if s == "" then 0 else 10 * Reading(s[..|s| - 1]) + (s[|s| - 1] as int - '0' as int)
  }

  /** A label ends with its number in decimal digits, without a leading zero. */
  lemma {:induction false} DecimalReadsBack(n: nat)
    ensures Reading(Decimal(n)) == n
    ensures forall i :: 0 <= i < |Decimal(n)| ==> '0' <= Decimal(n)[i] <= '9'
    ensures n > 0 ==> Decimal(n)[0] != '0'
  {
    if n < 10 {
      assert Decimal(n)[..0] == "";
    } else {
      DecimalReadsBack(n / 10);
      assert Decimal(n)[..|Decimal(n)| - 1] == Decimal(n / 10);
    }
  }

  lemma BytesOfLast(us: UpstreamList, u: WeightedUpstream)
    ensures ConfigBytes([]) == []
    ensures ConfigBytes(us + [u]) == ConfigBytes(us) + ConfigBytes([u])
  {
    assert (us + [u])[..|us|] == us && [u][..0] == [];
    var bytes := u.address + [(u.weight % 256) as char, (u.weight / 256 % 256) as char];
    assert ConfigBytes([u]) == bytes;
    assert ConfigBytes(us + [u]) == ConfigBytes(us) + bytes;
  }

  lemma {:induction false} BytesAppend(a: UpstreamList, b: UpstreamList)
    ensures ConfigBytes(a + b) == ConfigBytes(a) + ConfigBytes(b)
  {
    hide ConfigBytes;
    if b == [] {
      assert a + b == a;
      BytesOfLast([], WeightedUpstream("", 0));
    } else {
      var n := |b| - 1;
      assert a + b == (a + b[..n]) + [b[n]] && b == b[..n] + [b[n]];
      BytesAppend(a, b[..n]);
      BytesOfLast(a + b[..n], b[n]);
      BytesOfLast(b[..n], b[n]);
    }
  }

  /** One upstream's bytes name its address and its weight up to multiples of 65536. */
  lemma BytesOfOne(u: WeightedUpstream, u': WeightedUpstream)
    ensures |ConfigBytes([u])| == |u.address| + 2
    ensures ConfigBytes([u]) == ConfigBytes([u']) <==>
      u.address == u'.address && (u.weight - u'.weight) % 65536 == 0
  {
    assert [u][..0] == [] && [u'][..0] == [];
    var s, t := ConfigBytes([u]), ConfigBytes([u']);
    var low, high := (u.weight % 256) as char, (u.weight / 256 % 256) as char;
    var low', high' := (u'.weight % 256) as char, (u'.weight / 256 % 256) as char;
    assert s == u.address + [low, high] && t == u'.address + [low', high'];
    SameLowBytes(u.weight, u'.weight);
    if s == t {
      assert s[..|s| - 2] == u.address && t[..|t| - 2] == u'.address;
      assert s[|s| - 2] == low && s[|s| - 1] == high && t[|t| - 2] == low' && t[|t| - 1] == high';
    }
  }

  lemma LowTwoBytes(w: int)
    ensures w % 65536 == w / 256 % 256 * 256 + w % 256
  {
    var a := w / 256;
    var l, h, q := w % 256, a % 256, a / 256;
    assert w == 256 * a + l && a == 256 * q + h;
    DivModUnique(w, 65536, q, h * 256 + l);
  }

  lemma SameRemainder(w: int, w': int)
    ensures (w - w') % 65536 == 0 <==> w % 65536 == w' % 65536
  {
    var a, x, b, y := w / 65536, w % 65536, w' / 65536, w' % 65536;
    assert w == 65536 * a + x && w' == 65536 * b + y;
    if x >= y {
      DivModUnique(w - w', 65536, a - b, x - y);
    } else {
      DivModUnique(w - w', 65536, a - b - 1, x - y + 65536);
    }
  }

  lemma SameLowBytes(w: int, w': int)
    ensures (w - w') % 65536 == 0 <==> w % 256 == w' % 256 && w / 256 % 256 == w' / 256 % 256
  {
    LowTwoBytes(w);
    LowTwoBytes(w');
    SameRemainder(w, w');
  }

  /** Exchanging one upstream of a list goes unnoticed under every hash if and only if the address is the same
      and the weights differ by a multiple of 65536. */
  lemma FingerprintsAgreeIff(before: UpstreamList, after: UpstreamList, u: WeightedUpstream, u': WeightedUpstream)
    ensures (forall hash: Hash :: ConfigHash(hash, before + [u] + after) == ConfigHash(hash, before + [u'] + after))
      <==> u.address == u'.address && (u.weight - u'.weight) % 65536 == 0
  {
    hide ConfigBytes;
    var x, y := before + [u] + after, before + [u'] + after;
    var b, a := ConfigBytes(before), ConfigBytes(after);
    BytesAppend(before + [u], after);
    BytesAppend(before, [u]);
    BytesAppend(before + [u'], after);
    BytesAppend(before, [u']);
    BytesOfOne(u, u');
    BytesOfOne(u', u);
    MiddlesAgree(b, ConfigBytes([u]), ConfigBytes([u']), a);
    var teller: Hash := s => if s == ConfigBytes(x) then 0 else 1;
    assert ConfigHash(teller, x) == ConfigHash(teller, y) <==> ConfigBytes(x) == ConfigBytes(y);
  }

  lemma MiddlesAgree(b: string, s: string, t: string, a: string)
    ensures b + s + a == b + t + a <==> s == t
  {
    if b + s + a == b + t + a {
      assert |s| == |t|;
      assert s == (b + s + a)[|b|..|b| + |s|] && t == (b + t + a)[|b|..|b| + |t|];
    }
  }
}
