/** Normalization of a topology document: validation of every field, three seen-sets over the nodes,
    and a sort by node id. Prefix arithmetic is done on the 32-bit value of an address. */
module Topology {
  import opened Text
  import opened Ipv4

  // ---------------------------------------------------------------- bits

  /** x << h */
  function Shl(x: nat, h: nat): (r: nat)
    ensures r >= x
  {
    if h == 0 then x else 2 * Shl(x, h - 1)
  }

  function Pow2(h: nat): (p: nat)
    ensures p >= 1
  {
    Shl(1, h)
  }

  /** The bits above the low h ones, and the low h ones. */
  function High(x: nat, h: nat): nat { if h == 0 then x else High(x / 2, h - 1) }

  function Low(x: nat, h: nat): (r: nat)
    ensures r < Pow2(h)
  {
    if h == 0 then 0 else x % 2 + 2 * Low(x / 2, h - 1)
  }

  function Bit(x: nat, i: nat): nat { High(x, i) % 2 }

  /** Bitwise or. */
  function BitOr(x: nat, y: nat): nat {
    if x == 0 && y == 0 then 0
    else 2 * BitOr(x / 2, y / 2) + if x % 2 == 1 || y % 2 == 1 then 1 else 0
  }

  lemma {:induction false} HighLow(x: nat, h: nat)
    ensures x == Shl(High(x, h), h) + Low(x, h)
  {
    if h > 0 { HighLow(x / 2, h - 1); }
  }

  lemma {:induction false} OrWithZero(x: nat)
    ensures BitOr(x, 0) == x
  {
    if x > 0 { OrWithZero(x / 2); }
  }

  /** Filling the low h bits of a number whose low h bits are zero. */
  lemma {:induction false} OrFillsLowBits(q: nat, h: nat)
    ensures BitOr(Shl(q, h), Pow2(h) - 1) == Shl(q, h) + (Pow2(h) - 1)
  {
    if h == 0 {
      OrWithZero(q);
    } else {
      OrFillsLowBits(q, h - 1);
      OrStep(Shl(q, h - 1), Pow2(h - 1) - 1);
    }
  }

  lemma OrStep(x: nat, y: nat)
    ensures BitOr(2 * x, 2 * y + 1) == 2 * BitOr(x, y) + 1
  {
    assert (2 * x) / 2 == x && (2 * y + 1) / 2 == y;
  }

  lemma {:induction false} LowBits(x: nat, h: nat)
    ensures Low(x, h) == 0 <==> forall i: nat :: i < h ==> Bit(x, i) == 0
    ensures Low(x, h) == Pow2(h) - 1 <==> forall i: nat :: i < h ==> Bit(x, i) == 1
  {
    if h > 0 {
      LowBits(x / 2, h - 1);
      ShiftedBits(x, h, 0);
      ShiftedBits(x, h, 1);
    }
  }

  lemma ShiftedBits(x: nat, h: nat, b: nat)
    requires h > 0
    ensures (forall i: nat :: i < h ==> Bit(x, i) == b) <==>
      x % 2 == b && forall i: nat :: i < h - 1 ==> Bit(x / 2, i) == b
  {
    if x % 2 == b && forall i: nat :: i < h - 1 ==> Bit(x / 2, i) == b {
      forall i: nat | i < h ensures Bit(x, i) == b {
        if i > 0 { assert Bit(x, i) == Bit(x / 2, i - 1); }
      }
    }
    if forall i: nat :: i < h ==> Bit(x, i) == b {
      assert Bit(x, 0) == x % 2;
      forall i: nat | i < h - 1 ensures Bit(x / 2, i) == b { assert Bit(x, i + 1) == Bit(x / 2, i); }
    }
  }

  // ---------------------------------------------------------------- prefixes

  datatype Prefix = Prefix(addr: Addr, bits: nat)

  predicate InRange(p: Prefix) { p.bits <= 32 }

  /** netip.Prefix.Contains: the same network bits. */
  predicate Contains(p: Prefix, x: Addr)
    requires InRange(p)
  {
    High(Value(x), 32 - p.bits) == High(Value(p.addr), 32 - p.bits)
  }

  /** prefix == prefix.Masked(): no host bit is set. */
  predicate IsMasked(p: Prefix)
    requires InRange(p)
  {
    Low(Value(p.addr), 32 - p.bits) == 0
  }

  /** isNetworkOrBroadcast: first and last address, in uint32 arithmetic. */
  predicate IsNetworkOrBroadcast(p: Prefix, x: Addr)
    requires InRange(p)
  {
    IsFirstOrLast(Value(p.addr), 32 - p.bits, Value(x))
  }

  predicate IsFirstOrLast(base: nat, hostBits: nat, current: nat) {
    var first := Shl(High(base, hostBits), hostBits);
    var last := BitOr(first, (Pow2(hostBits) - 1) % 0x1_0000_0000);
    current == first || current == last
  }

  ghost predicate HostBitsAll(p: Prefix, x: Addr, b: nat)
    requires InRange(p)
  {
    forall i: nat :: i < 32 - p.bits ==> Bit(Value(x), i) == b
  }

  lemma Pow2Of32()
    ensures Pow2(32) == 0x1_0000_0000
  {
    assert Shl(1, 8) == 256 && Shl(256, 8) == 65536 && Shl(65536, 8) == 0x100_0000
      && Shl(0x100_0000, 8) == 0x1_0000_0000;
    ShlTwice(1, 8, 8);
    ShlTwice(1, 16, 8);
    ShlTwice(1, 24, 8);
  }

  lemma {:induction false} ShlTwice(x: nat, a: nat, b: nat)
    ensures Shl(Shl(x, a), b) == Shl(x, a + b)
  {
    if b > 0 { ShlTwice(x, a, b - 1); }
  }

  lemma {:induction false} Pow2Grows(a: nat, b: nat)
    requires a <= b
    ensures Pow2(a) <= Pow2(b)
  {
    if a < b { Pow2Grows(a, b - 1); }
  }

  lemma FirstOrLastValue(base: nat, h: nat, v: nat)
    requires h <= 32 && High(v, h) == High(base, h)
    ensures IsFirstOrLast(base, h, v) <==> Low(v, h) == 0 || Low(v, h) == Pow2(h) - 1
  {
    FirstAndLast(v, h);
    LastValue(High(base, h), h);
  }

  lemma FirstOrLastIsLow(p: Prefix, x: Addr)
    requires InRange(p) && Contains(p, x)
    ensures IsNetworkOrBroadcast(p, x) <==>
      Low(Value(x), 32 - p.bits) == 0 || Low(Value(x), 32 - p.bits) == Pow2(32 - p.bits) - 1
  {
    FirstOrLastValue(Value(p.addr), 32 - p.bits, Value(x));
  }

  /** For addresses of the prefix, the first/last test says that all host bits are 0 or all are 1. */
  lemma FirstOrLastIsAllHostBits(p: Prefix, x: Addr)
    requires InRange(p) && Contains(p, x)
    ensures IsNetworkOrBroadcast(p, x) <==> HostBitsAll(p, x, 0) || HostBitsAll(p, x, 1)
  {
    FirstOrLastIsLow(p, x);
    LowBits(Value(x), 32 - p.bits);
  }

  lemma FirstAndLast(v: nat, h: nat)
    ensures var first := Shl(High(v, h), h);
      (v == first <==> Low(v, h) == 0) && (v == first + (Pow2(h) - 1) <==> Low(v, h) == Pow2(h) - 1)
  {
    HighLow(v, h);
  }

  /** The truncation to uint32 and the bitwise or give the last address of the prefix. */
  lemma LastValue(q: nat, h: nat)
    requires h <= 32
    ensures BitOr(Shl(q, h), (Pow2(h) - 1) % 0x1_0000_0000) == Shl(q, h) + (Pow2(h) - 1)
  {
    OrFillsLowBits(q, h);
    FitsUint32(h);
    Truncated(Pow2(h) - 1);
  }

  lemma FitsUint32(h: nat)
    requires h <= 32
    ensures Pow2(h) <= 0x1_0000_0000
  {
    Pow2Grows(h, 32);
    Pow2Of32();
  }

  lemma Truncated(x: nat)
    requires x < 0x1_0000_0000
    ensures x % 0x1_0000_0000 == x
  {
  }

  function PrefixText(p: Prefix): string { Format(p.addr) + "/" + Decimal(p.bits) }

  /** The prefix length, without sign or leading zeros. */
  function ParseBits(digits: string): Option<nat> {
    if digits == "" || !AllDigits(digits) || (|digits| > 1 && digits[0] == '0') || DigitsValue(digits) > 32 then None
    else Some(DigitsValue(digits))
  }

  /** netip.ParsePrefix on IPv4 text. */
  function ParsePrefix(s: string): (r: Option<Prefix>)
    ensures r.Some? ==> InRange(r.value)
  {
    if '/' !in s then None
    else
      var i := LastIndex(s, '/');
      match (Parse(s[..i]), ParseBits(s[i + 1..]))
      case (Some(addr), Some(bits)) => Some(Prefix(addr, bits))
      case _ => None
  }

  /** Only the canonical text of a prefix parses. */
  lemma ParsedIsCanonical(s: string)
    requires ParsePrefix(s).Some?
    ensures s == PrefixText(ParsePrefix(s).value)
  {
    var i := LastIndex(s, '/');
    DecimalOfValue(s[i + 1..]);
    ParsedText(s[..i]);
    Rejoined(s, i);
  }

  lemma Rejoined(s: string, i: nat)
    requires i < |s| && s[i] == '/'
    ensures s == s[..i] + "/" + s[i + 1..]
  {
  }

  lemma ParsePrefixText(p: Prefix)
    requires InRange(p)
    ensures ParsePrefix(PrefixText(p)) == Some(p)
  {
    var a, d := Format(p.addr), Decimal(p.bits);
    BitsText(p.bits);
    LastIndexBefore(a, '/', d);
    assert Parse(a) == Some(p.addr);
  }

  lemma BitsText(n: nat)
    requires n <= 32
    ensures ParseBits(Decimal(n)) == Some(n) && '/' !in Decimal(n)
  {
    var d := Decimal(n);
    assert AllDigits(d) && (|d| > 1 ==> n >= 10);
  }

  /** parseUsableIPv4: global unicast, neither loopback nor link-local. */
  predicate Usable(x: Addr) {
    && x != Addr(0, 0, 0, 0) && x != Addr(255, 255, 255, 255)
    && x.a != 127 && !(224 <= x.a < 240) && !(x.a == 169 && x.b == 254)
  }

  function ParseUsable(s: string): (r: Option<Addr>)
    ensures r.Some? <==> exists x :: s == Format(x) && Usable(x)
    ensures r.Some? ==> s == Format(r.value) && Usable(r.value)
  {
    var x := Parse(s);
    if x.Some? && Usable(x.value) then x else None
  }

  // ---------------------------------------------------------------- documents

  const INPUT_SCHEMA := "pasturestack.overlay-topology/v1"

  datatype Node = Node(id: string, underlay: string, overlay: string)
  datatype VxlanConfig = VxlanConfig(vni: int, udpPort: int, mtu: int, interfaceName: string)
  datatype Config = Config(schema: string, backend: string, localNodeId: string, overlayCidr: string,
                           nodes: seq<Node>, vxlan: Option<VxlanConfig>)
  datatype Normalized = Normalized(schema: string, backend: string, localNodeId: string, overlayCidr: string,
                                   nodes: seq<Node>, vxlan: Option<VxlanConfig>, prefixBits: nat)

  predicate Lower(c: char) { 'a' <= c <= 'z' }

  /** ^[a-z][a-z0-9-]{0,n}$ */
  predicate IsName(s: string, n: nat) {
    1 <= |s| <= n + 1 && Lower(s[0]) && forall i :: 0 <= i < |s| ==> Lower(s[i]) || IsDigit(s[i]) || s[i] == '-'
  }

  predicate ValidVxlan(v: VxlanConfig) {
    && 1 <= v.vni <= 16777215 && 1024 <= v.udpPort <= 65535 && 1280 <= v.mtu <= 9000
    && IsName(v.interfaceName, 14) && "pasture-" <= v.interfaceName
  }

  predicate BackendOk(backend: string, vxlan: Option<VxlanConfig>) {
    if backend == "ipsec" then vxlan.None? else backend == "vxlan" && vxlan.Some? && ValidVxlan(vxlan.value)
  }

  predicate PrefixOk(p: Option<Prefix>) {
    p.Some? && InRange(p.value) && IsMasked(p.value) && 8 <= p.value.bits <= 30
  }

  // ---------------------------------------------------------------- nodes

  /** A node that passes its own checks: its normalized form and its two addresses. */
  datatype Read = Read(node: Node, underlay: Addr, overlay: Addr)

  /** Reads one node on its own; the rest of normalization only compares what was read. */
  type NodeReader = Node -> Option<Read>

  function ReadNode(p: Prefix, n: Node): Option<Read>
    requires InRange(p)
  {
    var u, o := ParseUsable(n.underlay), ParseUsable(n.overlay);
    if IsName(n.id, 62) && u.Some? && !Contains(p, u.value) && o.Some? && Contains(p, o.value)
      && !IsNetworkOrBroadcast(p, o.value)
    then Some(Read(Node(n.id, Format(u.value), Format(o.value)), u.value, o.value))
    else None
  }

  /** Accepted address text is canonical, so a node's normalized form is the node itself, and
      different texts are different addresses. */
  ghost predicate Faithful(read: NodeReader) {
    && (forall n :: read(n).Some? ==> read(n).value.node == n)
    && (forall m, n :: read(m).Some? && read(n).Some? ==>
         (read(m).value.underlay == read(n).value.underlay <==> m.underlay == n.underlay) &&
         (read(m).value.overlay == read(n).value.overlay <==> m.overlay == n.overlay))
  }

  lemma ReadNodeIsFaithful(p: Prefix)
    requires InRange(p)
    ensures Faithful(Reader(p))
  {
  }

  ghost predicate AllRead(read: NodeReader, nodes: seq<Node>) {
    forall i :: 0 <= i < |nodes| ==> read(nodes[i]).Some?
  }

  ghost predicate Different(read: NodeReader, m: Node, n: Node) {
    && m.id != n.id && read(m).Some? && read(n).Some?
    && read(m).value.underlay != read(n).value.underlay && read(m).value.overlay != read(n).value.overlay
  }

  ghost predicate AllDifferent(read: NodeReader, nodes: seq<Node>) {
    forall i, j :: 0 <= i < j < |nodes| ==> Different(read, nodes[i], nodes[j])
  }

  ghost predicate HasId(nodes: seq<Node>, id: string) {
    exists i :: 0 <= i < |nodes| && nodes[i].id == id
  }

  ghost predicate NodesOk(read: NodeReader, nodes: seq<Node>, localId: string) {
    AllRead(read, nodes) && AllDifferent(read, nodes) && HasId(nodes, localId)
  }

  function NodeId(n: Node): string { n.id }

  /** The node loop: what was seen, and the normalized nodes. */
  method ReadNodes(read: NodeReader, nodes: seq<Node>, localId: string) returns (r: Option<seq<Node>>)
    requires Faithful(read)
    ensures r == if NodesOk(read, nodes, localId) then Some(nodes) else None
  {
    var ids: set<string>, underlays: set<Addr>, overlays: set<Addr> := {}, {}, {};
    var out: seq<Node> := [];
    var found := false;
    for i := 0 to |nodes|
      invariant AllRead(read, nodes[..i]) && AllDifferent(read, nodes[..i]) && out == nodes[..i]
      invariant ids == set k | 0 <= k < i :: nodes[k].id
      invariant underlays == set k | 0 <= k < i :: Underlay(read, nodes[k])
      invariant overlays == set k | 0 <= k < i :: Overlay(read, nodes[k])
      invariant found <==> HasId(nodes[..i], localId)
    {
      var n := nodes[i];
      var e := read(n);
      if e.None? || n.id in ids || e.value.underlay in underlays || e.value.overlay in overlays {
        NotAccepted(read, nodes, i, ids, underlays, overlays);
        return None;
      }
      NodeJoins(read, nodes, i);
      ids, underlays, overlays := ids + {n.id}, underlays + {e.value.underlay}, overlays + {e.value.overlay};
      if n.id == localId { found := true; }
      out := out + [e.value.node];
    }
    assert nodes[..|nodes|] == nodes;
    r := if found then Some(out) else None;
  }

  function Underlay(read: NodeReader, n: Node): Addr {
    if read(n).Some? then read(n).value.underlay else Addr(0, 0, 0, 0)
  }

  function Overlay(read: NodeReader, n: Node): Addr {
    if read(n).Some? then read(n).value.overlay else Addr(0, 0, 0, 0)
  }

  lemma Clash(read: NodeReader, m: Node, n: Node)
    requires m.id == n.id || Underlay(read, m) == Underlay(read, n) || Overlay(read, m) == Overlay(read, n)
    ensures !Different(read, m, n)
  {
  }

  lemma NotAccepted(read: NodeReader, nodes: seq<Node>, i: nat, ids: set<string>, underlays: set<Addr>,
                    overlays: set<Addr>)
    requires i < |nodes| && AllRead(read, nodes[..i])
    requires ids == set k | 0 <= k < i :: nodes[k].id
    requires underlays == set k | 0 <= k < i :: Underlay(read, nodes[k])
    requires overlays == set k | 0 <= k < i :: Overlay(read, nodes[k])
    requires read(nodes[i]).None? || nodes[i].id in ids || Underlay(read, nodes[i]) in underlays
      || Overlay(read, nodes[i]) in overlays
    ensures !(AllRead(read, nodes) && AllDifferent(read, nodes))
  {
    if AllRead(read, nodes) {
      var k :| 0 <= k < i && (nodes[k].id == nodes[i].id || Underlay(read, nodes[k]) == Underlay(read, nodes[i])
        || Overlay(read, nodes[k]) == Overlay(read, nodes[i]));
      Clash(read, nodes[k], nodes[i]);
    }
  }

  lemma NodeJoins(read: NodeReader, nodes: seq<Node>, i: nat)
    requires i < |nodes| && AllRead(read, nodes[..i]) && AllDifferent(read, nodes[..i]) && read(nodes[i]).Some?
    requires forall k :: 0 <= k < i ==>
      nodes[k].id != nodes[i].id && Underlay(read, nodes[k]) != Underlay(read, nodes[i])
        && Overlay(read, nodes[k]) != Overlay(read, nodes[i])
    ensures AllRead(read, nodes[..i + 1]) && AllDifferent(read, nodes[..i + 1])
    ensures HasId(nodes[..i + 1], nodes[i].id)
    ensures forall id :: HasId(nodes[..i + 1], id) <==> HasId(nodes[..i], id) || id == nodes[i].id
  {
    var front, all := nodes[..i], nodes[..i + 1];
    assert all == front + [nodes[i]];
    forall id | HasId(front, id) ensures HasId(all, id) {
      var k :| 0 <= k < |front| && front[k].id == id;
      assert all[k] == front[k];
    }
    assert all[i] == nodes[i];
  }

  // ---------------------------------------------------------------- normalization

  /** The checks that do not look at the prefix or the nodes' own fields. */
  predicate HeaderOk(c: Config) {
    c.schema == INPUT_SCHEMA && IsName(c.localNodeId, 62) && 2 <= |c.nodes| <= 4096 && BackendOk(c.backend, c.vxlan)
  }

  function Reader(p: Prefix): NodeReader
    requires InRange(p)
  {
    n => ReadNode(p, n)
  }

  ghost predicate Acceptable(c: Config) {
    var p := ParsePrefix(c.overlayCidr);
    HeaderOk(c) && PrefixOk(p) && NodesOk(Reader(p.value), c.nodes, c.localNodeId)
  }

  /** The normal form of an acceptable document: its own fields with the nodes in id order. */
  function NormalForm(c: Config): Normalized
    requires ParsePrefix(c.overlayCidr).Some?
  {
    Normalized(c.schema, c.backend, c.localNodeId, c.overlayCidr, Sort(c.nodes, NodeId), c.vxlan,
      ParsePrefix(c.overlayCidr).value.bits)
  }

  method ParseOverlay(cidr: string) returns (p: Option<Prefix>)
    ensures p == if PrefixOk(ParsePrefix(cidr)) then ParsePrefix(cidr) else None
  {
    p := ParsePrefix(cidr);
    if p.None? || !IsMasked(p.value) { return None; }
    if p.value.bits < 8 || p.value.bits > 30 { return None; }
  }

  method CheckBackend(backend: string, vxlan: Option<VxlanConfig>) returns (ok: bool)
    requires backend == "ipsec" || backend == "vxlan"
    ensures ok == BackendOk(backend, vxlan)
  {
    if backend == "ipsec" { return vxlan.None?; }
    if vxlan.None? { return false; }
    ok := ValidVxlan(vxlan.value);
  }

  /** normalize: accepts exactly the acceptable documents and returns their normal form. */
  method Normalize(c: Config) returns (r: Option<Normalized>)
    ensures r.Some? <==> Acceptable(c)
    ensures r.Some? ==> r.value == NormalForm(c)
  {
    if c.schema != INPUT_SCHEMA { return None; }
    if c.backend != "ipsec" && c.backend != "vxlan" { return None; }
    if !IsName(c.localNodeId, 62) { return None; }
    if |c.nodes| < 2 || |c.nodes| > 4096 { return None; }
    var p := ParseOverlay(c.overlayCidr);
    if p.None? { return None; }
    ReadNodeIsFaithful(p.value);
    r := NormalizeNodes(c, p.value, Reader(p.value));
    if r.Some? { ParsedIsCanonical(c.overlayCidr); }
  }

  method NormalizeNodes(c: Config, p: Prefix, read: NodeReader) returns (r: Option<Normalized>)
    requires Faithful(read) && (c.backend == "ipsec" || c.backend == "vxlan")
    ensures r == if NodesOk(read, c.nodes, c.localNodeId) && BackendOk(c.backend, c.vxlan)
                 then Some(Normalized(c.schema, c.backend, c.localNodeId, PrefixText(p), Sort(c.nodes, NodeId), c.vxlan,
                   p.bits)) else None
  {
    var nodes := ReadNodes(read, c.nodes, c.localNodeId);
    if nodes.None? { return None; }
    var ok := CheckBackend(c.backend, c.vxlan);
    if !ok { return None; }
    r := Some(Normalized(c.schema, c.backend, c.localNodeId, PrefixText(p), Sort(nodes.value, NodeId), c.vxlan,
      p.bits));
  }

  // ---------------------------------------------------------------- order does not matter

  lemma TwicePresent<T>(s: seq<T>, i: nat, j: nat)
    requires i < j < |s| && s[i] == s[j]
    ensures multiset(s)[s[i]] >= 2
  {
    assert s == s[..j] + [s[j]] + s[j + 1..];
    assert s[..j][i] == s[i];
  }

  lemma TwoPositions<T>(s: seq<T>, x: T) returns (i: nat, j: nat)
    requires multiset(s)[x] >= 2
    ensures i < j < |s| && s[i] == s[j] == x
  {
    assert x in multiset(s);
    var k: nat :| k < |s| && s[k] == x;
    assert s == s[..k] + [x] + s[k + 1..];
    assert multiset(s)[x] == multiset(s[..k])[x] + 1 + multiset(s[k + 1..])[x];
    if x in s[..k] {
      i :| 0 <= i < k && s[..k][i] == x;
      j := k;
    } else {
      assert x in multiset(s[k + 1..]);
      i := k;
      var d: nat :| d < |s| - k - 1 && s[k + 1..][d] == x;
      j := k + 1 + d;
    }
  }

  lemma PermutedDifferent(read: NodeReader, a: seq<Node>, b: seq<Node>)
    requires multiset(a) == multiset(b) && AllDifferent(read, a)
    ensures AllDifferent(read, b)
  {
    forall i, j | 0 <= i < j < |b| ensures Different(read, b[i], b[j]) {
      assert b[i] in multiset(b) && b[j] in multiset(b);
      if b[i] == b[j] {
        TwicePresent(b, i, j);
        var x, y := TwoPositions(a, b[i]);
        assert Different(read, a[x], a[y]);
      } else {
        assert b[i] in multiset(a) && b[j] in multiset(a);
        var x :| 0 <= x < |a| && a[x] == b[i];
        var y :| 0 <= y < |a| && a[y] == b[j];
        if x < y { assert Different(read, a[x], a[y]); } else { assert Different(read, a[y], a[x]); }
      }
    }
  }

  lemma PermutedNodesOk(read: NodeReader, a: seq<Node>, b: seq<Node>, id: string)
    requires multiset(a) == multiset(b) && NodesOk(read, a, id)
    ensures NodesOk(read, b, id)
  {
    PermutedDifferent(read, a, b);
    SameMembers(a, b);
    forall i | 0 <= i < |b| ensures read(b[i]).Some? {
      assert b[i] in b && b[i] in a;
      var x :| 0 <= x < |a| && a[x] == b[i];
    }
    var x :| 0 <= x < |a| && a[x].id == id;
    assert a[x] in b;
  }

  lemma SameMembers<T>(a: seq<T>, b: seq<T>)
    requires multiset(a) == multiset(b)
    ensures |a| == |b| && forall x :: x in a <==> x in b
  {
    assert |a| == |multiset(a)| && |b| == |multiset(b)|;
    assert forall x :: x in a <==> x in multiset(a);
    assert forall x :: x in b <==> x in multiset(b);
  }

  lemma PermutedSort(read: NodeReader, a: seq<Node>, b: seq<Node>)
    requires multiset(a) == multiset(b) && AllDifferent(read, a)
    ensures Sort(a, NodeId) == Sort(b, NodeId) && StrictlySorted(Sort(a, NodeId), NodeId)
  {
    PermutedDifferent(read, a, b);
    assert forall i, j :: 0 <= i < j < |a| ==> Different(read, a[i], a[j]);
    assert forall i, j :: 0 <= i < j < |b| ==> Different(read, b[i], b[j]);
    SortStrict(a, NodeId);
    SortStrict(b, NodeId);
    SameMembers(a, b);
    SortedUnique(Sort(a, NodeId), Sort(b, NodeId), NodeId);
  }

  /** Whether a document is accepted, and its normal form, do not depend on the order of its nodes. */
  lemma NodeOrderIsIrrelevant(c: Config, nodes: seq<Node>)
    requires multiset(nodes) == multiset(c.nodes)
    ensures Acceptable(c) <==> Acceptable(c.(nodes := nodes))
    ensures Acceptable(c) ==> NormalForm(c) == NormalForm(c.(nodes := nodes))
  {
    var p, c' := ParsePrefix(c.overlayCidr), c.(nodes := nodes);
    SameMembers(nodes, c.nodes);
    if Acceptable(c) {
      PermutedNodesOk(Reader(p.value), c.nodes, nodes, c.localNodeId);
      PermutedSort(Reader(p.value), c.nodes, nodes);
    }
    if Acceptable(c') { PermutedNodesOk(Reader(p.value), nodes, c.nodes, c.localNodeId); }
  }

  /** A normalized configuration read as a document again. */
  function AsInput(n: Normalized): Config {
    Config(n.schema, n.backend, n.localNodeId, n.overlayCidr, n.nodes, n.vxlan)
  }

  lemma NormalizationIsIdempotent(c: Config)
    requires Acceptable(c)
    ensures Acceptable(AsInput(NormalForm(c))) && NormalForm(AsInput(NormalForm(c))) == NormalForm(c)
  {
    var nodes := Sort(c.nodes, NodeId);
    NodeOrderIsIrrelevant(c, nodes);
    assert AsInput(NormalForm(c)) == c.(nodes := nodes);
  }

  // ---------------------------------------------------------------- what normal forms look like

  ghost predicate WellPlaced(p: Prefix, n: Node)
    requires InRange(p)
  {
    exists u, o :: n.underlay == Format(u) && n.overlay == Format(o) && Usable(u) && Usable(o)
      && !Contains(p, u) && Contains(p, o) && !HostBitsAll(p, o, 0) && !HostBitsAll(p, o, 1)
  }

  lemma ReadIsWellPlaced(p: Prefix, n: Node)
    requires InRange(p) && ReadNode(p, n).Some?
    ensures WellPlaced(p, n)
  {
    var u, o := ParseUsable(n.underlay).value, ParseUsable(n.overlay).value;
    FirstOrLastIsAllHostBits(p, o);
    assert n.underlay == Format(u) && n.overlay == Format(o);
  }

  /** Normal forms are strictly sorted by id; underlay addresses are pairwise different and outside
      the prefix, overlay addresses pairwise different, inside it and neither its first nor its last. */
  lemma NormalFormShape(c: Config)
    requires Acceptable(c)
    ensures var n, p := NormalForm(c), ParsePrefix(c.overlayCidr).value;
      && StrictlySorted(n.nodes, NodeId) && n.prefixBits == p.bits && n.overlayCidr == PrefixText(p)
      && (forall i :: 0 <= i < |n.nodes| ==> WellPlaced(p, n.nodes[i]))
      && (forall i, j :: 0 <= i < j < |n.nodes| ==>
        n.nodes[i].underlay != n.nodes[j].underlay && n.nodes[i].overlay != n.nodes[j].overlay)
  {
    var p, nodes := ParsePrefix(c.overlayCidr).value, Sort(c.nodes, NodeId);
    ParsedIsCanonical(c.overlayCidr);
    PermutedSort(Reader(p), c.nodes, nodes);
    PermutedNodesOk(Reader(p), c.nodes, nodes, c.localNodeId);
    NodesArePlaced(p, nodes, c.localNodeId);
  }

  lemma NodesArePlaced(p: Prefix, nodes: seq<Node>, id: string)
    requires InRange(p) && NodesOk(Reader(p), nodes, id)
    ensures forall i :: 0 <= i < |nodes| ==> WellPlaced(p, nodes[i])
    ensures forall i, j :: 0 <= i < j < |nodes| ==>
      nodes[i].underlay != nodes[j].underlay && nodes[i].overlay != nodes[j].overlay
  {
    forall i | 0 <= i < |nodes| ensures WellPlaced(p, nodes[i]) {
      assert Reader(p)(nodes[i]).Some?;
      ReadIsWellPlaced(p, nodes[i]);
    }
    ReadNodeIsFaithful(p);
    forall i, j | 0 <= i < j < |nodes|
      ensures nodes[i].underlay != nodes[j].underlay && nodes[i].overlay != nodes[j].overlay {
      DifferentTexts(Reader(p), nodes[i], nodes[j]);
    }
  }

  lemma DifferentTexts(read: NodeReader, m: Node, n: Node)
    requires Faithful(read) && Different(read, m, n)
    ensures m.underlay != n.underlay && m.overlay != n.overlay
  {
  }

  // ---------------------------------------------------------------- how many nodes fit

  function Elements(xs: seq<nat>): set<nat> { set x | x in xs }

  lemma {:induction false} DistinctCount(xs: seq<nat>)
    requires forall i, j :: 0 <= i < j < |xs| ==> xs[i] != xs[j]
    ensures |Elements(xs)| == |xs|
  {
    if xs == [] {
      assert Elements(xs) == {};
    } else {
      var front, last := xs[..|xs| - 1], xs[|xs| - 1];
      DistinctCount(front);
      assert last !in front;
      assert Elements(xs) == Elements(front) + {last};
    }
  }

  lemma {:induction false} Pigeonhole(s: set<nat>, m: nat)
    requires forall x :: x in s ==> 1 <= x < m
    ensures |s| <= if m == 0 then 0 else m - 1
  {
    if m > 0 {
      var smaller := s - {m - 1};
      if m == 1 { assert s == {}; } else { Pigeonhole(smaller, m - 1); }
      assert s == smaller || s == smaller + {m - 1};
    }
  }

  lemma HostPartInRange(p: Prefix, x: Addr)
    requires InRange(p) && Contains(p, x) && !IsNetworkOrBroadcast(p, x)
    ensures 1 <= Low(Value(x), 32 - p.bits) < Pow2(32 - p.bits) - 1
  {
    FirstOrLastIsLow(p, x);
  }

  lemma HostPartsDiffer(p: Prefix, x: Addr, y: Addr)
    requires InRange(p) && Contains(p, x) && Contains(p, y) && x != y
    ensures Low(Value(x), 32 - p.bits) != Low(Value(y), 32 - p.bits)
  {
    if Value(x) == Value(y) { ValueInjective(x, y); }
    LowsDiffer(Value(x), Value(y), 32 - p.bits);
  }

  lemma LowsDiffer(v: nat, w: nat, h: nat)
    requires High(v, h) == High(w, h) && v != w
    ensures Low(v, h) != Low(w, h)
  {
    HighLow(v, h);
    HighLow(w, h);
  }

  /** An accepted topology with prefix length b has at most 2^(32-b) - 2 nodes (section 3.1 of RFC 4632). */
  lemma NodeCountBound(c: Config)
    requires Acceptable(c)
    ensures |c.nodes| <= Pow2(32 - ParsePrefix(c.overlayCidr).value.bits) - 2
  {
    var p := ParsePrefix(c.overlayCidr).value;
    ReaderPlacesOverlays(p);
    HostsFit(p, Reader(p), c.nodes);
  }

  ghost predicate PlacesOverlays(p: Prefix, read: NodeReader)
    requires InRange(p)
  {
    forall n :: read(n).Some? ==> Contains(p, read(n).value.overlay) && !IsNetworkOrBroadcast(p, read(n).value.overlay)
  }

  lemma ReaderPlacesOverlays(p: Prefix)
    requires InRange(p)
    ensures PlacesOverlays(p, Reader(p))
  {
  }

  lemma HostsFit(p: Prefix, read: NodeReader, nodes: seq<Node>)
    requires InRange(p) && p.bits <= 30 && PlacesOverlays(p, read) && AllRead(read, nodes) && AllDifferent(read, nodes)
    ensures |nodes| <= Pow2(32 - p.bits) - 2
  {
    var h, m := 32 - p.bits, Pow2(32 - p.bits) - 1;
    var hosts := seq(|nodes|, i requires 0 <= i < |nodes| => Low(Value(Overlay(read, nodes[i])), h));
    forall i | 0 <= i < |hosts| ensures 1 <= hosts[i] < m { HostPartInRange(p, Overlay(read, nodes[i])); }
    forall i, j | 0 <= i < j < |hosts| ensures hosts[i] != hosts[j] {
      assert Different(read, nodes[i], nodes[j]);
      HostPartsDiffer(p, Overlay(read, nodes[i]), Overlay(read, nodes[j]));
    }
    HostsCount(hosts, m);
    assert Pow2(h) == 2 * Pow2(h - 1);
  }

  lemma HostsCount(hosts: seq<nat>, m: nat)
    requires m > 0 && forall i :: 0 <= i < |hosts| ==> 1 <= hosts[i] < m
    requires forall i, j :: 0 <= i < j < |hosts| ==> hosts[i] != hosts[j]
    ensures |hosts| <= m - 1
  {
    DistinctCount(hosts);
    Pigeonhole(Elements(hosts), m);
  }

  // ---------------------------------------------------------------- accepted documents in numbers

  lemma {:induction false} ShlIsTimes(q: nat, h: nat)
    ensures Shl(q, h) == q * Pow2(h)
  {
    if h > 0 { ShlIsTimes(q, h - 1); }
  }

  lemma {:induction false} ShlHasNoLow(q: nat, h: nat)
    ensures Low(Shl(q, h), h) == 0 && High(Shl(q, h), h) == q
  {
    if h > 0 { ShlHasNoLow(q, h - 1); }
  }

  lemma {:induction false} ShlSteps(a: nat, b: nat, h: nat)
    requires a < b
    ensures Shl(a, h) + Pow2(h) <= Shl(b, h)
  {
    if h > 0 { ShlSteps(a, b, h - 1); }
  }

  predicate IsTimes(x: nat, q: nat, m: nat) { x == q * m }

  ghost predicate IsMultiple(x: nat, m: nat) { exists q: nat :: IsTimes(x, q, m) }

  /** A masked prefix's address is a multiple of its size. */
  lemma MaskedIsMultiple(p: Prefix)
    requires InRange(p)
    ensures IsMasked(p) <==> IsMultiple(Value(p.addr), Pow2(32 - p.bits))
  {
    var h := 32 - p.bits;
    HighLow(Value(p.addr), h);
    if IsMasked(p) {
      ShlIsTimes(High(Value(p.addr), h), h);
      assert IsTimes(Value(p.addr), High(Value(p.addr), h), Pow2(h));
    }
    if q: nat :| IsTimes(Value(p.addr), q, Pow2(h)) {
      ShlIsTimes(q, h);
      ShlHasNoLow(q, h);
    }
  }

  lemma SameHighIsRange(base: nat, v: nat, h: nat)
    requires Low(base, h) == 0
    ensures High(v, h) == High(base, h) <==> base <= v < base + Pow2(h)
  {
    var q, r := High(base, h), High(v, h);
    HighLow(base, h);
    HighLow(v, h);
    if r < q { ShlSteps(r, q, h); }
    if q < r { ShlSteps(q, r, h); }
  }

  /** It contains exactly the addresses from its own on, as many as its size. */
  lemma ContainsIsRange(p: Prefix, x: Addr)
    requires InRange(p) && IsMasked(p)
    ensures Contains(p, x) <==> Value(p.addr) <= Value(x) < Value(p.addr) + Pow2(32 - p.bits)
  {
    SameHighIsRange(Value(p.addr), Value(x), 32 - p.bits);
  }

  lemma EdgesOfRange(base: nat, v: nat, h: nat)
    requires h <= 32 && Low(base, h) == 0 && High(v, h) == High(base, h)
    ensures IsFirstOrLast(base, h, v) <==> v == base || v == base + Pow2(h) - 1
  {
    FirstOrLastValue(base, h, v);
    HighLow(base, h);
    HighLow(v, h);
  }

  /** Its network and broadcast addresses are the first and the last of them. */
  lemma NetworkIsEdge(p: Prefix, x: Addr)
    requires InRange(p) && IsMasked(p) && Contains(p, x)
    ensures IsNetworkOrBroadcast(p, x) <==>
      Value(x) == Value(p.addr) || Value(x) == Value(p.addr) + Pow2(32 - p.bits) - 1
  {
    EdgesOfRange(Value(p.addr), Value(x), 32 - p.bits);
  }

  /** Not the unspecified, broadcast, a loopback, a multicast or a link-local address. */
  predicate UsableValue(v: nat) {
    && v != 0 && v != 0xFFFF_FFFF && !(0x7F00_0000 <= v <= 0x7FFF_FFFF)
    && !(0xE000_0000 <= v <= 0xEFFF_FFFF) && !(0xA9FE_0000 <= v <= 0xA9FE_FFFF)
  }

  lemma UsableIsValue(x: Addr)
    ensures Usable(x) <==> UsableValue(Value(x))
  {
    var v, low := Value(x), x.c as int * 256 + x.d as int;
    assert v == (x.a as int * 256 + x.b as int) * 65536 + low && low < 65536;
  }

  /** A lower-case letter, then lower-case letters, digits and dashes, at most max in all. */
  predicate NameText(s: string, max: nat) {
    && 0 < |s| <= max && 97 <= s[0] as int <= 122
    && forall i :: 0 <= i < |s| ==> 97 <= s[i] as int <= 122 || 48 <= s[i] as int <= 57 || s[i] as int == 45
  }

  /** Two addresses that a node's texts are, the underlay outside and the overlay strictly inside the range. */
  predicate PlacedNode(n: Node, u: Addr, o: Addr, base: nat, size: nat) {
    && n.underlay == Format(u) && n.overlay == Format(o) && UsableValue(Value(u)) && UsableValue(Value(o))
    && (Value(u) < base || base + size <= Value(u)) && base < Value(o) < base + size - 1
  }

  ghost predicate GoodNode(n: Node, base: nat, size: nat) {
    NameText(n.id, 63) && exists u, o :: PlacedNode(n, u, o, base, size)
  }

  predicate GoodVxlan(v: VxlanConfig) {
    && 0 < v.vni < 16777216 && 1023 < v.udpPort < 65536 && 1279 < v.mtu < 9001
    && NameText(v.interfaceName, 15) && |v.interfaceName| >= 8 && v.interfaceName[..8] == "pasture-"
  }

  /** A document over the given prefix as the program's messages describe it. */
  ghost predicate GoodDocument(c: Config, p: Prefix) {
    GoodHeader(c) && GoodPrefix(c.overlayCidr, p) && GoodNodes(c.nodes, c.localNodeId, Value(p.addr), Pow2(32 - p.bits))
  }

  predicate GoodHeader(c: Config) {
    && c.schema == "pasturestack.overlay-topology/v1" && NameText(c.localNodeId, 63) && 1 < |c.nodes| < 4097
    && ((c.backend == "ipsec" && c.vxlan == None) ||
        (c.backend == "vxlan" && c.vxlan.Some? && GoodVxlan(c.vxlan.value)))
  }

  ghost predicate GoodPrefix(cidr: string, p: Prefix) {
    && 7 < p.bits < 31 && cidr == Format(p.addr) + "/" + Decimal(p.bits)
    && IsMultiple(Value(p.addr), Pow2(32 - p.bits))
  }

  ghost predicate GoodNodes(nodes: seq<Node>, localId: string, base: nat, size: nat) {
    && (forall n :: n in nodes ==> GoodNode(n, base, size))
    && (forall i, j :: 0 <= i < j < |nodes| ==> TextsDiffer(nodes[i], nodes[j]))
    && (exists n :: n in nodes && n.id == localId)
  }

  predicate TextsDiffer(m: Node, n: Node) {
    m.id != n.id && m.underlay != n.underlay && m.overlay != n.overlay
  }

  lemma NameMeans(s: string, n: nat)
    ensures IsName(s, n) <==> NameText(s, n + 1)
  {
  }

  lemma VxlanMeans(v: VxlanConfig)
    ensures ValidVxlan(v) <==> GoodVxlan(v)
  {
    NameMeans(v.interfaceName, 14);
  }

  lemma PlacedMeans(p: Prefix, n: Node, u: Addr, o: Addr)
    requires InRange(p) && IsMasked(p)
    ensures PlacedNode(n, u, o, Value(p.addr), Pow2(32 - p.bits)) <==>
      && n.underlay == Format(u) && Usable(u) && !Contains(p, u)
      && n.overlay == Format(o) && Usable(o) && Contains(p, o) && !IsNetworkOrBroadcast(p, o)
  {
    UsableIsValue(u);
    UsableIsValue(o);
    ContainsIsRange(p, u);
    ContainsIsRange(p, o);
    if Contains(p, o) { NetworkIsEdge(p, o); }
    PlacedInNumbers(n, u, o, Value(p.addr), Pow2(32 - p.bits));
  }

  lemma PlacedInNumbers(n: Node, u: Addr, o: Addr, base: nat, size: nat)
    ensures PlacedNode(n, u, o, base, size) <==>
      && n.underlay == Format(u) && UsableValue(Value(u)) && !(base <= Value(u) < base + size)
      && n.overlay == Format(o) && UsableValue(Value(o)) && base <= Value(o) < base + size
      && Value(o) != base && Value(o) != base + size - 1
  {
  }

  lemma ReadMeans(p: Prefix, n: Node)
    requires InRange(p) && IsMasked(p)
    ensures ReadNode(p, n).Some? <==> GoodNode(n, Value(p.addr), Pow2(32 - p.bits))
  {
    if ReadNode(p, n).Some? {
      var u, o := ReadParts(p, n);
      PartsAreGood(p, n, u, o);
    }
    if GoodNode(n, Value(p.addr), Pow2(32 - p.bits)) { GoodIsRead(p, n); }
  }

  lemma ReadParts(p: Prefix, n: Node) returns (u: Addr, o: Addr)
    requires InRange(p) && ReadNode(p, n).Some?
    ensures IsName(n.id, 62) && n.underlay == Format(u) && Usable(u) && !Contains(p, u)
    ensures n.overlay == Format(o) && Usable(o) && Contains(p, o) && !IsNetworkOrBroadcast(p, o)
  {
    u, o := ParseUsable(n.underlay).value, ParseUsable(n.overlay).value;
  }

  lemma PartsAreGood(p: Prefix, n: Node, u: Addr, o: Addr)
    requires InRange(p) && IsMasked(p) && IsName(n.id, 62)
    requires n.underlay == Format(u) && Usable(u) && !Contains(p, u)
    requires n.overlay == Format(o) && Usable(o) && Contains(p, o) && !IsNetworkOrBroadcast(p, o)
    ensures GoodNode(n, Value(p.addr), Pow2(32 - p.bits))
  {
    NameMeans(n.id, 62);
    PlacedMeans(p, n, u, o);
  }

  lemma GoodIsRead(p: Prefix, n: Node)
    requires InRange(p) && IsMasked(p) && GoodNode(n, Value(p.addr), Pow2(32 - p.bits))
    ensures ReadNode(p, n).Some?
  {
    NameMeans(n.id, 62);
    var u, o :| PlacedNode(n, u, o, Value(p.addr), Pow2(32 - p.bits));
    PlacedMeans(p, n, u, o);
    UsableTextReads(n.underlay, u);
    UsableTextReads(n.overlay, o);
  }

  lemma UsableTextReads(s: string, x: Addr)
    requires s == Format(x) && Usable(x)
    ensures ParseUsable(s) == Some(x)
  {
    assert Parse(s) == Some(x);
  }

  lemma HeaderMeans(c: Config)
    ensures HeaderOk(c) <==> GoodHeader(c)
  {
    NameMeans(c.localNodeId, 62);
    if c.vxlan.Some? { VxlanMeans(c.vxlan.value); }
  }

  lemma PrefixMeans(cidr: string, p: Prefix)
    requires InRange(p) && ParsePrefix(cidr) == Some(p)
    ensures PrefixOk(Some(p)) <==> GoodPrefix(cidr, p)
  {
    ParsedIsCanonical(cidr);
    assert cidr == Format(p.addr) + "/" + Decimal(p.bits);
    GoodMeansMasked(cidr, p);
  }

  lemma GoodMeansMasked(cidr: string, p: Prefix)
    requires InRange(p) && cidr == Format(p.addr) + "/" + Decimal(p.bits)
    ensures GoodPrefix(cidr, p) <==> 8 <= p.bits <= 30 && IsMasked(p)
  {
    MaskedIsMultiple(p);
  }

  /** The acceptable documents are exactly the good ones. */
  lemma AcceptableMeans(c: Config)
    ensures Acceptable(c) <==> exists p :: GoodDocument(c, p)
  {
    if Acceptable(c) { AcceptableIsGood(c, ParsePrefix(c.overlayCidr).value); }
    if p :| GoodDocument(c, p) {
      ParsePrefixText(p);
      GoodIsAcceptable(c, p);
    }
  }

  lemma AcceptableIsGood(c: Config, p: Prefix)
    requires ParsePrefix(c.overlayCidr) == Some(p) && HeaderOk(c) && PrefixOk(Some(p))
    requires NodesOk(Reader(p), c.nodes, c.localNodeId)
    ensures GoodDocument(c, p)
  {
    HeaderMeans(c);
    PrefixMeans(c.overlayCidr, p);
    GoodNodesMean(c, p);
  }

  lemma GoodIsAcceptable(c: Config, p: Prefix)
    requires ParsePrefix(c.overlayCidr) == Some(p) && GoodHeader(c) && GoodPrefix(c.overlayCidr, p)
    requires GoodNodes(c.nodes, c.localNodeId, Value(p.addr), Pow2(32 - p.bits))
    ensures HeaderOk(c) && PrefixOk(Some(p)) && NodesOk(Reader(p), c.nodes, c.localNodeId)
  {
    HeaderMeans(c);
    PrefixMeans(c.overlayCidr, p);
    GoodNodesMean(c, p);
  }

  lemma GoodNodesMean(c: Config, p: Prefix)
    requires PrefixOk(Some(p))
    ensures NodesOk(Reader(p), c.nodes, c.localNodeId) <==>
      GoodNodes(c.nodes, c.localNodeId, Value(p.addr), Pow2(32 - p.bits))
  {
    NodesMean(p, c.nodes, c.localNodeId);
  }

  lemma NodesMean(p: Prefix, nodes: seq<Node>, localId: string)
    requires InRange(p) && IsMasked(p)
    ensures NodesOk(Reader(p), nodes, localId) <==> GoodNodes(nodes, localId, Value(p.addr), Pow2(32 - p.bits))
  {
    forall n ensures Reader(p)(n).Some? <==> GoodNode(n, Value(p.addr), Pow2(32 - p.bits)) { ReadMeans(p, n); }
    ReadNodeIsFaithful(p);
    NodesReadAs(Reader(p), n => GoodNode(n, Value(p.addr), Pow2(32 - p.bits)), nodes, localId);
  }

  lemma NodesReadAs(read: NodeReader, good: Node -> bool, nodes: seq<Node>, localId: string)
    requires Faithful(read) && forall n :: read(n).Some? <==> good(n)
    ensures NodesOk(read, nodes, localId) <==>
      && (forall n :: n in nodes ==> good(n))
      && (forall i, j :: 0 <= i < j < |nodes| ==> TextsDiffer(nodes[i], nodes[j]))
      && (exists n :: n in nodes && n.id == localId)
  {
    assert AllRead(read, nodes) <==> forall n :: n in nodes ==> good(n);
    if AllRead(read, nodes) {
      forall i, j | 0 <= i < j < |nodes|
        ensures Different(read, nodes[i], nodes[j]) <==> TextsDiffer(nodes[i], nodes[j])
      {
      }
    }
  }
}
