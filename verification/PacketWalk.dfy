/** Finding the TCP ports of a low-TTL packet, and the kernel filter in front of
    it (crates/dlep-net/src/tcp_monitor.rs:126-145, 266-355).
 */
module PacketWalk {
  import opened Types
  import opened Wire

  datatype Ip = V4(v4: u32) | V6(v6: u128)
  datatype Endpoint = Endpoint(ip: Ip, port: u16, scope: u32)
  datatype Connection = Connection(local: Endpoint, peer: Endpoint)

  /** fe80::/10 */
  predicate IsLinkLocal(a: u128) {
    a / 0x40_0000_0000_0000_0000_0000_0000_0000 == 0x3FA
  }

  function EndpointAt(ip: Ip, port: u16, interface: u32): Endpoint {
    Endpoint(ip, port, if ip.V6? && IsLinkLocal(ip.v6) then interface else 0)
  }

  const TCP: u8 := 6

  /** The size of an extension header of this kind, if it can be walked past:
      hop-by-hop, routing and destination options, authentication, first fragments. */
  function HeaderSize(kind: u8, header: Bytes): Option<nat> {
    if kind == 0 || kind == 43 || kind == 60 then
      if |header| < 2 then None else
        var n: nat := header[1];
        Some((n + 1) * 8)
    else if kind == 51 then
      if |header| < 2 then None else
        var n: nat := header[1];
        var size := (n + 2) * 4;
        if size < 12 || size % 8 != 0 then None else Some(size)
    else if kind == 44 then
      if |header| < 4 || GetU16(header[2..4]) >= 8 then None else Some(8)
    else None
  }

  lemma HeaderSizes(kind: u8, header: Bytes)
    ensures HeaderSize(kind, header).Some? ==> HeaderSize(kind, header).value >= 8
  {
  }

  /** Where TCP begins, walking from `offset` inside the declared `length`. */
  function Walk(packet: Bytes, length: nat, next: u8, offset: nat): Option<nat>
    requires length <= |packet|
    decreases length - offset
  {
    if next == TCP then Some(offset)
    else if offset >= length then None
    else
      var size := HeaderSize(next, packet[offset..length]);
      HeaderSizes(next, packet[offset..length]);
      if size.None? then None else Walk(packet, length, packet[offset], offset + size.value)
  }

  function TcpEndpoints(packet: Bytes, source: Ip, dest: Ip, offset: nat, interface: u32): Option<Connection> {
    if |packet| < offset + 20 || packet[offset + 12] / 16 < 5 then None
    else Some(Connection(EndpointAt(dest, GetU16(packet[offset + 2..offset + 4]), interface),
                         EndpointAt(source, GetU16(packet[offset..offset + 2]), interface)))
  }

  function LowTtl4(packet: Bytes, interface: u32): Option<Connection>
    requires |packet| > 0
  {
    if |packet| < 20 || packet[8] == 255 || packet[9] != TCP then None
    else
      var length: nat := GetU16(packet[2..4]);
      var words: nat := packet[0] % 16;
      var offset := words * 4;
      if offset < 20 || length < offset + 20 || length > |packet| || GetU16(packet[6..8]) % 0x2000 != 0 then None
      else TcpEndpoints(packet, V4(GetU32(packet[12..16])), V4(GetU32(packet[16..20])), offset, interface)
  }

  function LowTtl6(packet: Bytes, interface: u32): Option<Connection>
    requires |packet| > 0
  {
    if |packet| < 40 || packet[7] == 255 then None
    else
      var length: nat := 40 + GetU16(packet[4..6]);
      if length > |packet| then None
      else
        var offset := Walk(packet, length, packet[6], 40);
        if offset.None? || offset.value + 20 > length then None
        else TcpEndpoints(packet, V6(GetU128(packet[8..24])), V6(GetU128(packet[24..40])), offset.value, interface)
  }

  function LowTtlConnection(packet: Bytes, interface: u32): Option<Connection> {
    if |packet| == 0 then None
    else if packet[0] / 16 == 4 then LowTtl4(packet, interface)
    else if packet[0] / 16 == 6 then LowTtl6(packet, interface)
    else None
  }

  /** The source's loop: it stops, and finds what `Walk` finds. */
  method WalkHeaders(packet: Bytes, length: nat, first: u8) returns (found: Option<nat>)
    requires 40 <= length <= |packet|
    ensures found == Walk(packet, length, first, 40)
  {
    var next, offset := first, 40;
    while next != TCP
      invariant offset >= 40
      invariant Walk(packet, length, next, offset) == Walk(packet, length, first, 40)
      decreases length - offset
    {
      if offset >= length { return None; }
      var header := packet[offset..length];
      var size := HeaderSize(next, header);
      HeaderSizes(next, header);
      if size.None? { return None; }
      hide HeaderSize;
      next := header[0];
      offset := offset + size.value;
    }
    return Some(offset);
  }

  method Inspect(packet: Bytes, interface: u32) returns (found: Option<Connection>)
    ensures found == LowTtlConnection(packet, interface)
  {
    if |packet| == 0 || (packet[0] / 16 != 4 && packet[0] / 16 != 6) { return None; }
    if packet[0] / 16 == 4 { return LowTtl4(packet, interface); }
    hide Walk, Get;
    if |packet| < 40 || packet[7] == 255 { return None; }
    var length: nat := 40 + GetU16(packet[4..6]);
    if length > |packet| { return None; }
    var offset := WalkHeaders(packet, length, packet[6]);
    if offset.None? || offset.value + 20 > length { return None; }
    found := TcpEndpoints(packet, V6(GetU128(packet[8..24])), V6(GetU128(packet[24..40])), offset.value, interface);
  }

  // --- Chains of extension headers ------------------------------------------

  /** An extension header without its first octet, which names what follows. */
  datatype Extension = Extension(kind: u8, rest: Bytes)

  function FirstKind(chain: seq<Extension>): u8 { if |chain| == 0 then TCP else chain[0].kind }

  /** The octets of a chain that ends in TCP. */
  function Layout(chain: seq<Extension>): Bytes {
    if |chain| == 0 then [] else [FirstKind(chain[1..])] + chain[0].rest + Layout(chain[1..])
  }

  /** Section 4 of RFC 8200 and section 2.2 of RFC 4302: the length octet tells
      the truth, and a fragment is the first of its packet. */
  predicate WellFormed(x: Extension) {
    if x.kind == 0 || x.kind == 43 || x.kind == 60 then
      |x.rest| >= 1 && var n: nat := x.rest[0]; 1 + |x.rest| == (n + 1) * 8
    else if x.kind == 51 then
      |x.rest| >= 11 && (1 + |x.rest|) % 8 == 0 && var n: nat := x.rest[0]; 1 + |x.rest| == (n + 2) * 4
    else
      x.kind == 44 && |x.rest| == 7 && GetU16(x.rest[1..3]) < 8
  }

  ghost predicate AllWellFormed(chain: seq<Extension>) {
    forall i :: 0 <= i < |chain| ==> WellFormed(chain[i])
  }

  lemma SizeOf(x: Extension, next: u8, tail: Bytes)
    requires WellFormed(x)
    ensures HeaderSize(x.kind, [next] + x.rest + tail) == Some(1 + |x.rest|)
  {
    var header := [next] + x.rest + tail;
    assert header[1] == x.rest[0];
    if x.kind == 44 { assert header[2..4] == x.rest[1..3]; }
    hide Get;
  }

  lemma Slice(packet: Bytes, from: nat, to: nat, i: nat, j: nat)
    requires from <= to <= |packet| && i <= j <= to - from
    ensures packet[from..to][i..j] == packet[from + i..from + j]
  {
    var a, b := packet[from..to][i..j], packet[from + i..from + j];
    assert |a| == |b|;
    forall k | 0 <= k < |a| ensures a[k] == b[k] {
      assert a[k] == packet[from..to][i + k];
    }
  }

  lemma WalkStep(packet: Bytes, length: nat, next: u8, offset: nat, size: nat)
    requires offset < length <= |packet| && next != TCP && HeaderSize(next, packet[offset..length]) == Some(size)
    ensures Walk(packet, length, next, offset) == Walk(packet, length, packet[offset], offset + size)
  {
    hide HeaderSize;
  }

  lemma SplitAt(packet: Bytes, offset: nat, a: Bytes, b: Bytes)
    requires offset + |a| + |b| <= |packet| && packet[offset..offset + |a| + |b|] == a + b
    ensures packet[offset..offset + |a|] == a && packet[offset + |a|..offset + |a| + |b|] == b
  {
    Slice(packet, offset, offset + |a| + |b|, 0, |a|);
    Slice(packet, offset, offset + |a| + |b|, |a|, |a| + |b|);
    assert (a + b)[0..|a|] == a && (a + b)[|a|..|a| + |b|] == b;
  }

  lemma HeadSized(packet: Bytes, length: nat, offset: nat, x: Extension, next: u8)
    requires WellFormed(x) && offset + 1 + |x.rest| <= length <= |packet|
    requires packet[offset..offset + 1 + |x.rest|] == [next] + x.rest
    ensures packet[offset] == next && x.kind != TCP
    ensures HeaderSize(x.kind, packet[offset..length]) == Some(1 + |x.rest|)
  {
    var size := 1 + |x.rest|;
    assert packet[offset..offset + size][0] == packet[offset];
    assert packet[offset..length] == packet[offset..offset + size] + packet[offset + size..length];
    SizeOf(x, next, packet[offset + size..length]);
  }

  lemma Join(packet: Bytes, a: nat, b: nat, c: nat)
    requires a < b <= c <= |packet|
    ensures packet[a..c] == [packet[a]] + packet[a + 1..b] + packet[b..c]
  {
  }

  lemma Prefix(packet: Bytes, n: nat, i: nat, j: nat)
    requires i <= j <= n <= |packet|
    ensures packet[..n][i..j] == packet[i..j]
  {
    Slice(packet, 0, n, i, j);
    assert packet[0..n] == packet[..n];
  }

  lemma LayoutFirst(chain: seq<Extension>)
    requires chain != []
    ensures Layout(chain) == [FirstKind(chain[1..])] + chain[0].rest + Layout(chain[1..])
    ensures FirstKind(chain) == chain[0].kind
  {
  }

  /** The walk passes exactly over a well-formed chain. */
  lemma {:induction false} ChainWalked(packet: Bytes, length: nat, offset: nat, chain: seq<Extension>)
    requires AllWellFormed(chain) && offset + |Layout(chain)| <= length <= |packet|
    requires packet[offset..offset + |Layout(chain)|] == Layout(chain)
    ensures Walk(packet, length, FirstKind(chain), offset) == Some(offset + |Layout(chain)|)
    decreases |chain|
  {
    if |chain| > 0 {
      hide HeaderSize, WellFormed, Layout, Walk, FirstKind;
      var x, rest := chain[0], chain[1..];
      var head := [FirstKind(rest)] + x.rest;
      LayoutFirst(chain);
      SplitAt(packet, offset, head, Layout(rest));
      HeadSized(packet, length, offset, x, FirstKind(rest));
      WalkStep(packet, length, x.kind, offset, |head|);
      ChainWalked(packet, length, offset + |head|, rest);
    }
  }

  /** Conversely, whatever the walk passes over, inside the declared length, is a
      well-formed chain. */
  lemma {:induction false} WalkedChain(packet: Bytes, length: nat, next: u8, offset: nat)
    returns (chain: seq<Extension>)
    requires length <= |packet| && Walk(packet, length, next, offset).Some?
    requires Walk(packet, length, next, offset).value <= length
    ensures AllWellFormed(chain) && FirstKind(chain) == next
    ensures offset <= Walk(packet, length, next, offset).value
    ensures Layout(chain) == packet[offset..Walk(packet, length, next, offset).value]
    decreases length - offset
  {
    if next == TCP {
      chain := [];
    } else {
      hide HeaderSize, WellFormed;
      var header := packet[offset..length];
      var size := HeaderSize(next, header).value;
      HeaderSizes(next, header);
      var end := Walk(packet, length, next, offset).value;
      WalkStep(packet, length, next, offset, size);
      hide Walk;
      var rest := WalkedChain(packet, length, packet[offset], offset + size);
      var x := Extension(next, packet[offset + 1..offset + size]);
      Slice(packet, offset, length, 1, size);
      Parsed(next, header, x);
      chain := [x] + rest;
      assert chain[1..] == rest;
      Join(packet, offset, offset + size, end);
    }
  }

  lemma Parsed(kind: u8, header: Bytes, x: Extension)
    requires HeaderSize(kind, header).Some? && HeaderSize(kind, header).value <= |header|
    requires x == Extension(kind, header[1..HeaderSize(kind, header).value])
    ensures WellFormed(x) && kind != TCP
  {
    var size := HeaderSize(kind, header).value;
    assert x.rest[0] == header[1];
    if kind == 44 { assert header[1..size][1..3] == header[2..4]; }
    hide Get;
  }

  /** The reference form of an IPv6 packet before TCP: a fixed header with a hop
      limit below 255, a chain, a TCP segment, and perhaps padding. */
  ghost predicate Carries(packet: Bytes, chain: seq<Extension>, tcp: Bytes) {
    var n := |Layout(chain)|;
    && |packet| >= 40 + n + |tcp| && packet[0] / 16 == 6 && packet[7] != 255
    && GetU16(packet[4..6]) == n + |tcp|
    && packet[6] == FirstKind(chain) && AllWellFormed(chain)
    && packet[40..40 + n] == Layout(chain) && packet[40 + n..40 + n + |tcp|] == tcp
    && |tcp| >= 20 && tcp[12] / 16 >= 5
  }

  /** Every such packet is recognised, with the ports of its TCP header. */
  lemma ChainFound(packet: Bytes, chain: seq<Extension>, tcp: Bytes, interface: u32)
    requires Carries(packet, chain, tcp)
    ensures LowTtlConnection(packet, interface)
         == Some(Connection(EndpointAt(V6(GetU128(packet[24..40])), GetU16(tcp[2..4]), interface),
                            EndpointAt(V6(GetU128(packet[8..24])), GetU16(tcp[0..2]), interface)))
  {
    var n := |Layout(chain)|;
    var length: nat := 40 + GetU16(packet[4..6]);
    hide Walk, Layout, AllWellFormed, Get, IsLinkLocal;
    ChainWalked(packet, length, 40, chain);
    var offset := 40 + n;
    Slice(packet, offset, offset + |tcp|, 2, 4);
    Slice(packet, offset, offset + |tcp|, 0, 2);
    assert packet[offset..offset + |tcp|][12] == packet[offset + 12];
  }

  /** And only such packets are: a match exhibits its chain and its segment. */
  lemma FoundChain(packet: Bytes, interface: u32) returns (chain: seq<Extension>, tcp: Bytes)
    requires |packet| > 0 && packet[0] / 16 == 6 && LowTtlConnection(packet, interface).Some?
    ensures Carries(packet, chain, tcp)
  {
    var length: nat := 40 + GetU16(packet[4..6]);
    var offset := Walk(packet, length, packet[6], 40).value;
    hide Walk, Get, IsLinkLocal;
    chain := WalkedChain(packet, length, packet[6], 40);
    tcp := packet[offset..length];
    hide Layout;
    assert |Layout(chain)| == offset - 40;
  }

  /** Octets past the declared length play no part. */
  lemma {:induction false} WalkIgnores(p: Bytes, q: Bytes, length: nat, next: u8, offset: nat)
    requires length <= |p| && length <= |q| && p[..length] == q[..length]
    ensures Walk(p, length, next, offset) == Walk(q, length, next, offset)
    decreases length - offset
  {
    if next != TCP && offset < length {
      assert p[offset..length] == p[..length][offset..] && q[offset..length] == q[..length][offset..];
      var size := HeaderSize(next, p[offset..length]);
      HeaderSizes(next, p[offset..length]);
      assert p[offset] == p[..length][offset] && q[offset] == q[..length][offset];
      hide HeaderSize;
      if size.Some? { WalkIgnores(p, q, length, p[offset], offset + size.value); }
    }
  }

  lemma TrailerIgnored(packet: Bytes, interface: u32)
    requires |packet| >= 40 && packet[0] / 16 == 6 && 40 + GetU16(packet[4..6]) <= |packet|
    ensures LowTtlConnection(packet, interface) == LowTtlConnection(packet[..40 + GetU16(packet[4..6])], interface)
  {
    var length: nat := 40 + GetU16(packet[4..6]);
    var q := packet[..length];
    hide Walk, Get, IsLinkLocal;
    Prefix(packet, length, 4, 6);
    Prefix(packet, length, 8, 24);
    Prefix(packet, length, 24, 40);
    WalkIgnores(packet, q, length, packet[6], 40);
    var offset := Walk(packet, length, packet[6], 40);
    hide TcpEndpoints;
    if offset.Some? && offset.value + 20 <= length {
      SameTcp(packet, length, V6(GetU128(packet[8..24])), V6(GetU128(packet[24..40])), offset.value, interface);
    }
  }

  lemma SameTcp(packet: Bytes, n: nat, source: Ip, dest: Ip, offset: nat, interface: u32)
    requires offset + 20 <= n <= |packet|
    ensures TcpEndpoints(packet[..n], source, dest, offset, interface)
         == TcpEndpoints(packet, source, dest, offset, interface)
  {
    Prefix(packet, n, offset + 2, offset + 4);
    Prefix(packet, n, offset, offset + 2);
    hide Get, IsLinkLocal;
  }

  // --- IPv4 -----------------------------------------------------------------

  /** The reference form of an IPv4 packet before TCP: a fixed header with a TTL
      below 255 that is whole or a first fragment, its options in 4-octet words,
      a TCP segment, and perhaps padding (section 3.1 of RFC 791). */
  ghost predicate Carries4(packet: Bytes, options: Bytes, tcp: Bytes) {
    var n := 20 + |options|;
    && |packet| >= n + |tcp| && |options| <= 40 && |options| % 4 == 0
    && packet[0] as nat == 0x40 + n / 4
    && packet[2] as nat * 256 + packet[3] as nat == n + |tcp|
    && packet[6] % 32 == 0 && packet[7] == 0
    && packet[8] != 255 && packet[9] == TCP
    && packet[20..n] == options && packet[n..n + |tcp|] == tcp
    && |tcp| >= 20 && tcp[12] / 16 >= 5
  }

  function Address4(a: u8, b: u8, c: u8, d: u8): u32 { ((a as nat * 256 + b) * 256 + c) * 256 + d }

  lemma FourOctets(s: Bytes)
    requires |s| == 4
    ensures GetU32(s) == Address4(s[0], s[1], s[2], s[3])
  {
    assert s[..3][..2] == s[..2] && s[..2][..1] == s[..1] && s[..1][..0] == [];
    assert Get(s[..1]) == s[0];
    assert Get(s[..2]) == s[0] as nat * 256 + s[1];
    assert Get(s[..3]) == (s[0] as nat * 256 + s[1]) * 256 + s[2];
  }

  lemma HeaderFields(packet: Bytes)
    requires |packet| >= 20
    ensures GetU16(packet[2..4]) as nat == packet[2] as nat * 256 + packet[3] as nat
    ensures GetU16(packet[6..8]) as nat == packet[6] as nat * 256 + packet[7] as nat
    ensures GetU32(packet[12..16]) == Address4(packet[12], packet[13], packet[14], packet[15])
    ensures GetU32(packet[16..20]) == Address4(packet[16], packet[17], packet[18], packet[19])
  {
    hide Get, Address4;
    TwoOctets(packet[2..4]);
    TwoOctets(packet[6..8]);
    FourOctets(packet[12..16]);
    FourOctets(packet[16..20]);
  }

  lemma WholeOrFirst(a: u8, b: u8)
    ensures (a as nat * 256 + b as nat) % 0x2000 == 0 <==> a % 32 == 0 && b == 0
  {
    var x: nat, y: nat := a as nat / 32, a as nat % 32;
    assert a as nat * 256 + b as nat == 0x2000 * x + (y * 256 + b as nat);
  }

  /** Every such packet is recognised, with the addresses at octets 12 and 16 and
      the ports of the TCP header behind the options. */
  lemma OptionsPassed(packet: Bytes, options: Bytes, tcp: Bytes, interface: u32)
    requires Carries4(packet, options, tcp)
    ensures LowTtlConnection(packet, interface)
         == Some(Connection(
                   Endpoint(V4(Address4(packet[16], packet[17], packet[18], packet[19])), GetU16(tcp[2..4]), 0),
                   Endpoint(V4(Address4(packet[12], packet[13], packet[14], packet[15])), GetU16(tcp[0..2]), 0)))
  {
    var n := 20 + |options|;
    HeaderFields(packet);
    WholeOrFirst(packet[6], packet[7]);
    hide Get, IsLinkLocal, Address4;
    assert packet[0] / 16 == 4 && packet[0] as nat % 16 * 4 == n;
    Slice(packet, n, n + |tcp|, 2, 4);
    Slice(packet, n, n + |tcp|, 0, 2);
    assert packet[n..n + |tcp|][12] == packet[n + 12];
  }

  /** And only such packets are: a match exhibits its options and its segment. */
  lemma PassedOptions(packet: Bytes, interface: u32) returns (options: Bytes, tcp: Bytes)
    requires |packet| > 0 && packet[0] / 16 == 4 && LowTtlConnection(packet, interface).Some?
    ensures Carries4(packet, options, tcp)
  {
    HeaderFields(packet);
    WholeOrFirst(packet[6], packet[7]);
    hide Get, IsLinkLocal, Address4;
    var n: nat := packet[0] as nat % 16 * 4;
    var length: nat := GetU16(packet[2..4]);
    options, tcp := packet[20..n], packet[n..length];
    assert packet[0] as nat == 0x40 + n / 4;
    assert tcp[12] == packet[n + 12];
  }

  /** Octets past the declared length play no part. */
  lemma TrailerIgnored4(packet: Bytes, interface: u32)
    requires |packet| >= 20 && packet[0] / 16 == 4 && 20 <= GetU16(packet[2..4]) as nat <= |packet|
    ensures LowTtlConnection(packet, interface) == LowTtlConnection(packet[..GetU16(packet[2..4])], interface)
  {
    var length: nat := GetU16(packet[2..4]);
    var n: nat := packet[0] as nat % 16 * 4;
    hide Get, IsLinkLocal;
    Prefix(packet, length, 2, 4);
    Prefix(packet, length, 6, 8);
    Prefix(packet, length, 12, 16);
    Prefix(packet, length, 16, 20);
    hide TcpEndpoints;
    if n + 20 <= length {
      SameTcp(packet, length, V4(GetU32(packet[12..16])), V4(GetU32(packet[16..20])), n, interface);
    }
  }

  // --- The kernel filter ----------------------------------------------------

  datatype Instruction = LoadByte(k: u32) | And(k: u32) | JumpIfEqual(k: u32, jt: u8, jf: u8) | Return(k: u32)

  const FILTER: seq<Instruction> := [
    LoadByte(0), And(0xf0), JumpIfEqual(0x40, 0, 3),
    LoadByte(8), JumpIfEqual(255, 5, 0), Return(65_536),
    JumpIfEqual(0x60, 0, 3),
    LoadByte(7), JumpIfEqual(255, 1, 0), Return(65_536),
    Return(0)]

  /** Bitwise and. */
  function BitAnd(a: nat, b: nat): (r: nat)
    ensures r <= a
  {
    if a == 0 || b == 0 then 0 else 2 * BitAnd(a / 2, b / 2) + (if a % 2 == 1 && b % 2 == 1 then 1 else 0)
  }

  /** A load outside the packet rejects it; jumps are forward, so it halts. */
  function Interpret(program: seq<Instruction>, packet: Bytes, pc: nat, acc: u32): u32
    decreases |program| - pc
  {
    if pc >= |program| then 0 else
      match program[pc]
      case LoadByte(k) => if k >= |packet| then 0 else Interpret(program, packet, pc + 1, packet[k])
      case And(k) => Interpret(program, packet, pc + 1, BitAnd(acc, k))
      case JumpIfEqual(k, jt, jf) => Interpret(program, packet, pc + 1 + (if acc == k then jt else jf) as nat, acc)
      case Return(k) => k
  }

  predicate Passes(packet: Bytes) { Interpret(FILTER, packet, 0, 0) > 0 }

  lemma BitStep(a: nat, b: nat)
    ensures BitAnd(a, b) == 2 * BitAnd(a / 2, b / 2) + if a % 2 == 1 && b % 2 == 1 then 1 else 0
  {
  }

  function Ones(k: nat): nat { if k == 0 then 0 else 2 * Ones(k - 1) + 1 }

  lemma {:induction false} MaskAll(b: nat, k: nat)
    requires b <= Ones(k)
    ensures BitAnd(b, Ones(k)) == b
  {
    if k > 0 {
      MaskAll(b / 2, k - 1);
      BitStep(b, Ones(k));
    }
  }

  function Half(a: nat, k: nat): nat { if k == 0 then a else Half(a / 2, k - 1) }
  function Twice(a: nat, k: nat): nat { if k == 0 then a else 2 * Twice(a, k - 1) }

  /** Masking with a shifted mask shifts the masked rest. */
  lemma {:induction false} ShiftedMask(a: nat, mask: nat, k: nat)
    ensures BitAnd(a, Twice(mask, k)) == Twice(BitAnd(Half(a, k), mask), k)
  {
    if k > 0 {
      ShiftedMask(a / 2, mask, k - 1);
      BitStep(a, Twice(mask, k));
      assert Twice(mask, k) / 2 == Twice(mask, k - 1);
    }
  }

  lemma HighNibble(a: u8)
    ensures BitAnd(a, 0xf0) == a / 16 * 16
  {
    hide BitAnd;
    ShiftedMask(a, 0x0f, 4);
    FourHalves(a);
    Sixteenth(a);
    assert Twice(0x0f, 4) == 0xf0 by { assert Twice(0x0f, 2) == 60; }
    assert Ones(4) == 0x0f by { assert Ones(2) == 3; }
    MaskAll(a / 16, 4);
    FourDoubles(a / 16);
  }

  lemma FourHalves(a: nat)
    ensures Half(a, 4) == a / 2 / 2 / 2 / 2
  {
    assert Half(a, 4) == Half(a / 2, 3);
    assert Half(a / 2, 3) == Half(a / 2 / 2, 2);
    assert Half(a / 2 / 2, 2) == Half(a / 2 / 2 / 2, 1);
  }

  lemma FourDoubles(b: nat)
    ensures Twice(b, 4) == 16 * b
  {
    assert Twice(b, 1) == 2 * b;
    assert Twice(b, 2) == 4 * b;
    assert Twice(b, 3) == 8 * b;
  }

  lemma Sixteenth(a: nat)
    ensures a / 2 / 2 / 2 / 2 == a / 16
  {
    assert a / 2 / 2 == a / 4;
    assert a / 4 / 2 == a / 8;
    assert a / 8 / 2 == a / 16;
  }

  /** The filter passes just the IPv4 and IPv6 packets with a TTL below 255. */
  lemma FilterMeans(packet: Bytes)
    ensures Passes(packet) <==>
              || (|packet| > 8 && packet[0] / 16 == 4 && packet[8] != 255)
              || (|packet| > 7 && packet[0] / 16 == 6 && packet[7] != 255)
  {
    if |packet| > 0 {
      HighNibble(packet[0]);
      var high := BitAnd(packet[0], 0xf0);
      hide BitAnd;
      assert Interpret(FILTER, packet, 0, 0) == Interpret(FILTER, packet, 2, high);
      assert Interpret(FILTER, packet, 2, high) == Interpret(FILTER, packet, if high == 0x40 then 3 else 6, high);
      assert Interpret(FILTER, packet, 10, high) == 0;
      if high == 0x40 {
        FilterEnd(packet, 3, high);
      } else {
        assert Interpret(FILTER, packet, 6, high) == Interpret(FILTER, packet, if high == 0x60 then 7 else 10, high);
        FilterEnd(packet, 7, high);
      }
    }
  }

  lemma FilterEnd(packet: Bytes, pc: nat, acc: u32)
    requires pc == 3 || pc == 7
    ensures var k := if pc == 3 then 8 else 7;
            Interpret(FILTER, packet, pc, acc) == if |packet| > k && packet[k] != 255 then 65_536 else 0
  {
    var k := if pc == 3 then 8 else 7;
    if |packet| > k {
      var x := packet[k];
      assert Interpret(FILTER, packet, pc, acc) == Interpret(FILTER, packet, pc + 1, x);
      assert Interpret(FILTER, packet, 10, x) == 0;
      assert Interpret(FILTER, packet, 5, x) == 65_536 && Interpret(FILTER, packet, 9, x) == 65_536;
    }
  }

  /** The kernel never withholds a packet the walker would match. */
  lemma MatchesPassFilter(packet: Bytes, interface: u32)
    requires LowTtlConnection(packet, interface).Some?
    ensures Passes(packet)
  {
    FilterMeans(packet);
  }
}
