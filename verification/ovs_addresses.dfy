/** The address arithmetic of the XenServer Open vSwitch script: the
    ServiceNet gateways of a VIF (`get_snet_gws`) and its IPv6 link-local
    address (`get_ipv6_link_local`). Addresses are numbers: 32 bits for
    IPv4, 128 for IPv6. */
module OvsAddresses {
  import opened Wrappers
  import opened Strings
  import opened Bits

  lemma Pow2Bytes()
    ensures Pow2(8) == 256 && Pow2(16) == 0x1_0000 && Pow2(24) == 0x100_0000 && Pow2(32) == 0x1_0000_0000
  {
    assert Pow2(4) == 16;
    Pow2Add(4, 4);
    Pow2Add(8, 8);
    Pow2Add(16, 8);
    Pow2Add(16, 16);
  }

  lemma Pow2Of56()
    ensures Pow2(56) == FirstOctetWeight
  {
    Pow2Bytes();
    ScaledPow2(32, 24, 0x1_0000_0000);
  }

  lemma Pow2Of64()
    ensures Pow2(64) == 0x1_0000_0000_0000_0000
  {
    Pow2Word();
    ScaledPow2(32, 32, 0x1_0000_0000);
  }

  lemma Pow2Of128()
    ensures Pow2(128) == 0x1_0000_0000_0000_0000_0000_0000_0000_0000
  {
    Pow2Of64();
    ScaledPow2(64, 64, 0x1_0000_0000_0000_0000);
  }

  // ServiceNet gateways

  /** The VIF's address and netmask, as dotted quads. */
  datatype IpEntry = IpEntry(ip: string, netmask: string)

  datatype Route = Route(gateway: string)

  /** `struct.unpack('>I', socket.inet_aton(addr))[0]`. Reading a dotted
      quad is left to the caller: the model takes the conversion as given. */
  type Aton = string -> nat

  function NetworkOf(ip: IpEntry, aton: Aton): nat {
    And(aton(ip.ip), aton(ip.netmask))
  }

  predicate OnNetwork(gateway: string, ip: IpEntry, aton: Aton) {
    And(aton(gateway), aton(ip.netmask)) == NetworkOf(ip, aton)
  }

  /** The loop over the routes: the gateways on the VIF's own network. */
  function GatewaysOn(ip: IpEntry, routes: seq<Route>, aton: Aton): (r: set<string>)
    ensures forall g :: g in r <==> exists i :: 0 <= i < |routes| && routes[i].gateway == g && OnNetwork(g, ip, aton)
  {
    if |routes| == 0 then {}
    else
      var rest := GatewaysOn(ip, routes[1..], aton);
      assert forall i :: 0 < i < |routes| ==> routes[i] == routes[1..][i - 1];
      (if OnNetwork(routes[0].gateway, ip, aton) then {routes[0].gateway} else {}) + rest
  }

  /** `'%d.%d.%d.%d'` of a number: note that the first field is not masked. */
  function DottedQuad(n: nat): string {
    NatToString(Shr(n, 24)) + "." + NatToString(And(Shr(n, 16), 255)) + "."
    + NatToString(And(Shr(n, 8), 255)) + "." + NatToString(And(n, 255))
  }

  /** `get_snet_gws`: the routes' gateways on the VIF's network, or failing
      any, the network's first address. Never empty. */
  function SnetGws(ip: IpEntry, routes: Option<seq<Route>>, aton: Aton): (r: set<string>)
    ensures r != {}
    ensures routes.Some? && GatewaysOn(ip, routes.value, aton) != {} ==> r == GatewaysOn(ip, routes.value, aton)
    ensures (routes.None? || GatewaysOn(ip, routes.value, aton) == {}) ==> r == {DottedQuad(NetworkOf(ip, aton) + 1)}
  {
    var found := if routes.Some? then GatewaysOn(ip, routes.value, aton) else {};
    if found != {} then found else {DottedQuad(NetworkOf(ip, aton) + 1)}
  }

  /** Reading a dotted quad back: four dot-separated decimal fields, each
      below 256. */
  function ParseDottedQuad(s: string): Option<nat> {
    ParseOctets(Split(s, '.'))
  }

  function ParseOctets(parts: seq<string>): Option<nat> {
    if |parts| == 4 && forall i :: 0 <= i < 4 ==> IsDecimalOctet(parts[i]) then
      Some(((DecimalValue(parts[0]) * 256 + DecimalValue(parts[1])) * 256 + DecimalValue(parts[2])) * 256
           + DecimalValue(parts[3]))
    else None
  }

  predicate IsDecimalOctet(s: string) {
    |s| > 0 && (forall i :: 0 <= i < |s| ==> IsDigit(s[i])) && DecimalValue(s) < 256
  }

  /** The fallback address is printed so that it reads back as the same
      32-bit number. */
  lemma DottedQuadRoundTrip(n: nat)
    requires n <= MaxWord
    ensures ParseDottedQuad(DottedQuad(n)) == Some(n)
  {
    var a, b, c, d := Shr(n, 24), And(Shr(n, 16), 255), And(Shr(n, 8), 255), And(n, 255);
    OctetsOf(n);
    SplitDottedQuad(n);
    ReadBack(DottedQuad(n), n, a, b, c, d);
  }

  /** When no route's gateway is on the VIF's network, the one address
      returned reads back as the network's address plus one, as long as
      that still fits in 32 bits. */
  lemma FallbackIsNextAddress(ip: IpEntry, routes: Option<seq<Route>>, aton: Aton)
    requires routes.None? || GatewaysOn(ip, routes.value, aton) == {}
    requires NetworkOf(ip, aton) < MaxWord
    ensures forall s :: s in SnetGws(ip, routes, aton) ==> ParseDottedQuad(s) == Some(NetworkOf(ip, aton) + 1)
  {
    DottedQuadRoundTrip(NetworkOf(ip, aton) + 1);
  }

  lemma ReadBack(s: string, n: nat, a: nat, b: nat, c: nat, d: nat)
    requires a < 256 && b < 256 && c < 256 && d < 256
    requires ((a * 256 + b) * 256 + c) * 256 + d == n
    requires Split(s, '.') == [NatToString(a), NatToString(b), NatToString(c), NatToString(d)]
    ensures ParseDottedQuad(s) == Some(n)
  {
    ParseFields(a, b, c, d, n);
  }

  /** The dots `DottedQuad` prints are the only ones in it. */
  lemma SplitDottedQuad(n: nat)
    ensures Split(DottedQuad(n), '.') == [NatToString(Shr(n, 24)), NatToString(And(Shr(n, 16), 255)),
                                          NatToString(And(Shr(n, 8), 255)), NatToString(And(n, 255))]
  {
    var parts := [NatToString(Shr(n, 24)), NatToString(And(Shr(n, 16), 255)),
                  NatToString(And(Shr(n, 8), 255)), NatToString(And(n, 255))];
    DottedQuadIsJoin(n);
    NoDotInNumerals(parts);
    SplitJoin(parts, '.');
  }

  /** Four numerals below 256 read back as their values. */
  lemma ParseFields(a: nat, b: nat, c: nat, d: nat, n: nat)
    requires a < 256 && b < 256 && c < 256 && d < 256
    requires ((a * 256 + b) * 256 + c) * 256 + d == n
    ensures ParseOctets([NatToString(a), NatToString(b), NatToString(c), NatToString(d)]) == Some(n)
  {
    OctetNumeral(a);
    OctetNumeral(b);
    OctetNumeral(c);
    OctetNumeral(d);
    ParseOctetValues([NatToString(a), NatToString(b), NatToString(c), NatToString(d)], a, b, c, d, n);
  }

  lemma OctetNumeral(a: nat)
    requires a < 256
    ensures IsDecimalOctet(NatToString(a)) && DecimalValue(NatToString(a)) == a
  {
    NatToStringRoundTrip(a);
  }

  lemma ParseOctetValues(parts: seq<string>, a: nat, b: nat, c: nat, d: nat, n: nat)
    requires |parts| == 4
    requires IsDecimalOctet(parts[0]) && DecimalValue(parts[0]) == a
    requires IsDecimalOctet(parts[1]) && DecimalValue(parts[1]) == b
    requires IsDecimalOctet(parts[2]) && DecimalValue(parts[2]) == c
    requires IsDecimalOctet(parts[3]) && DecimalValue(parts[3]) == d
    requires ((a * 256 + b) * 256 + c) * 256 + d == n
    ensures ParseOctets(parts) == Some(n)
  {
  }

  lemma NoDotInNumerals(parts: seq<string>)
    requires forall i :: 0 <= i < |parts| ==> forall j :: 0 <= j < |parts[i]| ==> IsDigit(parts[i][j])
    ensures forall i :: 0 <= i < |parts| ==> '.' !in parts[i]
  {
  }

  lemma DottedQuadIsJoin(n: nat)
    ensures DottedQuad(n) == Join([NatToString(Shr(n, 24)), NatToString(And(Shr(n, 16), 255)),
                                   NatToString(And(Shr(n, 8), 255)), NatToString(And(n, 255))], '.')
  {
    JoinFour(NatToString(Shr(n, 24)), NatToString(And(Shr(n, 16), 255)),
             NatToString(And(Shr(n, 8), 255)), NatToString(And(n, 255)));
  }

  lemma JoinFour(p0: string, p1: string, p2: string, p3: string)
    ensures Join([p0, p1, p2, p3], '.') == p0 + "." + p1 + "." + p2 + "." + p3
  {
    var parts := [p0, p1, p2, p3];
    JoinCons(p0, parts[1..], '.');
    JoinCons(p1, parts[2..], '.');
    JoinCons(p2, parts[3..], '.');
    assert parts[1..][1..] == parts[2..] && parts[2..][1..] == parts[3..];
  }

  /** The four fields `DottedQuad` prints, and how they make up `n`. */
  lemma OctetsOf(n: nat)
    requires n <= MaxWord
    ensures Shr(n, 24) < 256 && And(Shr(n, 16), 255) < 256 && And(Shr(n, 8), 255) < 256 && And(n, 255) < 256
    ensures ((Shr(n, 24) * 256 + And(Shr(n, 16), 255)) * 256 + And(Shr(n, 8), 255)) * 256 + And(n, 255) == n
  {
    ByteStep(n, 0);
    ByteStep(n, 8);
    ByteStep(n, 16);
    ByteStep(n, 24);
    WordTop(n);
  }

  /** One octet off the bottom of `x` shifted right by `k`. */
  lemma ByteStep(x: nat, k: nat)
    ensures And(Shr(x, k), 255) < 256
    ensures Shr(x, k) == Shr(x, k + 8) * 256 + And(Shr(x, k), 255)
  {
    var y := Shr(x, k);
    ShrIsDiv(x, k);
    ShrIsDiv(x, k + 8);
    Pow2Add(k, 8);
    assert Pow2(8) == 256;
    AndLowMask(y, 8);
    DivDiv(x, Pow2(k), 256);
    DivMod(y, 256);
  }

  /** Nothing of a 32-bit number is left after shifting out 32 bits. */
  lemma WordTop(n: nat)
    requires n <= MaxWord
    ensures Shr(n, 32) == 0
  {
    ShrIsDiv(n, 32);
    Pow2Bytes();
  }

  // The IPv6 link-local address

  /** Python's `s[lo:hi]` for `0 <= lo <= hi`: both ends clamp to the length. */
  function Slice<T>(s: seq<T>, lo: nat, hi: nat): (r: seq<T>)
    requires lo <= hi
    ensures hi <= |s| ==> r == s[lo..hi]
    ensures |r| <= hi - lo
  {
    var a := if lo < |s| then lo else |s|;
    var b := if hi < |s| then hi else |s|;
    s[a..b]
  }

  /** `''.join(parts)` */
  function Concat(parts: seq<string>): string {
    if |parts| == 0 then "" else Concat(parts[..|parts| - 1]) + parts[|parts| - 1]
  }

  const LinkLocalBase: nat := 0xfe800000000000000000000000000000
  const UniversalLocalBit: nat := 0x00000000000000000200000000000000
  const MaxWord: nat := 0xffff_ffff

  /** The loop that cuts the address into four 32-bit words, lowest first. */
  function Words(x: nat, n: nat): (ws: seq<nat>)
    ensures |ws| == n
    decreases n
  {
    if n == 0 then [] else [And(x, MaxWord)] + Words(Shr(x, 32), n - 1)
  }

  /** `struct.pack('>4I', *reversed(words))` read as one big-endian number. */
  function Packed(ws: seq<nat>): nat {
    if |ws| == 0 then 0 else ws[0] + 0x1_0000_0000 * Packed(ws[1..])
  }

  /** Cutting into `n` words and packing them again keeps the low `32n` bits. */
  lemma {:induction false} WordsPacked(x: nat, n: nat)
    ensures Packed(Words(x, n)) == x % Pow2(32 * n)
    decreases n
  {
    if n == 0 {
      assert Pow2(0) == 1;
    } else {
      var ws := Words(x, n);
      assert ws[1..] == Words(Shr(x, 32), n - 1);
      WordsPacked(Shr(x, 32), n - 1);
      WordStep(x, n);
      ModSplit(x, 0x1_0000_0000, Pow2(32 * (n - 1)));
    }
  }

  /** The low word of `x`, what is above it, and the weight of `n` words. */
  lemma WordStep(x: nat, n: nat)
    requires n > 0
    ensures And(x, MaxWord) == x % 0x1_0000_0000 && Shr(x, 32) == x / 0x1_0000_0000
    ensures Pow2(32 * n) == 0x1_0000_0000 * Pow2(32 * (n - 1))
  {
    LowPart(x, 32, 0x1_0000_0000);
    WordsWeight(n);
  }

  lemma Pow2Word()
    ensures Pow2(32) == 0x1_0000_0000
  {
    Pow2Bytes();
  }

  lemma WordsWeight(n: nat)
    requires n > 0
    ensures Pow2(32 * n) == 0x1_0000_0000 * Pow2(32 * (n - 1))
  {
    var m := 32 * (n - 1);
    assert 32 + m == 32 * n;
    Pow2Word();
    ScaledPow2(32, m, 0x1_0000_0000);
  }

  lemma ScaledPow2(k: nat, m: nat, p: nat)
    requires p == Pow2(k)
    ensures Pow2(k + m) == p * Pow2(m)
  {
    Pow2Add(k, m);
  }

  /** The low `k` bits of `x` and the bits above them, for `p` the `k`th
      power of 2. */
  lemma LowPart(x: nat, k: nat, p: nat)
    requires k == 32 && p == 0x1_0000_0000
    ensures And(x, p - 1) == x % p && Shr(x, k) == x / p
  {
    Pow2Word();
    AndLowMask(x, k);
    ShrIsDiv(x, k);
  }

  /** `get_ipv6_link_local`: lower-case the MAC, take its first three and
      next three colon-separated words around `ff`, `fe`, read the whole as
      hex (None for the ValueError an empty or non-hex result raises), add
      the fe80:: prefix, flip the universal/local bit and keep 128 bits. */
  function LinkLocal(mac: string): (r: Option<nat>)
    ensures r.Some? ==> r.value < Pow2(128)
  {
    match ParseHex(Concat(Tokens(mac)))
    case None => None
    case Some(v) =>
      var x := FlipBit(LinkLocalBase + v, 57);
      WordsPacked(x, 4);
      Some(Packed(Words(x, 4)))
  }

  /** The MAC's words with `ff`, `fe` put after the third. */
  function Tokens(mac: string): seq<string> {
    var words := Split(Lower(mac), ':');
    Slice(words, 0, 3) + ["ff", "fe"] + Slice(words, 3, 6)
  }

  /** A MAC written as six colon-separated pairs of hex digits. */
  predicate WellFormedMac(mac: string) {
    var w := Split(Lower(mac), ':');
    |w| == 6 && forall i :: 0 <= i < 6 ==> IsHexPair(w[i])
  }

  predicate IsHexPair(s: string) {
    |s| == 2 && IsHexDigit(s[0]) && IsHexDigit(s[1])
  }

  /** The six octets of a well-formed MAC. */
  function MacOctets(mac: string): (os: seq<nat>)
    requires WellFormedMac(mac)
    ensures |os| == 6 && forall i :: 0 <= i < 6 ==> os[i] < 256
  {
    var w := Split(Lower(mac), ':');
    seq(6, i requires 0 <= i < 6 => HexPairValue(w[i]))
  }

  function HexPairValue(s: string): (v: nat)
    requires IsHexPair(s)
    ensures v < 256
  {
    assert s[..1] == [s[0]] && s[..1][..0] == [];
    assert HexValue(s[..1]) == HexDigitValue(s[0]);
    assert HexValue(s) == HexDigitValue(s[0]) * 16 + HexDigitValue(s[1]);
    HexValue(s)
  }

  /** Octets read as one big-endian number. */
  function OctetsValue(os: seq<nat>): nat {
    if |os| == 0 then 0 else OctetsValue(os[..|os| - 1]) * 256 + os[|os| - 1]
  }

  /** The modified EUI-64 interface identifier of section 2.5.1 and
      Appendix A of RFC 4291: `FF FE` inserted between the third and
      fourth octets, and the universal/local bit (0x02 of the first octet)
      inverted. */
  function InterfaceId(os: seq<nat>): nat
    requires |os| == 6
  {
    OctetsValue([FlipBit(os[0], 1), os[1], os[2], 0xff, 0xfe, os[3], os[4], os[5]])
  }

  /** The link-local prefix fe80::/64, as the top 64 bits. */
  const LinkLocalPrefix: nat := 0xfe80_0000_0000_0000

  /** The octets of the EUI-64 before the universal/local bit is inverted. */
  function Eui48To64(os: seq<nat>): seq<nat>
    requires |os| == 6
  {
    [os[0], os[1], os[2], 0xff, 0xfe, os[3], os[4], os[5]]
  }

  /** For a well-formed MAC the result is the fe80::/64 prefix followed by
      the modified EUI-64 interface identifier. */
  lemma ModifiedEui64(mac: string)
    requires WellFormedMac(mac)
    ensures LinkLocal(mac) == Some(LinkLocalBase + InterfaceId(MacOctets(mac)))
    ensures InterfaceId(MacOctets(mac)) < LinkLocalBase / LinkLocalPrefix
  {
    var os := MacOctets(mac);
    var v := OctetsValue(Eui48To64(os));
    var id := InterfaceId(os);
    MacTokensValue(mac);
    var rest := EuiSplit(os);
    AddressOf(v, os[0], rest, id);
    LinkLocalOf(mac, v, id);
  }

  /** The weight of the first of eight octets: 2 to the 56th. */
  const FirstOctetWeight: nat := 0x100_0000_0000_0000

  /** The 128-bit address assembled from the interface octets. */
  lemma AddressOf(v: nat, first: nat, rest: nat, id: nat)
    requires first < 256 && rest < FirstOctetWeight
    requires v == first * FirstOctetWeight + rest && id == FlipBit(first, 1) * FirstOctetWeight + rest
    ensures Packed(Words(FlipBit(LinkLocalBase + v, 57), 4)) == LinkLocalBase + id
    ensures id < LinkLocalBase / LinkLocalPrefix
  {
    FlipUniversalLocal(v, first, rest, id);
    PrefixLayout();
    PackedKeeps128(FlipBit(LinkLocalBase + v, 57), id);
  }

  /** What `LinkLocal` does once the hex text has been read. */
  lemma LinkLocalOf(mac: string, v: nat, id: nat)
    requires ParseHex(Concat(Tokens(mac))) == Some(v)
    requires Packed(Words(FlipBit(LinkLocalBase + v, 57), 4)) == LinkLocalBase + id
    ensures LinkLocal(mac) == Some(LinkLocalBase + id)
  {
  }

  /** The hex text the script builds from a well-formed MAC reads as the
      eight EUI-64 octets. */
  lemma MacTokensValue(mac: string)
    requires WellFormedMac(mac)
    ensures ParseHex(Concat(Tokens(mac))) == Some(OctetsValue(Eui48To64(MacOctets(mac))))
  {
    var w := Split(Lower(mac), ':');
    var os := MacOctets(mac);
    var tokens := Tokens(mac);
    assert tokens == [w[0], w[1], w[2], "ff", "fe", w[3], w[4], w[5]];
    var eui := Eui48To64(os);
    var v := EuiValue(tokens, eui);
  }

  /** The first octet and the remaining seven, before and after the
      universal/local bit is inverted. */
  lemma EuiSplit(os: seq<nat>) returns (rest: nat)
    requires |os| == 6 && forall i :: 0 <= i < 6 ==> os[i] < 256
    ensures rest < FirstOctetWeight && os[0] < 256
    ensures OctetsValue(Eui48To64(os)) == os[0] * FirstOctetWeight + rest
    ensures InterfaceId(os) == FlipBit(os[0], 1) * FirstOctetWeight + rest
  {
    var eui := Eui48To64(os);
    var flipped := [FlipBit(os[0], 1), os[1], os[2], 0xff, 0xfe, os[3], os[4], os[5]];
    assert Pow2(8) == 256;
    FlipBitLow(0, os[0], 8, 1);
    assert flipped[1..] == eui[1..];
    OctetsFront(eui);
    OctetsFront(flipped);
    WeightOfFirst(|eui|);
    rest := OctetsValue(eui[1..]);
  }

  /** The weight of the first octet of eight. */
  lemma WeightOfFirst(n: nat)
    requires n == 8
    ensures Pow2(8 * (n - 1)) == FirstOctetWeight
  {
    Pow2Of56();
  }

  /** Adding the prefix and inverting bit 57 of the whole address inverts
      bit 1 of the first interface octet and leaves the prefix alone. */
  lemma FlipUniversalLocal(v: nat, first: nat, rest: nat, id: nat)
    requires first < 256 && rest < FirstOctetWeight
    requires v == first * FirstOctetWeight + rest && id == FlipBit(first, 1) * FirstOctetWeight + rest
    ensures FlipBit(LinkLocalBase + v, 57) == LinkLocalBase + id
    ensures id < LinkLocalBase / LinkLocalPrefix
  {
    Pow2Of56();
    FlipInterfaceBit(v, first, rest, id, 56);
    PrefixLayout();
    FlipBitLow(LinkLocalPrefix, v, 64, 57);
  }

  /** The prefix occupies the bits above the low 64. */
  lemma PrefixLayout()
    ensures LinkLocalBase == LinkLocalPrefix * Pow2(64) && LinkLocalBase / LinkLocalPrefix == Pow2(64)
  {
    Pow2Of64();
  }

  /** Inverting bit `n + 1` of an octet followed by `n` low bits is
      inverting bit 1 of that octet. */
  lemma FlipInterfaceBit(v: nat, first: nat, rest: nat, id: nat, n: nat)
    requires first < 256 && rest < Pow2(n)
    requires v == first * Pow2(n) + rest && id == FlipBit(first, 1) * Pow2(n) + rest
    ensures FlipBit(v, n + 1) == id && v < Pow2(n + 8) && id < Pow2(n + 8)
  {
    OctetBelow(first, rest, n);
    FlipBitHigh(first, rest, n, 1);
    assert Pow2(8) == 256 by {
      Pow2Bytes();
    }
    FlipBitLow(0, first, 8, 1);
    OctetBelow(FlipBit(first, 1), rest, n);
  }

  lemma OctetBelow(first: nat, rest: nat, n: nat)
    requires first < 256 && rest < Pow2(n)
    ensures first * Pow2(n) + rest < Pow2(n + 8)
  {
    Pow2Add(n, 8);
    Pow2Bytes();
    MulMono(first, 255, Pow2(n));
  }

  /** Cutting a 128-bit number into four words and packing them again gives
      the number back. */
  lemma PackedKeeps128(y: nat, id: nat)
    requires id < Pow2(64) && y == LinkLocalBase + id
    ensures Packed(Words(y, 4)) == y
  {
    Pow2Of64();
    Pow2Of128();
    WordsPacked(y, 4);
    DivUnique(y, Pow2(128), 0, y);
  }

  /** The hex digits of the tokens read as one number, for a well-formed
      MAC. */
  lemma EuiValue(tokens: seq<string>, eui: seq<nat>) returns (v: nat)
    requires |tokens| == |eui|
    requires forall i :: 0 <= i < |tokens| ==> IsHexPair(tokens[i]) && eui[i] == HexPairValue(tokens[i])
    ensures ParseHex(Concat(tokens)) == (if |tokens| == 0 then None else Some(v))
    ensures v == OctetsValue(eui)
  {
    HexConcat(tokens, eui);
    v := OctetsValue(eui);
  }

  /** Reading pairs of hex digits one after another is reading octets. */
  lemma {:induction false} HexConcat(tokens: seq<string>, eui: seq<nat>)
    requires |tokens| == |eui|
    requires forall i :: 0 <= i < |tokens| ==> IsHexPair(tokens[i]) && eui[i] == HexPairValue(tokens[i])
    ensures |Concat(tokens)| == 2 * |tokens|
    ensures forall i :: 0 <= i < |Concat(tokens)| ==> IsHexDigit(Concat(tokens)[i])
    ensures HexValue(Concat(tokens)) == OctetsValue(eui)
  {
    if |tokens| > 0 {
      var n := |tokens|;
      HexConcat(tokens[..n - 1], eui[..n - 1]);
      var a, b := Concat(tokens[..n - 1]), tokens[n - 1];
      HexValueConcat(a, b);
      assert Pow16(2) == 256;
    }
  }

  /** Splitting off the first octet. */
  lemma {:induction false} OctetsFront(os: seq<nat>)
    requires |os| > 0 && forall i :: 0 <= i < |os| ==> os[i] < 256
    ensures OctetsValue(os[1..]) < Pow2(8 * (|os| - 1))
    ensures OctetsValue(os) == os[0] * Pow2(8 * (|os| - 1)) + OctetsValue(os[1..])
  {
    var n := |os|;
    if n == 1 {
      assert os[1..] == [];
      assert os[..0] == [];
    } else {
      var init := os[..n - 1];
      OctetsFront(init);
      var r := OctetsValue(init[1..]);
      assert OctetsValue(os[1..]) == r * 256 + os[n - 1] by {
        assert os[1..][..n - 2] == init[1..];
      }
      Pow2Add(8 * (n - 2), 8);
      assert Pow2(8) == 256;
      assert 8 * (n - 2) + 8 == 8 * (n - 1);
      FrontArith(os[0], Pow2(8 * (n - 2)), r, os[n - 1]);
    }
  }

  /** The arithmetic of one step of `OctetsFront`. */
  lemma FrontArith(first: nat, p: nat, r: nat, last: nat)
    requires r < p && last < 256
    ensures r * 256 + last < p * 256
    ensures (first * p + r) * 256 + last == first * (p * 256) + (r * 256 + last)
  {
    MulMono(r + 1, p, 256);
    MulDistrib(r, 1, 256);
    MulDistrib(first * p, r, 256);
    MulAssoc(first, p, 256);
  }
}
