/** IPv4 addresses and prefixes as the driver uses them (`net.IP`, `*net.IPNet`),
    with their textual forms and the parsers `net.ParseIP` and `net.ParseCIDR`. */
module Net {
  import opened Base
  import opened Text

  /** One byte of an address. */
  type Byte = bv8

  datatype IPv4 = IPv4(a: Byte, b: Byte, c: Byte, d: Byte)

  /** A `net.IP`: nil, or an IPv4 address. */
  datatype IP = NilIP | V4(addr: IPv4)

  type MaskLen = x: int | 0 <= x <= 32

  /** A `*net.IPNet` with an IPv4 address and a canonical mask of `ones` leading bits. */
  datatype Prefix = Prefix(ip: IPv4, ones: MaskLen)

  /** One byte of an address with only its first `keep` bits kept (keep is clamped to 0..8). */
  function MaskByte(x: Byte, keep: int): (r: Byte)
    ensures keep >= 8 ==> r == x
    ensures keep <= 0 ==> r == 0
  {
    if keep <= 0 then 0
    else if keep >= 8 then x
    else x & (0xFF << (8 - keep))
  }

  lemma MaskByteIdempotent(x: Byte, keep: int)
    ensures MaskByte(MaskByte(x, keep), keep) == MaskByte(x, keep)
  {
  }

  /** `ip.Mask(CIDRMask(ones, 32))`: the address with all bits after the first `ones` cleared. */
  function Mask(ip: IPv4, ones: MaskLen): IPv4 {
    IPv4(MaskByte(ip.a, ones), MaskByte(ip.b, ones - 8), MaskByte(ip.c, ones - 16), MaskByte(ip.d, ones - 24))
  }

  /** Masking twice is masking once. */
  lemma MaskIdempotent(ip: IPv4, ones: MaskLen)
    ensures Mask(Mask(ip, ones), ones) == Mask(ip, ones)
  {
    MaskByteIdempotent(ip.a, ones);
    MaskByteIdempotent(ip.b, ones - 8);
    MaskByteIdempotent(ip.c, ones - 16);
    MaskByteIdempotent(ip.d, ones - 24);
  }

  /** (*net.IPNet).Contains: an IPv4 address whose first `ones` bits agree with the network's. */
  predicate Contains(p: Prefix, ip: IP) {
    ip.V4? && Mask(ip.addr, p.ones) == Mask(p.ip, p.ones)
  }

  /** A prefix written as its network address (what `net.ParseCIDR` returns). */
  predicate Canonical(p: Prefix) {
    Mask(p.ip, p.ones) == p.ip
  }

  /** The network that `net.ParseCIDR` builds from an address is canonical and contains that address. */
  lemma NetworkOfAddress(ip: IPv4, ones: MaskLen)
    ensures Canonical(Prefix(Mask(ip, ones), ones))
    ensures Contains(Prefix(Mask(ip, ones), ones), V4(ip))
  {
    MaskIdempotent(ip, ones);
  }

  /** Dotted-quad text of an IPv4 address. */
  function FormatIPv4(ip: IPv4): string {
    Join([Dec(ip.a as nat), Dec(ip.b as nat), Dec(ip.c as nat), Dec(ip.d as nat)], '.')
  }

  /** `net.IP.String()`; a nil address prints as "<nil>". */
  function FormatIP(ip: IP): string {
    match ip
    case NilIP => "<nil>"
    case V4(a) => FormatIPv4(a)
  }

  function ParseOctet(s: string): (r: Option<Byte>)
    ensures r.Some? ==> ParseDec(s) == Some(r.value as nat)
  {
    match ParseDec(s)
    case None => None
    case Some(n) => if n < 256 then Some(n as bv8) else None
  }

  /** Four dot-separated decimal bytes. */
  function ParseIPv4(s: string): Option<IPv4> {
    var parts := Split(s, '.');
    if |parts| != 4 then None
    else
      match (ParseOctet(parts[0]), ParseOctet(parts[1]), ParseOctet(parts[2]), ParseOctet(parts[3]))
      case (Some(a), Some(b), Some(c), Some(d)) => Some(IPv4(a, b, c, d))
      case _ => None
  }

  /** `net.ParseIP`: nil when the text is not an address. */
  function ParseIP(s: string): IP {
    match ParseIPv4(s)
    case Some(a) => V4(a)
    case None => NilIP
  }

  /** `(*net.IPNet).String()`: address, slash, mask length. */
  function FormatCIDR(p: Prefix): string {
    Join([FormatIPv4(p.ip), Dec(p.ones)], '/')
  }

  /** The text the driver stores for a possibly nil prefix. */
  function FormatPrefix(p: Option<Prefix>): string {
    match p
    case None => "<nil>"
    case Some(q) => FormatCIDR(q)
  }

  /** `types.ParseCIDR`: the address (not masked) and the mask length; None when malformed. */
  function ParseCIDR(s: string): Option<Prefix> {
    var parts := Split(s, '/');
    if |parts| != 2 then None
    else
      match (ParseIPv4(parts[0]), ParseDec(parts[1]))
      case (Some(a), Some(n)) => if n <= 32 then Some(Prefix(a, n)) else None
      case _ => None
  }

  lemma DigitsHaveNo(s: string, c: char)
    requires AllDigits(s) && !IsDigit(c)
    ensures c !in s
  {
  }

  /** A character that is neither the separator nor in any piece is not in the joined text. */
  lemma {:induction false} JoinAvoids(parts: seq<string>, sep: char, c: char)
    requires |parts| >= 1 && c != sep
    requires forall i :: 0 <= i < |parts| ==> c !in parts[i]
    ensures c !in Join(parts, sep)
  {
    if |parts| > 1 {
      JoinAvoids(parts[1..], sep, c);
    }
  }

  lemma {:induction false} FormatIPv4Shape(ip: IPv4)
    ensures '/' !in FormatIPv4(ip)
    ensures Split(FormatIPv4(ip), '.') == [Dec(ip.a as nat), Dec(ip.b as nat), Dec(ip.c as nat), Dec(ip.d as nat)]
  {
    var parts := [Dec(ip.a as nat), Dec(ip.b as nat), Dec(ip.c as nat), Dec(ip.d as nat)];
    forall i | 0 <= i < 4 ensures '.' !in parts[i] && '/' !in parts[i] {
      DigitsHaveNo(parts[i], '.');
      DigitsHaveNo(parts[i], '/');
    }
    SplitJoin(parts, '.');
    JoinAvoids(parts, '.', '/');
  }

  /** `net.ParseIP` reads back every address `net.IP.String()` prints, nil included. */
  lemma {:induction false} ParseFormatIP(ip: IP)
    ensures ParseIP(FormatIP(ip)) == ip
  {
    match ip
    case NilIP =>
      SplitNoSep("<nil>", '.');
    case V4(a) =>
      FormatIPv4Shape(a);
      DecRoundTrip(a.a as nat);
      DecRoundTrip(a.b as nat);
      DecRoundTrip(a.c as nat);
      DecRoundTrip(a.d as nat);
  }

  /** `types.ParseCIDR` reads back every prefix `(*net.IPNet).String()` prints. */
  lemma {:induction false} ParseFormatCIDR(p: Prefix)
    ensures ParseCIDR(FormatCIDR(p)) == Some(p)
  {
    var parts := [FormatIPv4(p.ip), Dec(p.ones)];
    FormatIPv4Shape(p.ip);
    DigitsHaveNo(Dec(p.ones), '/');
    SplitJoin(parts, '/');
    ParseFormatIP(V4(p.ip));
    DecRoundTrip(p.ones);
  }

  /** The stored text of a possibly nil prefix reads back to the same prefix. */
  lemma ParseFormatPrefix(p: Option<Prefix>)
    ensures ParseCIDR(FormatPrefix(p)) == p
  {
    match p
    case None => SplitNoSep("<nil>", '/');
    case Some(q) => ParseFormatCIDR(q);
  }
}
