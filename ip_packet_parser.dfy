/** A decoder for the headers of an Ethernet frame carrying IPv4 and then TCP or UDP.
    A `BufferView` is the frame's bytes; each `parse_*` reads one header at the
    caller's offset `off` and, on success, advances `off` past it. Ethernet and IPv4
    report a header that is not there with an empty optional, TCP and UDP throw
    `std::out_of_range`, and so do the big-endian readers. */
module IpPacketParser {
  import opened Common
  import ParseInt

  type Byte = x: int | 0 <= x < 0x100
  type U16 = x: int | 0 <= x < 0x1_0000

  const ETH_IPV4: int := 0x0800
  const PROTO_TCP: int := 6
  const PROTO_UDP: int := 17

  /** `sizeof(Ethernet_Header)`: two 6-byte addresses and a 2-byte ethertype. */
  const ETH_HEADER_SIZE: nat := 14
  /** The fixed part of an IPv4 header. */
  const IPV4_MIN_HEADER_SIZE: nat := 20
  /** `sizeof(UDP_Header)`: four 16-bit fields. */
  const UDP_HEADER_SIZE: nat := 8
  /** `sizeof(TCP_Header)`: 20 bytes of fields, padded to 24, then the 8-byte
      `size_t header_bytes`. It is 12 more than the 20 bytes a TCP header occupies
      on the wire. */
  const TCP_HEADER_SIZE: nat := 32

  /** A thrown `std::out_of_range` and its message. */
  datatype OutOfRange = OutOfRange(what: string)

  /** What a `parse_*` call ends in: a header, an empty optional, or an exception. */
  datatype Outcome<+T> = Header(header: T) | NoHeader | Thrown(error: OutOfRange)

  /** The outcome of a `parse_*` call together with the caller's `off` after it. */
  datatype Parse<+T> = Parse(outcome: Outcome<T>, off: nat)

  // ---------------------------------------------------------------- BufferView

  /** The two bytes at `off`, most significant first. */
  function Be16(buf: seq<Byte>, off: nat): U16
    requires off + 2 <= |buf|
  {
    (buf[off] as int) * 0x100 + buf[off + 1]
  }

  /** `get_be16`: throws unless two bytes are left at `off`; otherwise the value whose
      high byte is `data[off]` and whose low byte is `data[off + 1]`. */
  function GetBe16(buf: seq<Byte>, off: nat): (r: Result<U16, OutOfRange>)
    ensures r.Ok? <==> off + 2 <= |buf|
    ensures r.Ok? ==> r.value / 0x100 == buf[off] && r.value % 0x100 == buf[off + 1]
    ensures r.Err? ==> r.error == OutOfRange("get_be16")
  {
    if off + 2 > |buf| then Err(OutOfRange("get_be16"))
    else
      ModUnique(Be16(buf, off), 0x100, buf[off], buf[off + 1]);
      Ok(Be16(buf, off))
  }

  /** `get_be32`: throws unless four bytes are left at `off`. The four bytes are combined
      into one `int`, but the function returns `uint16_t`, so only the low two bytes
      survive: the result is the 16-bit value at `off + 2`. */
  function GetBe32(buf: seq<Byte>, off: nat): (r: Result<U16, OutOfRange>)
    ensures r.Ok? <==> off + 4 <= |buf|
    ensures r.Ok? ==> r == GetBe16(buf, off + 2)
    ensures r.Err? ==> r.error == OutOfRange("get_be32")
  {
    if off + 4 > |buf| then Err(OutOfRange("get_be32"))
    else
      var wide := (buf[off] as int) * 0x100_0000 + (buf[off + 1] as int) * 0x1_0000 + (buf[off + 2] as int) * 0x100 + buf[off + 3];
      ModUnique(wide, 0x1_0000, Be16(buf, off), Be16(buf, off + 2));
      Ok(wide % 0x1_0000)
  }

  // ---------------------------------------------------------------- Ethernet

  datatype EthernetHeader = EthernetHeader(dst: seq<Byte>, src: seq<Byte>, ethertype: U16)

  /** `parse_eth`: nothing when the buffer is shorter than an Ethernet header. The two
      addresses are copied from the start of the buffer whatever `off` is; the
      ethertype is read at `off + 12`, which throws when that lies beyond the buffer
      (with `off` already advanced by 12); on success `off` grows by 14. */
  function DecodeEth(buf: seq<Byte>, off: nat): (r: Parse<EthernetHeader>)
    ensures r.outcome.NoHeader? <==> |buf| < ETH_HEADER_SIZE
    ensures r.outcome.Thrown? <==> ETH_HEADER_SIZE <= |buf| < off + ETH_HEADER_SIZE
    ensures r.outcome.NoHeader? ==> r.off == off
    ensures r.outcome.Thrown? ==> r.off == off + 12 && r.outcome.error == OutOfRange("get_be16")
    ensures r.outcome.Header? ==>
      && r.off == off + ETH_HEADER_SIZE
      && r.outcome.header.dst == buf[..6] && r.outcome.header.src == buf[6..12]
      && r.outcome.header.ethertype == Be16(buf, off + 12)
  {
    if |buf| < ETH_HEADER_SIZE then Parse(NoHeader, off)
    else
      match GetBe16(buf, off + 12)
      case Err(e) => Parse(Thrown(e), off + 12)
      case Ok(ethertype) => Parse(Header(EthernetHeader(buf[0..6], buf[6..12], ethertype)), off + 14)
  }

  /** `parse_eth` with its in-place update of `off`: `off'` is the caller's offset
      after the call. */
  method ParseEth(buf: seq<Byte>, off: nat) returns (r: Outcome<EthernetHeader>, off': nat)
    ensures Parse(r, off') == DecodeEth(buf, off)
  {
    off' := off;
    if |buf| < ETH_HEADER_SIZE {
      return NoHeader, off';
    }
    var dst := buf[0..6];
    var src := buf[6..12];
    off' := off' + 12;
    var ethertype := GetBe16(buf, off');
    if ethertype.Err? {
      return Thrown(ethertype.error), off';
    }
    off' := off' + 2;
    r := Header(EthernetHeader(dst, src, ethertype.value));
  }

  // ---------------------------------------------------------------- IPv4

  datatype Ipv4Header = Ipv4Header(
    version: nat, ihl: nat, tos: Byte, totalLen: U16, id: U16, fragOff: U16,
    ttl: Byte, proto: Byte, checksum: U16, src: nat, dst: nat, headerBytes: nat)

  /** The header at `off` is IPv4 with a sane length: version 4 in the high nibble of
      its first byte, at least five 32-bit words in the low nibble, and all of them
      inside the buffer. */
  predicate Ipv4Fits(buf: seq<Byte>, off: nat)
    requires off < |buf|
  {
    buf[off] / 16 == 4 && buf[off] % 16 >= 5 && off + 4 * (buf[off] % 16) <= |buf|
  }

  /** `parse_ipv4`: nothing unless the 20 fixed bytes are there, the version is 4, the
      header length is at least 5 words and the whole header fits; then the fields at
      their offsets, and `off` grows by exactly the header length. It never throws, as
      every read lies in the 20 bytes checked first. */
  function DecodeIpv4(buf: seq<Byte>, off: nat): (r: Parse<Ipv4Header>)
    ensures !r.outcome.Thrown?
    ensures r.outcome.NoHeader? <==> off + IPV4_MIN_HEADER_SIZE > |buf| || !Ipv4Fits(buf, off)
    ensures r.outcome.NoHeader? ==> r.off == off
    ensures r.outcome.Header? ==>
      var h := r.outcome.header;
      && h.version == 4 && 5 <= h.ihl < 16 && h.headerBytes == 4 * h.ihl
      && r.off == off + h.headerBytes <= |buf|
  {
    if off + IPV4_MIN_HEADER_SIZE > |buf| then Parse(NoHeader, off)
    else
      var verIhl := buf[off];
      var version, ihl := verIhl / 16, verIhl % 16;
      if version != 4 || ihl < 5 then Parse(NoHeader, off)
      else
        var h := Ipv4Header(
          version, ihl, buf[off + 1],
          GetBe16(buf, off + 2).value, GetBe16(buf, off + 4).value, GetBe16(buf, off + 6).value,
          buf[off + 8], buf[off + 9], GetBe16(buf, off + 10).value,
          GetBe32(buf, off + 12).value, GetBe32(buf, off + 16).value, ihl * 4);
        if off + h.headerBytes > |buf| then Parse(NoHeader, off)
        else Parse(Header(h), off + h.headerBytes)
  }

  /** `parse_ipv4`, filling the header field by field and advancing `off` at the end. */
  method ParseIpv4(buf: seq<Byte>, off: nat) returns (r: Outcome<Ipv4Header>, off': nat)
    ensures Parse(r, off') == DecodeIpv4(buf, off)
  {
    off' := off;
    if off' + IPV4_MIN_HEADER_SIZE > |buf| {
      return NoHeader, off';
    }
    var verIhl := buf[off'];
    var h := Ipv4Header(0, 0, 0, 0, 0, 0, 0, 0, 0, 0, 0, 0);
    h := h.(version := verIhl / 16, ihl := verIhl % 16);
    if h.version != 4 || h.ihl < 5 {
      return NoHeader, off';
    }
    h := h.(tos := buf[off' + 1]);
    h := h.(totalLen := GetBe16(buf, off' + 2).value);
    h := h.(id := GetBe16(buf, off' + 4).value);
    h := h.(fragOff := GetBe16(buf, off' + 6).value);
    h := h.(ttl := buf[off' + 8]);
    h := h.(proto := buf[off' + 9]);
    h := h.(checksum := GetBe16(buf, off' + 10).value);
    h := h.(src := GetBe32(buf, off' + 12).value);
    h := h.(dst := GetBe32(buf, off' + 16).value);
    h := h.(headerBytes := h.ihl * 4);
    if off' + h.headerBytes > |buf| {
      return NoHeader, off';
    }
    off' := off' + h.headerBytes;
    r := Header(h);
  }

  // ---------------------------------------------------------------- UDP

  datatype UdpHeader = UdpHeader(sport: U16, dport: U16, len: U16, checksum: U16)

  /** `parse_udp`: throws unless the 8 header bytes are there (leaving `off` alone);
      otherwise four big-endian fields and `off` grows by 8. */
  function DecodeUdp(buf: seq<Byte>, off: nat): (r: Parse<UdpHeader>)
    ensures !r.outcome.NoHeader?
    ensures r.outcome.Thrown? <==> off + UDP_HEADER_SIZE > |buf|
    ensures r.outcome.Thrown? ==> r.off == off && r.outcome.error == OutOfRange("UDP Header insufficient buffer size!")
    ensures r.outcome.Header? ==> r.off == off + UDP_HEADER_SIZE
  {
    if off + UDP_HEADER_SIZE > |buf| then Parse(Thrown(OutOfRange("UDP Header insufficient buffer size!")), off)
    else
      var h := UdpHeader(GetBe16(buf, off).value, GetBe16(buf, off + 2).value,
                         GetBe16(buf, off + 4).value, GetBe16(buf, off + 6).value);
      Parse(Header(h), off + UDP_HEADER_SIZE)
  }

  /** `parse_udp`, field by field. */
  method ParseUdp(buf: seq<Byte>, off: nat) returns (r: Outcome<UdpHeader>, off': nat)
    ensures Parse(r, off') == DecodeUdp(buf, off)
  {
    off' := off;
    if off' + UDP_HEADER_SIZE > |buf| {
      return Thrown(OutOfRange("UDP Header insufficient buffer size!")), off';
    }
    var h := UdpHeader(0, 0, 0, 0);
    h := h.(sport := GetBe16(buf, off').value);
    h := h.(dport := GetBe16(buf, off' + 2).value);
    h := h.(len := GetBe16(buf, off' + 4).value);
    h := h.(checksum := GetBe16(buf, off' + 6).value);
    off' := off' + UDP_HEADER_SIZE;
    r := Header(h);
  }

  // ---------------------------------------------------------------- TCP

  /** `flags` is the raw byte of `enum Flags`, one bit per flag from `FIN` (bit 0) to
      `CWR` (bit 7). `seqNum` and `ackNum` are the `uint32_t` fields `seq` and `ack` as `get_be32` fills them. */
  datatype TcpHeader = TcpHeader(
    sport: U16, dport: U16, seqNum: nat, ackNum: nat, dataOffset: nat, flags: Byte,
    window: U16, checksum: U16, urgPtr: U16, headerBytes: nat)

  /** `parse_tcp`: throws unless `sizeof(TCP_Header)` (32) bytes are left at `off`; the
      data offset is the high nibble of the byte at `off + 12` and the header is four
      times that many bytes, which throws when it runs past the buffer. In both cases
      `off` is unchanged; otherwise it grows by the header length. Nothing requires the
      data offset to be at least 5. */
  function DecodeTcp(buf: seq<Byte>, off: nat): (r: Parse<TcpHeader>)
    ensures !r.outcome.NoHeader?
    ensures r.outcome.Thrown? <==> off + TCP_HEADER_SIZE > |buf| || off + 4 * (buf[off + 12] / 16) > |buf|
    ensures r.outcome.Thrown? ==> r.off == off
    ensures r.outcome.Header? ==>
      var h := r.outcome.header;
      && h.dataOffset < 16 && h.headerBytes == 4 * h.dataOffset
      && r.off == off + h.headerBytes <= |buf|
  {
    if off + TCP_HEADER_SIZE > |buf| then Parse(Thrown(OutOfRange("TCP Header insufficient buffer size!")), off)
    else
      var h := TcpHeader(
        GetBe16(buf, off).value, GetBe16(buf, off + 2).value,
        GetBe32(buf, off + 4).value, GetBe32(buf, off + 8).value,
        buf[off + 12] / 16, buf[off + 13],
        GetBe16(buf, off + 14).value, GetBe16(buf, off + 16).value, GetBe16(buf, off + 18).value,
        buf[off + 12] / 16 * 4);
      if off + h.headerBytes > |buf| then Parse(Thrown(OutOfRange("TCP header data offset outside buffer!")), off)
      else Parse(Header(h), off + h.headerBytes)
  }

  /** `parse_tcp`, field by field. */
  method ParseTcp(buf: seq<Byte>, off: nat) returns (r: Outcome<TcpHeader>, off': nat)
    ensures Parse(r, off') == DecodeTcp(buf, off)
  {
    off' := off;
    if off' + TCP_HEADER_SIZE > |buf| {
      return Thrown(OutOfRange("TCP Header insufficient buffer size!")), off';
    }
    var h := TcpHeader(0, 0, 0, 0, 0, 0, 0, 0, 0, 0);
    h := h.(sport := GetBe16(buf, off').value);
    h := h.(dport := GetBe16(buf, off' + 2).value);
    h := h.(seqNum := GetBe32(buf, off' + 4).value);
    h := h.(ackNum := GetBe32(buf, off' + 8).value);
    h := h.(dataOffset := buf[off' + 12] / 16);
    h := h.(flags := buf[off' + 13]);
    h := h.(window := GetBe16(buf, off' + 14).value);
    h := h.(checksum := GetBe16(buf, off' + 16).value);
    h := h.(urgPtr := GetBe16(buf, off' + 18).value);
    h := h.(headerBytes := h.dataOffset * 4);
    if off' + h.headerBytes > |buf| {
      return Thrown(OutOfRange("TCP header data offset outside buffer!")), off';
    }
    off' := off' + h.headerBytes;
    r := Header(h);
  }

  // ---------------------------------------------------------------- Text

  /** A lower-case hexadecimal digit, as `std::hex` writes it. */
  function HexDigit(d: nat): (c: char)
    requires d < 16
    ensures HexValue(c) == d
  {
    if d < 10 then ('0' as int + d) as char else ('a' as int + d - 10) as char
  }

  /** The value of a lower-case hexadecimal digit. */
  function HexValue(c: char): nat {
    if '0' <= c <= '9' then c as int - '0' as int
    else if 'a' <= c <= 'f' then c as int - 'a' as int + 10
    else 0
  }

  /** One address byte under `std::setw(2)` and `std::setfill('0')`: always two digits,
      high nibble first. */
  function Hex2(b: Byte): (r: string)
    ensures |r| == 2 && HexValue(r[0]) * 16 + HexValue(r[1]) == b
  {
    [HexDigit(b / 16), HexDigit(b % 16)]
  }

  /** What `mac_to_str` writes for the bytes `addr`: each byte as `Hex2`, with a `:`
      before every byte but the first. */
  function MacString(addr: seq<Byte>): (r: string)
    ensures |addr| == 0 ==> r == ""
    ensures |addr| > 0 ==> |r| == 3 * |addr| - 1
    decreases |addr|
  {
    if |addr| == 0 then ""
    else MacString(addr[..|addr| - 1]) + (if |addr| > 1 then ":" else "") + Hex2(addr[|addr| - 1])
  }

  /** `mac_to_str`: the loop over the six bytes appending to the stream. */
  method MacToStr(addr: seq<Byte>) returns (s: string)
    requires |addr| == 6
    ensures s == MacString(addr)
  {
    s := "";
    for i := 0 to |addr|
      invariant s == MacString(addr[..i])
    {
      assert addr[..i + 1][..i] == addr[..i];
      if i > 0 {
        s := s + ":";
      }
      s := s + Hex2(addr[i]);
    }
    assert addr[..|addr|] == addr;
  }

  /** The layout of `MacString`: three characters per byte less the last separator,
      byte `k` readable back from positions `3k` and `3k + 1`, and `:` at `3k + 2`
      between bytes. */
  lemma {:induction false} MacStringLayout(addr: seq<Byte>)
    ensures |addr| == 0 ==> MacString(addr) == ""
    ensures |addr| > 0 ==> |MacString(addr)| == 3 * |addr| - 1
    ensures forall k :: 0 <= k < |addr| ==>
      3 * k + 1 < |MacString(addr)| &&
      HexValue(MacString(addr)[3 * k]) * 16 + HexValue(MacString(addr)[3 * k + 1]) == addr[k]
    ensures forall k :: 0 <= k < |addr| - 1 ==> MacString(addr)[3 * k + 2] == ':'
    decreases |addr|
  {
    if |addr| == 1 {
      assert MacString(addr) == Hex2(addr[0]);
    } else if |addr| > 1 {
      var init, b := addr[..|addr| - 1], addr[|addr| - 1];
      assert addr == init + [b];
      MacStringLayout(init);
      assert MacString(addr) == MacString(init) + ":" + Hex2(b);
      MacStepBytes(MacString(init), init, b);
      MacStepColons(MacString(init), |init|, b);
    }
  }

  /** Appending `:` and a byte keeps every earlier byte readable and adds the new one. */
  lemma MacStepBytes(prev: string, init: seq<Byte>, b: Byte)
    requires |init| > 0 && |prev| == 3 * |init| - 1
    requires forall k :: 0 <= k < |init| ==> HexValue(prev[3 * k]) * 16 + HexValue(prev[3 * k + 1]) == init[k]
    ensures var str := prev + ":" + Hex2(b);
      forall k :: 0 <= k < |init| + 1 ==>
        3 * k + 1 < |str| && HexValue(str[3 * k]) * 16 + HexValue(str[3 * k + 1]) == (init + [b])[k]
  {
    var str := prev + ":" + Hex2(b);
    forall k | 0 <= k < |init| + 1
      ensures 3 * k + 1 < |str| && HexValue(str[3 * k]) * 16 + HexValue(str[3 * k + 1]) == (init + [b])[k]
    {
      if k < |init| {
        assert str[3 * k] == prev[3 * k] && str[3 * k + 1] == prev[3 * k + 1];
      } else {
        assert str[3 * k] == Hex2(b)[0] && str[3 * k + 1] == Hex2(b)[1];
      }
    }
  }

  /** Appending `:` and a byte puts the separator at `3n - 1` and keeps the others. */
  lemma MacStepColons(prev: string, n: nat, b: Byte)
    requires n > 0 && |prev| == 3 * n - 1
    requires forall k :: 0 <= k < n - 1 ==> prev[3 * k + 2] == ':'
    ensures var str := prev + ":" + Hex2(b);
      |str| == 3 * (n + 1) - 1 && forall k :: 0 <= k < n ==> str[3 * k + 2] == ':'
  {
    var str := prev + ":" + Hex2(b);
    forall k | 0 <= k < n
      ensures str[3 * k + 2] == ':'
    {
      if k < n - 1 {
        assert str[3 * k + 2] == prev[3 * k + 2];
      }
    }
  }

  /** The decimal digits of `n` as `operator<<` writes an unsigned number: no leading
      zeros, and "0" for zero. */
  function Decimal(n: nat): (r: string)
    ensures |r| >= 1 && ParseInt.AllDigits(r)
    ensures r[0] == '0' ==> n == 0
    ensures n < 10 ==> |r| == 1
    ensures n < 100 ==> |r| <= 2
    ensures n < 1000 ==> |r| <= 3
    decreases n
  {
    if n < 10 then [('0' as int + n) as char] else Decimal(n / 10) + [('0' as int + n % 10) as char]
  }

  /** Reading `Decimal(n)` back as digits gives `n`. */
  lemma {:induction false} DecimalValue(n: nat)
    ensures ParseInt.DigitsValue(Decimal(n)) == n
    decreases n
  {
    if n >= 10 {
      DecimalValue(n / 10);
      var d := Decimal(n);
      assert d[..|d| - 1] == Decimal(n / 10);
    } else {
      assert Decimal(n)[..0] == [];
    }
  }

  /** `ip_to_str` for a `uint32_t` address: its four bytes from the most significant,
      each in decimal, joined by `.`. */
  function IpToStr(ip: nat): (r: string)
    requires ip < 0x1_0000_0000
    ensures 7 <= |r| <= 15
  {
    Decimal((ip / 0x100_0000) % 0x100) + "." + Decimal((ip / 0x1_0000) % 0x100) + "."
      + Decimal((ip / 0x100) % 0x100) + "." + Decimal(ip % 0x100)
  }

  /** The address with octets `a.b.c.d` is written as those four numbers in that
      order. */
  lemma IpToStrOctets(a: Byte, b: Byte, c: Byte, d: Byte)
    ensures Octets(a, b, c, d) < 0x1_0000_0000
    ensures IpToStr(Octets(a, b, c, d)) == Decimal(a) + "." + Decimal(b) + "." + Decimal(c) + "." + Decimal(d)
  {
    OctetsShift(a, b, c, d);
  }

  /** The 32-bit address with bytes `a`, `b`, `c`, `d`, most significant first. */
  function Octets(a: Byte, b: Byte, c: Byte, d: Byte): nat {
    (a as int) * 0x100_0000 + (b as int) * 0x1_0000 + (c as int) * 0x100 + d
  }

  /** Shifting and masking an address recovers each of its bytes. */
  lemma OctetsShift(a: Byte, b: Byte, c: Byte, d: Byte)
    ensures Octets(a, b, c, d) < 0x1_0000_0000
    ensures (Octets(a, b, c, d) / 0x100_0000) % 0x100 == a
    ensures (Octets(a, b, c, d) / 0x1_0000) % 0x100 == b
    ensures (Octets(a, b, c, d) / 0x100) % 0x100 == c
    ensures Octets(a, b, c, d) % 0x100 == d
  {
    var ip := Octets(a, b, c, d);
    ModUnique(ip, 0x100, (a as int) * 0x1_0000 + (b as int) * 0x100 + c, d);
    ModUnique(ip / 0x100, 0x100, (a as int) * 0x100 + b, c);
    ModUnique(ip, 0x1_0000, (a as int) * 0x100 + b, (c as int) * 0x100 + d);
    ModUnique(ip / 0x1_0000, 0x100, a, b);
    ModUnique(ip, 0x100_0000, a, (b as int) * 0x1_0000 + (c as int) * 0x100 + d);
    ModUnique(ip / 0x100_0000, 0x100, 0, a);
  }

  // ---------------------------------------------------------------- Encoding

  /** A 16-bit value on the wire, most significant byte first. */
  function Be16Bytes(x: U16): (r: seq<Byte>)
    ensures |r| == 2
  {
    [x / 0x100, x % 0x100]
  }

  /** A 32-bit value on the wire, most significant byte first. */
  function Be32Bytes(x: nat): (r: seq<Byte>)
    requires x < 0x1_0000_0000
    ensures |r| == 4
  {
    [(x / 0x100_0000) % 0x100, (x / 0x1_0000) % 0x100, (x / 0x100) % 0x100, x % 0x100]
  }

  /** `get_be16` reads back a value written by `Be16Bytes`. */
  lemma ReadBe16(buf: seq<Byte>, off: nat, x: U16)
    requires off + 2 <= |buf| && buf[off..off + 2] == Be16Bytes(x)
    ensures GetBe16(buf, off) == Ok(x)
  {
    assert buf[off] == buf[off..off + 2][0] && buf[off + 1] == buf[off..off + 2][1];
  }

  /** `get_be32` reads back only the low 16 bits of a value written by `Be32Bytes`. */
  lemma ReadBe32(buf: seq<Byte>, off: nat, x: nat)
    requires x < 0x1_0000_0000
    requires off + 4 <= |buf| && buf[off..off + 4] == Be32Bytes(x)
    ensures GetBe32(buf, off) == Ok(x % 0x1_0000)
  {
    assert buf[off + 2..off + 4] == buf[off..off + 4][2..];
    ModUnique(x, 0x100, x / 0x100, x % 0x100);
    ModUnique(x / 0x100, 0x100, x / 0x1_0000, (x / 0x100) % 0x100);
    ModUnique(x, 0x1_0000, x / 0x1_0000, (x / 0x100) % 0x100 * 0x100 + x % 0x100);
    ReadBe16(buf, off + 2, x % 0x1_0000);
  }

  /** A slice of bytes found at `off` holds each of its own slices. */
  lemma SliceAt(buf: seq<Byte>, off: nat, e: seq<Byte>, i: nat, j: nat)
    requires off + |e| <= |buf| && buf[off..off + |e|] == e && i <= j <= |e|
    ensures buf[off + i..off + j] == e[i..j]
  {
    forall k | 0 <= k < j - i
      ensures buf[off + i..off + j][k] == e[i..j][k]
    {
      assert e[i + k] == buf[off..off + |e|][i + k];
    }
  }

  /** A header `h` that fits on the wire: version 4, a length of 5 to 15 words that
      `headerBytes` matches, 32-bit addresses, and as many option bytes as the length
      leaves after the fixed 20. */
  predicate WireIpv4(h: Ipv4Header, options: seq<Byte>) {
    && h.version == 4 && 5 <= h.ihl < 16 && h.headerBytes == 4 * h.ihl
    && h.src < 0x1_0000_0000 && h.dst < 0x1_0000_0000
    && |options| == h.headerBytes - IPV4_MIN_HEADER_SIZE
  }

  /** The IPv4 header `h` on the wire. */
  function EncodeIpv4(h: Ipv4Header, options: seq<Byte>): (r: seq<Byte>)
    requires WireIpv4(h, options)
    ensures |r| == h.headerBytes
  {
    [0x40 + h.ihl, h.tos] + Be16Bytes(h.totalLen) + Be16Bytes(h.id) + Be16Bytes(h.fragOff)
      + [h.ttl, h.proto] + Be16Bytes(h.checksum) + Be32Bytes(h.src) + Be32Bytes(h.dst) + options
  }

  /** Where `EncodeIpv4` puts each field. */
  lemma Ipv4Layout(h: Ipv4Header, options: seq<Byte>)
    requires WireIpv4(h, options)
    ensures var e := EncodeIpv4(h, options);
      && e[0] == 0x40 + h.ihl && e[1] == h.tos && e[8] == h.ttl && e[9] == h.proto
      && e[2..4] == Be16Bytes(h.totalLen) && e[4..6] == Be16Bytes(h.id)
      && e[6..8] == Be16Bytes(h.fragOff) && e[10..12] == Be16Bytes(h.checksum)
      && e[12..16] == Be32Bytes(h.src) && e[16..20] == Be32Bytes(h.dst)
  {
  }

  /** Decoding an encoded IPv4 header gives back every field and advances `off` past
      the options, except the two addresses: `get_be32` keeps only their low 16 bits. */
  lemma Ipv4RoundTrip(prefix: seq<Byte>, h: Ipv4Header, options: seq<Byte>, payload: seq<Byte>)
    requires WireIpv4(h, options)
    ensures DecodeIpv4(prefix + EncodeIpv4(h, options) + payload, |prefix|)
      == Parse(Header(h.(src := h.src % 0x1_0000, dst := h.dst % 0x1_0000)), |prefix| + h.headerBytes)
  {
    var e := EncodeIpv4(h, options);
    var buf := prefix + e + payload;
    var off := |prefix|;
    Ipv4Layout(h, options);
    assert buf[off..off + |e|] == e;
    assert buf[off] == e[0] && buf[off + 1] == e[1] && buf[off + 8] == e[8] && buf[off + 9] == e[9];
    SliceAt(buf, off, e, 2, 4);
    ReadBe16(buf, off + 2, h.totalLen);
    SliceAt(buf, off, e, 4, 6);
    ReadBe16(buf, off + 4, h.id);
    SliceAt(buf, off, e, 6, 8);
    ReadBe16(buf, off + 6, h.fragOff);
    SliceAt(buf, off, e, 10, 12);
    ReadBe16(buf, off + 10, h.checksum);
    SliceAt(buf, off, e, 12, 16);
    ReadBe32(buf, off + 12, h.src);
    SliceAt(buf, off, e, 16, 20);
    ReadBe32(buf, off + 16, h.dst);
  }

  /** The Ethernet header `h` on the wire, for 6-byte addresses. */
  function EncodeEth(h: EthernetHeader): (r: seq<Byte>)
    requires |h.dst| == 6 && |h.src| == 6
    ensures |r| == ETH_HEADER_SIZE
  {
    h.dst + h.src + Be16Bytes(h.ethertype)
  }

  /** A frame that starts with an encoded Ethernet header decodes to that header, with
      `off` moved from 0 to 14. */
  lemma EthRoundTrip(h: EthernetHeader, payload: seq<Byte>)
    requires |h.dst| == 6 && |h.src| == 6
    ensures DecodeEth(EncodeEth(h) + payload, 0) == Parse(Header(h), ETH_HEADER_SIZE)
  {
    var e := EncodeEth(h);
    var buf := e + payload;
    assert buf[..6] == h.dst;
    assert buf[6..12] == h.src;
    assert buf[12..14] == Be16Bytes(h.ethertype);
    ReadBe16(buf, 12, h.ethertype);
  }

  /** The UDP header `h` on the wire. */
  function EncodeUdp(h: UdpHeader): (r: seq<Byte>)
    ensures |r| == UDP_HEADER_SIZE
  {
    Be16Bytes(h.sport) + Be16Bytes(h.dport) + Be16Bytes(h.len) + Be16Bytes(h.checksum)
  }

  /** Decoding an encoded UDP header at any offset gives it back and advances `off`
      by 8. */
  lemma UdpRoundTrip(prefix: seq<Byte>, h: UdpHeader, payload: seq<Byte>)
    ensures DecodeUdp(prefix + EncodeUdp(h) + payload, |prefix|) == Parse(Header(h), |prefix| + UDP_HEADER_SIZE)
  {
    var e := EncodeUdp(h);
    var buf := prefix + e + payload;
    var off := |prefix|;
    assert buf[off..off + |e|] == e;
    assert e[0..2] == Be16Bytes(h.sport) && e[2..4] == Be16Bytes(h.dport);
    assert e[4..6] == Be16Bytes(h.len) && e[6..8] == Be16Bytes(h.checksum);
    SliceAt(buf, off, e, 0, 2);
    ReadBe16(buf, off, h.sport);
    SliceAt(buf, off, e, 2, 4);
    ReadBe16(buf, off + 2, h.dport);
    SliceAt(buf, off, e, 4, 6);
    ReadBe16(buf, off + 4, h.len);
    SliceAt(buf, off, e, 6, 8);
    ReadBe16(buf, off + 6, h.checksum);
  }

  /** A header `h` that fits on the wire: a data offset of 5 to 15 words that
      `headerBytes` matches, 32-bit sequence and acknowledgement numbers, a 4-bit
      reserved field, and as many option bytes as the data offset leaves after the
      fixed 20. */
  predicate WireTcp(h: TcpHeader, reserved: nat, options: seq<Byte>) {
    && 5 <= h.dataOffset < 16 && h.headerBytes == 4 * h.dataOffset && reserved < 16
    && h.seqNum < 0x1_0000_0000 && h.ackNum < 0x1_0000_0000
    && |options| == h.headerBytes - 20
  }

  /** The TCP header `h` on the wire, with `reserved` in the low nibble of byte 12. */
  function EncodeTcp(h: TcpHeader, reserved: nat, options: seq<Byte>): (r: seq<Byte>)
    requires WireTcp(h, reserved, options)
    ensures |r| == h.headerBytes
  {
    Be16Bytes(h.sport) + Be16Bytes(h.dport) + Be32Bytes(h.seqNum) + Be32Bytes(h.ackNum)
      + [h.dataOffset * 16 + reserved, h.flags]
      + Be16Bytes(h.window) + Be16Bytes(h.checksum) + Be16Bytes(h.urgPtr) + options
  }

  /** Where `EncodeTcp` puts each field. */
  lemma TcpLayout(h: TcpHeader, reserved: nat, options: seq<Byte>)
    requires WireTcp(h, reserved, options)
    ensures var e := EncodeTcp(h, reserved, options);
      && e[0..2] == Be16Bytes(h.sport) && e[2..4] == Be16Bytes(h.dport)
      && e[4..8] == Be32Bytes(h.seqNum) && e[8..12] == Be32Bytes(h.ackNum)
      && e[12] == h.dataOffset * 16 + reserved && e[13] == h.flags
      && e[14..16] == Be16Bytes(h.window) && e[16..18] == Be16Bytes(h.checksum)
      && e[18..20] == Be16Bytes(h.urgPtr)
  {
  }

  /** Decoding an encoded TCP header gives back every field and advances `off` past
      the options, except that `get_be32` keeps only the low 16 bits of the sequence
      and acknowledgement numbers; and it needs `sizeof(TCP_Header)`, 12 bytes more than
      the header, to be left in the buffer. */
  lemma TcpRoundTrip(prefix: seq<Byte>, h: TcpHeader, reserved: nat, options: seq<Byte>, payload: seq<Byte>)
    requires WireTcp(h, reserved, options)
    requires |options| + |payload| >= TCP_HEADER_SIZE - 20
    ensures DecodeTcp(prefix + EncodeTcp(h, reserved, options) + payload, |prefix|)
      == Parse(Header(h.(seqNum := h.seqNum % 0x1_0000, ackNum := h.ackNum % 0x1_0000)), |prefix| + h.headerBytes)
  {
    var e := EncodeTcp(h, reserved, options);
    var buf := prefix + e + payload;
    var off := |prefix|;
    TcpLayout(h, reserved, options);
    assert buf[off..off + |e|] == e;
    assert buf[off + 12] == e[12] && buf[off + 13] == e[13];
    ModUnique(buf[off + 12], 16, h.dataOffset, reserved);
    SliceAt(buf, off, e, 0, 2);
    ReadBe16(buf, off, h.sport);
    SliceAt(buf, off, e, 2, 4);
    ReadBe16(buf, off + 2, h.dport);
    SliceAt(buf, off, e, 4, 8);
    ReadBe32(buf, off + 4, h.seqNum);
    SliceAt(buf, off, e, 8, 12);
    ReadBe32(buf, off + 8, h.ackNum);
    SliceAt(buf, off, e, 14, 16);
    ReadBe16(buf, off + 14, h.window);
    SliceAt(buf, off, e, 16, 18);
    ReadBe16(buf, off + 16, h.checksum);
    SliceAt(buf, off, e, 18, 20);
    ReadBe16(buf, off + 18, h.urgPtr);
  }

  /** A well-formed TCP header that ends less than 12 bytes before the end of the
      buffer, such as a 20-byte header with no options and no payload, is rejected with
      "TCP Header insufficient buffer size!". */
  lemma TcpNeedsStructSize(prefix: seq<Byte>, h: TcpHeader, reserved: nat, options: seq<Byte>, payload: seq<Byte>)
    requires WireTcp(h, reserved, options)
    requires |options| + |payload| < TCP_HEADER_SIZE - 20
    ensures DecodeTcp(prefix + EncodeTcp(h, reserved, options) + payload, |prefix|)
      == Parse(Thrown(OutOfRange("TCP Header insufficient buffer size!")), |prefix|)
  {
  }

  // ---------------------------------------------------------------- Dispatch

  /** What follows the IPv4 header: a TCP header and the payload after it, a UDP
      header, or a protocol the decoder does not look into. */
  datatype Transport = TcpSegment(tcp: TcpHeader, payload: seq<Byte>) | UdpDatagram(udp: UdpHeader) | OtherProtocol

  /** How far `parse_and_print` gets: no Ethernet header, a frame that is not IPv4, an
      IPv4 frame without a valid IPv4 header, or a full IPv4 packet. */
  datatype Frame =
    | NoEthernet
    | NotIpv4(eth: EthernetHeader)
    | BadIpv4(eth: EthernetHeader)
    | Ipv4Packet(eth: EthernetHeader, ip: Ipv4Header, transport: Transport)

  /** The headers `parse_and_print` decodes from `buf`, from `off = 0`, without the
      printing: Ethernet, then IPv4 when the ethertype is 0x0800, then TCP for protocol
      6 and UDP for protocol 17. An exception from the TCP or UDP parser escapes as
      `Err`. */
  function DecodeFrame(buf: seq<Byte>): (r: Result<Frame, OutOfRange>)
    ensures r == Ok(NoEthernet) <==> |buf| < ETH_HEADER_SIZE
    ensures r.Ok? && r.value.Ipv4Packet? ==>
      && r.value.eth.ethertype == ETH_IPV4
      && (r.value.transport.TcpSegment? <==> r.value.ip.proto == PROTO_TCP)
      && (r.value.transport.UdpDatagram? <==> r.value.ip.proto == PROTO_UDP)
  {
    var eth := DecodeEth(buf, 0);
    match eth.outcome
    case NoHeader => Ok(NoEthernet)
    case Thrown(e) => Err(e)
    case Header(ethHdr) =>
      if ethHdr.ethertype != ETH_IPV4 then Ok(NotIpv4(ethHdr))
      else
        var ip := DecodeIpv4(buf, eth.off);
        match ip.outcome
        case NoHeader => Ok(BadIpv4(ethHdr))
        case Thrown(e) => Err(e)
        case Header(ipHdr) =>
          if ipHdr.proto == PROTO_TCP then
            var tcp := DecodeTcp(buf, ip.off);
            if tcp.outcome.Thrown? then Err(tcp.outcome.error)
            else Ok(Ipv4Packet(ethHdr, ipHdr, TcpSegment(tcp.outcome.header, buf[tcp.off..])))
          else if ipHdr.proto == PROTO_UDP then
            var udp := DecodeUdp(buf, ip.off);
            if udp.outcome.Thrown? then Err(udp.outcome.error)
            else Ok(Ipv4Packet(ethHdr, ipHdr, UdpDatagram(udp.outcome.header)))
          else Ok(Ipv4Packet(ethHdr, ipHdr, OtherProtocol))
  }

  /** `parse_and_print` without its output: one `off` threaded through the parsers in
      turn. The payload it prints after a TCP header is the rest of the buffer, when
      there is any. */
  method ParseAndPrint(buf: seq<Byte>) returns (r: Result<Frame, OutOfRange>)
    ensures r == DecodeFrame(buf)
  {
    var off := 0;
    var eth;
    eth, off := ParseEth(buf, off);
    if eth.NoHeader? {
      return Ok(NoEthernet);
    }
    if eth.Thrown? {
      // From off = 0 the ethertype lies inside any buffer of 14 bytes.
      assert false;
    }
    if eth.header.ethertype != ETH_IPV4 {
      return Ok(NotIpv4(eth.header));
    }
    var ip;
    ip, off := ParseIpv4(buf, off);
    if !ip.Header? {
      return Ok(BadIpv4(eth.header));
    }
    if ip.header.proto == PROTO_TCP {
      var tcp;
      tcp, off := ParseTcp(buf, off);
      if tcp.Thrown? {
        return Err(tcp.error);
      }
      r := Ok(Ipv4Packet(eth.header, ip.header, TcpSegment(tcp.header, buf[off..])));
    } else if ip.header.proto == PROTO_UDP {
      var udp;
      udp, off := ParseUdp(buf, off);
      if udp.Thrown? {
        return Err(udp.error);
      }
      r := Ok(Ipv4Packet(eth.header, ip.header, UdpDatagram(udp.header)));
    } else {
      r := Ok(Ipv4Packet(eth.header, ip.header, OtherProtocol));
    }
  }

  /** From offset 0 the Ethernet parser never throws and, when it succeeds, leaves
      `off` at 14; so the frame decoder fails only with an exception from the TCP or
      UDP parser. */
  lemma FrameErrors(buf: seq<Byte>)
    ensures DecodeEth(buf, 0).outcome.Header? ==> DecodeEth(buf, 0).off == ETH_HEADER_SIZE
    ensures DecodeFrame(buf).Err? ==>
      && DecodeEth(buf, 0).outcome.Header?
      && DecodeIpv4(buf, ETH_HEADER_SIZE).outcome.Header?
      && var proto := DecodeIpv4(buf, ETH_HEADER_SIZE).outcome.header.proto;
         proto == PROTO_TCP || proto == PROTO_UDP
  {
  }

  /** A frame built from an Ethernet header for IPv4, an IPv4 header for protocol 6,
      a TCP header and a payload decodes to those headers and that payload, with the
      32-bit fields cut to 16 bits, provided `sizeof(TCP_Header)` bytes follow the IPv4
      header. */
  lemma TcpFrameRoundTrip(eth: EthernetHeader, ip: Ipv4Header, ipOptions: seq<Byte>,
                          tcp: TcpHeader, reserved: nat, tcpOptions: seq<Byte>, payload: seq<Byte>)
    requires |eth.dst| == 6 && |eth.src| == 6 && eth.ethertype == ETH_IPV4
    requires WireIpv4(ip, ipOptions) && ip.proto == PROTO_TCP
    requires WireTcp(tcp, reserved, tcpOptions) && |tcpOptions| + |payload| >= TCP_HEADER_SIZE - 20
    ensures DecodeFrame(EncodeEth(eth) + EncodeIpv4(ip, ipOptions) + EncodeTcp(tcp, reserved, tcpOptions) + payload)
      == Ok(Ipv4Packet(eth, ip.(src := ip.src % 0x1_0000, dst := ip.dst % 0x1_0000),
                       TcpSegment(tcp.(seqNum := tcp.seqNum % 0x1_0000, ackNum := tcp.ackNum % 0x1_0000), payload)))
  {
    var e, i, t := EncodeEth(eth), EncodeIpv4(ip, ipOptions), EncodeTcp(tcp, reserved, tcpOptions);
    var buf := e + i + t + payload;
    assert buf == e + (i + t + payload);
    EthRoundTrip(eth, i + t + payload);
    assert buf == e + i + (t + payload);
    Ipv4RoundTrip(e, ip, ipOptions, t + payload);
    TcpRoundTrip(e + i, tcp, reserved, tcpOptions, payload);
    assert buf[|e + i + t|..] == payload;
  }

  /** A frame built from an Ethernet header for IPv4, an IPv4 header for protocol 17
      and a UDP header decodes to those headers, the addresses cut to 16 bits. */
  lemma UdpFrameRoundTrip(eth: EthernetHeader, ip: Ipv4Header, ipOptions: seq<Byte>, udp: UdpHeader, payload: seq<Byte>)
    requires |eth.dst| == 6 && |eth.src| == 6 && eth.ethertype == ETH_IPV4
    requires WireIpv4(ip, ipOptions) && ip.proto == PROTO_UDP
    ensures DecodeFrame(EncodeEth(eth) + EncodeIpv4(ip, ipOptions) + EncodeUdp(udp) + payload)
      == Ok(Ipv4Packet(eth, ip.(src := ip.src % 0x1_0000, dst := ip.dst % 0x1_0000), UdpDatagram(udp)))
  {
    var e, i, u := EncodeEth(eth), EncodeIpv4(ip, ipOptions), EncodeUdp(udp);
    var buf := e + i + u + payload;
    assert buf == e + (i + u + payload);
    EthRoundTrip(eth, i + u + payload);
    assert buf == e + i + (u + payload);
    Ipv4RoundTrip(e, ip, ipOptions, u + payload);
    UdpRoundTrip(e + i, udp, payload);
  }

  // ---------------------------------------------------------------- Sample frames

  /** The first sample frame, `14 + 20 + 20 + 27` bytes: Ethernet, IPv4 from
      192.168.1.100 to 147.24.21.42, TCP from port 49187 to port 80 with PSH and ACK
      set, and an HTTP request. */
  const SAMPLE_TCP_HTTP: seq<Byte> := TCP_HTTP_ETH + TCP_HTTP_IPV4 + TCP_HTTP_TCP + TCP_HTTP_PAYLOAD

  const TCP_HTTP_ETH: seq<Byte> := [
    0x00, 0x11, 0x22, 0x33, 0x44, 0x55, 0x66, 0x77, 0x88, 0x99, 0xAA, 0xBB, 0x08, 0x00]
  const TCP_HTTP_IPV4: seq<Byte> := [
    0x45, 0x00, 0x00, 0x3A, 0x12, 0x34, 0x40, 0x00, 0x40, 0x06,
    0x00, 0x00, 0xC0, 0xA8, 0x01, 0x64, 0x93, 0x18, 0x15, 0x2A]
  const TCP_HTTP_TCP: seq<Byte> := [
    0xC0, 0x23, 0x00, 0x50, 0x00, 0x00, 0x00, 0x01, 0x00, 0x00,
    0x00, 0x00, 0x50, 0x18, 0x40, 0x00, 0x00, 0x00, 0x00, 0x00]
  /** "GET / HTTP/1.1\r\n\r\nHost: x\r\n" */
  const TCP_HTTP_PAYLOAD: seq<Byte> := [
    0x47, 0x45, 0x54, 0x20, 0x2F, 0x20, 0x48, 0x54, 0x54, 0x50, 0x2F, 0x31, 0x2E, 0x31,
    0x0D, 0x0A, 0x0D, 0x0A, 0x48, 0x6F, 0x73, 0x74, 0x3A, 0x20, 0x78, 0x0D, 0x0A]

  /** The second sample frame, `14 + 20 + 8 + 12` bytes: Ethernet, IPv4 from 10.0.0.1
      to 8.8.8.8, UDP from port 49152 to port 53 with length 20, and a DNS query. */
  const SAMPLE_UDP_DNS: seq<Byte> := UDP_DNS_ETH + UDP_DNS_IPV4 + UDP_DNS_UDP + UDP_DNS_QUERY

  const UDP_DNS_ETH: seq<Byte> := [
    0xDE, 0xAD, 0xBE, 0xEF, 0xDE, 0xAD, 0xBA, 0xAD, 0xF0, 0x0D, 0x12, 0x34, 0x08, 0x00]
  const UDP_DNS_IPV4: seq<Byte> := [
    0x45, 0x00, 0x00, 0x28, 0xAB, 0xCD, 0x00, 0x00, 0x40, 0x11,
    0x00, 0x00, 0x0A, 0x00, 0x00, 0x01, 0x08, 0x08, 0x08, 0x08]
  const UDP_DNS_UDP: seq<Byte> := [0xC0, 0x00, 0x00, 0x35, 0x00, 0x14, 0x00, 0x00]
  const UDP_DNS_QUERY: seq<Byte> := [0x12, 0x34, 0x01, 0x00, 0x00, 0x01, 0x00, 0x00, 0x00, 0x00, 0x00, 0x00]

  /** The headers the first sample carries, with their full 32-bit addresses and
      numbers. */
  const TCP_HTTP_ETH_HEADER := EthernetHeader([0x00, 0x11, 0x22, 0x33, 0x44, 0x55], [0x66, 0x77, 0x88, 0x99, 0xAA, 0xBB], ETH_IPV4)
  const TCP_HTTP_IPV4_HEADER := Ipv4Header(4, 5, 0, 58, 0x1234, 0x4000, 64, PROTO_TCP, 0, 0xC0A8_0164, 0x9318_152A, 20)
  const TCP_HTTP_TCP_HEADER := TcpHeader(49187, 80, 1, 0, 5, 0x18, 0x4000, 0, 0, 20)

  /** The headers the second sample carries. */
  const UDP_DNS_ETH_HEADER := EthernetHeader([0xDE, 0xAD, 0xBE, 0xEF, 0xDE, 0xAD], [0xBA, 0xAD, 0xF0, 0x0D, 0x12, 0x34], ETH_IPV4)
  const UDP_DNS_IPV4_HEADER := Ipv4Header(4, 5, 0, 40, 0xABCD, 0, 64, PROTO_UDP, 0, 0x0A00_0001, 0x0808_0808, 20)
  const UDP_DNS_UDP_HEADER := UdpHeader(49152, 53, 20, 0)

  /** Each part of the first sample is the encoding of its header. */
  lemma TcpHttpParts()
    ensures WireIpv4(TCP_HTTP_IPV4_HEADER, []) && WireTcp(TCP_HTTP_TCP_HEADER, 0, [])
    ensures TCP_HTTP_ETH == EncodeEth(TCP_HTTP_ETH_HEADER)
    ensures TCP_HTTP_IPV4 == EncodeIpv4(TCP_HTTP_IPV4_HEADER, [])
    ensures TCP_HTTP_TCP == EncodeTcp(TCP_HTTP_TCP_HEADER, 0, [])
  {
  }

  /** The first sample decodes to its three headers and its payload, except that the
      IPv4 addresses come out as 0x0164 and 0x152A, as `get_be32` keeps only their low
      16 bits. */
  lemma SampleTcpHttp()
    ensures DecodeFrame(SAMPLE_TCP_HTTP) == Ok(Ipv4Packet(
      TCP_HTTP_ETH_HEADER,
      TCP_HTTP_IPV4_HEADER.(src := 0x0164, dst := 0x152A),
      TcpSegment(TCP_HTTP_TCP_HEADER, TCP_HTTP_PAYLOAD)))
  {
    TcpHttpParts();
    TcpFrameRoundTrip(TCP_HTTP_ETH_HEADER, TCP_HTTP_IPV4_HEADER, [], TCP_HTTP_TCP_HEADER, 0, [], TCP_HTTP_PAYLOAD);
  }

  /** Each part of the second sample is the encoding of its header. */
  lemma UdpDnsParts()
    ensures WireIpv4(UDP_DNS_IPV4_HEADER, [])
    ensures UDP_DNS_ETH == EncodeEth(UDP_DNS_ETH_HEADER)
    ensures UDP_DNS_IPV4 == EncodeIpv4(UDP_DNS_IPV4_HEADER, [])
    ensures UDP_DNS_UDP == EncodeUdp(UDP_DNS_UDP_HEADER)
  {
  }

  /** The second sample decodes to its three headers, the addresses again cut to
      0x0001 and 0x0808. */
  lemma SampleUdpDns()
    ensures DecodeFrame(SAMPLE_UDP_DNS) == Ok(Ipv4Packet(
      UDP_DNS_ETH_HEADER,
      UDP_DNS_IPV4_HEADER.(src := 0x0001, dst := 0x0808),
      UdpDatagram(UDP_DNS_UDP_HEADER)))
  {
    UdpDnsParts();
    UdpFrameRoundTrip(UDP_DNS_ETH_HEADER, UDP_DNS_IPV4_HEADER, [], UDP_DNS_UDP_HEADER, UDP_DNS_QUERY);
  }

  /** An address below 2^16, which is all `get_be32` can return, prints as
      `0.0.c.d`. */
  lemma ShortAddressPrints(x: nat)
    requires x < 0x1_0000
    ensures IpToStr(x) == "0.0." + Decimal(x / 0x100) + "." + Decimal(x % 0x100)
  {
    ShortOctets(x);
    ZeroPrefix(Decimal(x / 0x100), Decimal(x % 0x100));
  }

  /** The octets of an address below 2^16. */
  lemma ShortOctets(x: nat)
    requires x < 0x1_0000
    ensures (x / 0x100_0000) % 0x100 == 0 && (x / 0x1_0000) % 0x100 == 0
    ensures (x / 0x100) % 0x100 == x / 0x100
  {
  }

  /** Two zero octets in front of `c.d`. */
  lemma ZeroPrefix(c: string, d: string)
    ensures Decimal(0) + "." + Decimal(0) + "." + c + "." + d == "0.0." + c + "." + d
  {
    assert Decimal(0) == "0";
  }

  /** So every address the IPv4 parser returns prints with `0.0.` in front. */
  lemma Ipv4AddressesPrintShort(buf: seq<Byte>, off: nat)
    requires DecodeIpv4(buf, off).outcome.Header?
    ensures var h := DecodeIpv4(buf, off).outcome.header;
      && IpToStr(h.src) == "0.0." + Decimal(h.src / 0x100) + "." + Decimal(h.src % 0x100)
      && IpToStr(h.dst) == "0.0." + Decimal(h.dst / 0x100) + "." + Decimal(h.dst % 0x100)
  {
    var h := DecodeIpv4(buf, off).outcome.header;
    assert h.src == GetBe16(buf, off + 14).value && h.dst == GetBe16(buf, off + 18).value;
    ShortAddressPrints(h.src);
    ShortAddressPrints(h.dst);
  }

  /** The source address of the first sample prints as 0.0.1.100 instead of
      192.168.1.100. */
  lemma SampleSourcePrints()
    ensures IpToStr(0x0164) == "0.0.1.100"
  {
    assert (0x0164 / 0x100_0000) % 0x100 == 0 && (0x0164 / 0x1_0000) % 0x100 == 0;
    assert (0x0164 / 0x100) % 0x100 == 1 && 0x0164 % 0x100 == 100;
    assert Decimal(0) == "0" && Decimal(1) == "1" && Decimal(100) == "100";
  }

  /** One more byte adds a `:` and its two hexadecimal digits. */
  lemma MacStringSnoc(addr: seq<Byte>, b: Byte)
    requires |addr| > 0
    ensures MacString(addr + [b]) == MacString(addr) + ":" + Hex2(b)
  {
    assert (addr + [b])[..|addr|] == addr;
  }

  /** A six-byte address is the six byte pairs joined by colons. */
  lemma MacString6(a: Byte, b: Byte, c: Byte, d: Byte, e: Byte, f: Byte)
    ensures MacString([a, b, c, d, e, f]) == Hex2(a) + ":" + Hex2(b) + ":" + Hex2(c) + ":" + Hex2(d) + ":" + Hex2(e) + ":" + Hex2(f)
  {
    assert MacString([a]) == Hex2(a);
    assert [a] + [b] == [a, b];
    MacStringSnoc([a], b);
    assert [a, b] + [c] == [a, b, c];
    MacStringSnoc([a, b], c);
    assert [a, b, c] + [d] == [a, b, c, d];
    MacStringSnoc([a, b, c], d);
    assert [a, b, c, d] + [e] == [a, b, c, d, e];
    MacStringSnoc([a, b, c, d], e);
    assert [a, b, c, d, e] + [f] == [a, b, c, d, e, f];
    MacStringSnoc([a, b, c, d, e], f);
  }

  /** The destination address of the first sample as `mac_to_str` writes it. */
  lemma SampleDstMac()
    ensures MacString(TCP_HTTP_ETH_HEADER.dst) == "00:11:22:33:44:55"
  {
    assert TCP_HTTP_ETH_HEADER.dst == [0x00] + [0x11] + [0x22] + [0x33] + [0x44] + [0x55];
    assert MacString([0x00]) == "00";
    MacStringSnoc([0x00], 0x11);
    assert MacString([0x00] + [0x11]) == "00:11";
    MacStringSnoc([0x00] + [0x11], 0x22);
    assert MacString([0x00] + [0x11] + [0x22]) == "00:11:22";
    MacStringSnoc([0x00] + [0x11] + [0x22], 0x33);
    assert MacString([0x00] + [0x11] + [0x22] + [0x33]) == "00:11:22:33";
    MacStringSnoc([0x00] + [0x11] + [0x22] + [0x33], 0x44);
    assert MacString([0x00] + [0x11] + [0x22] + [0x33] + [0x44]) == "00:11:22:33:44";
    MacStringSnoc([0x00] + [0x11] + [0x22] + [0x33] + [0x44], 0x55);
  }

  /** The source address of the first sample, with the lower-case digits of
      `std::hex`. */
  lemma SampleSrcMac()
    ensures MacString(TCP_HTTP_ETH_HEADER.src) == "66:77:88:99:aa:bb"
  {
    assert TCP_HTTP_ETH_HEADER.src == [0x66] + [0x77] + [0x88] + [0x99] + [0xAA] + [0xBB];
    assert MacString([0x66]) == "66";
    MacStringSnoc([0x66], 0x77);
    assert MacString([0x66] + [0x77]) == "66:77";
    MacStringSnoc([0x66] + [0x77], 0x88);
    assert MacString([0x66] + [0x77] + [0x88]) == "66:77:88";
    MacStringSnoc([0x66] + [0x77] + [0x88], 0x99);
    assert MacString([0x66] + [0x77] + [0x88] + [0x99]) == "66:77:88:99";
    MacStringSnoc([0x66] + [0x77] + [0x88] + [0x99], 0xAA);
    assert MacString([0x66] + [0x77] + [0x88] + [0x99] + [0xAA]) == "66:77:88:99:aa";
    MacStringSnoc([0x66] + [0x77] + [0x88] + [0x99] + [0xAA], 0xBB);
  }
}
