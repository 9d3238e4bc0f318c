/** udp_write: building a UDP datagram with its checksum inside its own IP header. */
module UdpWrite {
  import opened Text
  import opened Checksum

  const IPPROTO_UDP: Byte := 17
  const HEADERS := 28
  const UDP_HEADER := 8
  const TTL_OUT: Byte := 64

  datatype Endpoint = Endpoint(addr: seq<Byte>, port: seq<Byte>)

  ghost predicate ValidEndpoint(e: Endpoint) { |e.addr| == 4 && |e.port| == 2 }

  /** The length field counts the UDP header and the user data, cut to 16 bits. */
  function LengthField(userlen: nat): (r: seq<Byte>)
    ensures |r| == 2
  {
    WordBytes((UDP_HEADER + userlen) % 0x1_0000)
  }

  // ----- the reference: RFC 768 -----

  function PseudoHeader(src: Endpoint, dst: Endpoint, userlen: nat): seq<Byte> {
    src.addr + dst.addr + [0, IPPROTO_UDP] + LengthField(userlen)
  }

  function UdpSegment(src: Endpoint, dst: Endpoint, sum: seq<Byte>, data: seq<Byte>): seq<Byte> {
    src.port + dst.port + LengthField(|data|) + sum + data
  }

  /** What the checksum covers: pseudo-header, UDP header, data. */
  function Covered(src: Endpoint, dst: Endpoint, sum: seq<Byte>, data: seq<Byte>): seq<Byte> {
    PseudoHeader(src, dst, |data|) + UdpSegment(src, dst, sum, data)
  }

  /** The Checksum field of RFC 768: a sum that comes out zero is sent as all ones. */
  function UdpChecksum(src: Endpoint, dst: Endpoint, data: seq<Byte>, order: Order): Word {
    var c := Rfc1071(Covered(src, dst, [0, 0], data), order);
    if c == 0 then 0xffff else c
  }

  // ----- the code -----

  /** The header overlay: nine zero bytes, then the pseudo-header's fields in another order. */
  function Overlay(src: Endpoint, dst: Endpoint, data: seq<Byte>): seq<Byte> {
    Zeros(8) + [0, IPPROTO_UDP] + LengthField(|data|) + src.addr + dst.addr
    + UdpSegment(src, dst, [0, 0], data)
  }

  function Words(b: seq<Byte>, order: Order): nat { Sum(WordsIn(b, order)) }

  lemma SumZeros(order: Order)
    ensures Words(Zeros(8), order) == 0
  {
    var z: seq<Byte> := Zeros(8);
    assert z[2..] == Zeros(6) && z[2..][2..] == Zeros(4) && z[2..][2..][2..] == Zeros(2);
    assert z[2..][2..][2..][2..] == [];
    assert WordsIn(z, order) == [0, 0, 0, 0] by {
      assert WordsIn(Zeros(2), order) == [0];
      assert WordsIn(Zeros(4), order) == [0] + WordsIn(Zeros(2), order);
      assert WordsIn(Zeros(6), order) == [0] + WordsIn(Zeros(4), order);
    }
    assert [0, 0, 0, 0][1..] == [0, 0, 0] && [0, 0, 0][1..] == [0, 0] && [0, 0][1..] == [0];
  }

  /** The overlay and the pseudo-header put the same words into the sum. */
  lemma OverlaySum(src: Endpoint, dst: Endpoint, data: seq<Byte>, order: Order)
    requires ValidEndpoint(src) && ValidEndpoint(dst)
    ensures Words(Overlay(src, dst, data), order) == Words(Covered(src, dst, [0, 0], data), order)
  {
    hide WordsIn;
    hide Sum;
    var z: seq<Byte> := Zeros(8);
    var p: seq<Byte> := [0, IPPROTO_UDP];
    var l, s, d, u := LengthField(|data|), src.addr, dst.addr, UdpSegment(src, dst, [0, 0], data);
    SumPieces(z + p + l + s + d, u, order);
    SumPieces(z + p + l + s, d, order);
    SumPieces(z + p + l, s, order);
    SumPieces(z + p, l, order);
    SumPieces(z, p, order);
    SumZeros(order);
    SumPieces(s + d + p + l, u, order);
    SumPieces(s + d + p, l, order);
    SumPieces(s + d, p, order);
    SumPieces(s, d, order);
  }

  /** The overlay's checksum is the RFC 768 checksum. */
  lemma OverlayChecksum(src: Endpoint, dst: Endpoint, data: seq<Byte>, order: Order)
    requires ValidEndpoint(src) && ValidEndpoint(dst)
    ensures Rfc1071(Overlay(src, dst, data), order) == Rfc1071(Covered(src, dst, [0, 0], data), order)
  {
    OverlaySum(src, dst, data, order);
    OnesSumIsCanon(WordsIn(Overlay(src, dst, data), order));
    OnesSumIsCanon(WordsIn(Covered(src, dst, [0, 0], data), order));
  }

  /** A receiver that sums the pseudo-header, the header with its checksum and the data gets zero,
      and a checksum of zero, which would mean "none", is never sent. */
  lemma SentVerifies(src: Endpoint, dst: Endpoint, data: seq<Byte>, order: Order)
    requires ValidEndpoint(src) && ValidEndpoint(dst)
    ensures var c := UdpChecksum(src, dst, data, order);
            c != 0 && Rfc1071(Covered(src, dst, StoreWord(c, order), data), order) == 0
  {
    hide WordsIn;
    hide Rfc1071;
    var zeroed := Covered(src, dst, [0, 0], data);
    var c := UdpChecksum(src, dst, data, order);
    StoredVerifies(zeroed, 18, order);
    assert zeroed[18] == 0 && zeroed[19] == 0;
    assert Stored(zeroed, 18, c, order) == Covered(src, dst, StoreWord(c, order), data);
  }

  /** Which host computes the checksum makes no difference to the bytes sent. */
  lemma SentBytesSameOnAllHosts(src: Endpoint, dst: Endpoint, data: seq<Byte>)
    ensures StoreWord(UdpChecksum(src, dst, data, LittleEndian), LittleEndian)
         == StoreWord(UdpChecksum(src, dst, data, BigEndian), BigEndian)
  {
    ByteOrderIndependent(Covered(src, dst, [0, 0], data));
  }

  method CopyIn(buf: array<Byte>, at: nat, bytes: seq<Byte>)
    requires at + |bytes| <= buf.Length
    modifies buf
    ensures buf[..] == old(buf[..at]) + bytes + old(buf[at + |bytes|..])
  {
    forall i | 0 <= i < |bytes| {
      buf[at + i] := bytes[i];
    }
  }

  /** Everything the checksum will cover, over a zeroed header. */
  method FillOverlay(buf: array<Byte>, userlen: nat, local: Endpoint, dest: Endpoint)
    requires ValidEndpoint(local) && ValidEndpoint(dest)
    requires buf.Length == HEADERS + userlen
    modifies buf
    ensures buf[..] == Overlay(local, dest, old(buf[HEADERS..]))
  {
    ghost var data := buf[HEADERS..];
    forall i | 0 <= i < HEADERS {
      buf[i] := 0;
    }
    hide LengthField;
    assert buf[..] == Zeros(HEADERS) + data;
    assert buf[..10] == Zeros(10) && buf[12..] == Zeros(16) + data;
    CopyIn(buf, 10, LengthField(userlen));
    assert buf[..] == Zeros(10) + LengthField(userlen) + (Zeros(16) + data);
    buf[9] := IPPROTO_UDP;
    ghost var front := Zeros(8) + [0, IPPROTO_UDP] + LengthField(userlen);
    assert buf[..] == front + Zeros(16) + data;
    FillAddresses(buf, front, data, userlen, local, dest);
  }

  /** Overwrites one field that lies between a known front and a known back. */
  method PutField(buf: array<Byte>, ghost front: seq<Byte>, at: nat, bytes: seq<Byte>, ghost back: seq<Byte>)
    requires buf.Length == at + |bytes| + |back| && |front| == at
    requires buf[..at] == front && buf[at + |bytes|..] == back
    modifies buf
    ensures buf[..] == front + bytes + back
    ensures buf[..at + |bytes|] == front + bytes && buf[at + |bytes|..] == back
  {
    CopyIn(buf, at, bytes);
  }

  method FillAddresses(buf: array<Byte>, ghost front: seq<Byte>, ghost data: seq<Byte>, userlen: nat,
                       local: Endpoint, dest: Endpoint)
    requires ValidEndpoint(local) && ValidEndpoint(dest)
    requires |front| == 12 && |data| == userlen && buf[..] == front + Zeros(16) + data
    modifies buf
    ensures buf[..] == front + local.addr + dest.addr + UdpSegment(local, dest, [0, 0], data)
  {
    PutField(buf, front, 12, local.addr, Zeros(12) + data);
    PutField(buf, front + local.addr, 16, dest.addr, Zeros(8) + data);
    ghost var f := front + local.addr + dest.addr;
    FillPorts(buf, f, data, userlen, local, dest);
  }

  method FillPorts(buf: array<Byte>, ghost front: seq<Byte>, ghost data: seq<Byte>, userlen: nat,
                   local: Endpoint, dest: Endpoint)
    requires ValidEndpoint(local) && ValidEndpoint(dest)
    requires |front| == 20 && |data| == userlen && buf[..] == front + (Zeros(8) + data)
    modifies buf
    ensures buf[..] == front + UdpSegment(local, dest, [0, 0], data)
  {
    hide LengthField;
    assert buf[22..] == Zeros(6) + data;
    PutField(buf, front, 20, local.port, Zeros(6) + data);
    assert buf[24..] == (Zeros(6) + data)[2..] == Zeros(4) + data;
    PutField(buf, front + local.port, 22, dest.port, Zeros(4) + data);
    assert buf[26..] == (Zeros(4) + data)[2..] == [0, 0] + data;
    PutField(buf, front + local.port + dest.port, 24, LengthField(userlen), [0, 0] + data);
    Segmented(front, local, dest, data);
  }

  lemma Segmented(front: seq<Byte>, src: Endpoint, dst: Endpoint, data: seq<Byte>)
    ensures front + src.port + dst.port + LengthField(|data|) + ([0, 0] + data)
         == front + UdpSegment(src, dst, [0, 0], data)
  {
    hide LengthField;
  }

  /** The IP header left in the buffer. Its checksum field still holds the length put there for the
      overlay; the kernel computes the real one. */
  function IpHeader(src: Endpoint, dst: Endpoint, userlen: nat, lenInNetOrder: bool, order: Order): seq<Byte> {
    var total := (HEADERS + userlen) % 0x1_0000;
    [0x45, 0] + (if lenInNetOrder then WordBytes(total) else StoreWord(total, order)) + [0, 0, 0, 0]
    + [TTL_OUT, IPPROTO_UDP] + LengthField(userlen) + src.addr + dst.addr
  }

  /** The overlay up to the checksum field, and the datagram from the protocol byte on. */
  function BeforeSum(src: Endpoint, dst: Endpoint, userlen: nat): seq<Byte> {
    Zeros(8) + [0, IPPROTO_UDP] + LengthField(userlen) + src.addr + dst.addr
    + src.port + dst.port + LengthField(userlen)
  }

  function FromProtocol(src: Endpoint, dst: Endpoint, sum: seq<Byte>, data: seq<Byte>): seq<Byte> {
    [IPPROTO_UDP] + LengthField(|data|) + src.addr + dst.addr + UdpSegment(src, dst, sum, data)
  }

  lemma Regrouped(src: Endpoint, dst: Endpoint, sum: seq<Byte>, data: seq<Byte>)
    requires ValidEndpoint(src) && ValidEndpoint(dst) && |sum| == 2
    ensures |BeforeSum(src, dst, |data|)| == 26
    ensures Overlay(src, dst, data) == BeforeSum(src, dst, |data|) + ([0, 0] + data)
    ensures BeforeSum(src, dst, |data|) + sum + data == Zeros(9) + FromProtocol(src, dst, sum, data)
  {
    hide LengthField;
    var b := BeforeSum(src, dst, |data|);
    var tail := src.addr + dst.addr + src.port + dst.port + LengthField(|data|) + sum + data;
    assert src.addr + dst.addr + UdpSegment(src, dst, sum, data) == tail;
  }

  function Number(b: seq<Byte>, at: nat): nat
    requires at + 2 <= |b|
  {
    256 * (b[at] as int) + b[at + 1]
  }

  /** The datagram by position, as the IP header and the fields of RFC 768 have it. Both lengths are cut to 16 bits. */
  lemma WireFormat(src: Endpoint, dst: Endpoint, sum: seq<Byte>, data: seq<Byte>, lenInNetOrder: bool, order: Order)
    requires ValidEndpoint(src) && ValidEndpoint(dst) && |sum| == 2
    ensures var b := IpHeader(src, dst, |data|, lenInNetOrder, order) + UdpSegment(src, dst, sum, data);
            && |b| == 28 + |data| && b[0] == 0x45 && b[1] == 0 && b[4..8] == [0, 0, 0, 0]
            && (if lenInNetOrder || order.BigEndian? then Number(b, 2)
                else (b[2] as int) + 256 * (b[3] as int)) == (28 + |data|) % 0x1_0000
            && b[8] == 64 && b[9] == 17 && b[12..16] == src.addr && b[16..20] == dst.addr
            && b[20..22] == src.port && b[22..24] == dst.port && Number(b, 24) == (8 + |data|) % 0x1_0000
            && b[26..28] == sum && b[28..] == data
  {
    hide WordBytes;
    var l := LengthField(|data|);
    var h := IpHeader(src, dst, |data|, lenInNetOrder, order);
    var u := UdpSegment(src, dst, sum, data);
    assert |h| == 20 && h[12..16] == src.addr && h[16..20] == dst.addr;
    assert u[0..2] == src.port && u[2..4] == dst.port && u[4] == l[0] && u[5] == l[1];
    assert u[6..8] == sum && u[8..] == data;
    assert (h + u)[20..22] == u[0..2] && (h + u)[22..24] == u[2..4] && (h + u)[26..28] == u[6..8];
    assert (h + u)[28..] == u[8..] && (h + u)[12..16] == h[12..16] && (h + u)[16..20] == h[16..20];
  }

  /** What the checksum covers by position: the pseudo-header of RFC 768 before the UDP header and the data. */
  lemma PseudoHeaderFormat(src: Endpoint, dst: Endpoint, sum: seq<Byte>, data: seq<Byte>)
    requires ValidEndpoint(src) && ValidEndpoint(dst) && |sum| == 2
    ensures var c, b := Covered(src, dst, sum, data), IpHeader(src, dst, |data|, true, BigEndian)
                                                     + UdpSegment(src, dst, sum, data);
            && |c| == 20 + |data| && c[0..4] == src.addr && c[4..8] == dst.addr && c[8] == 0 && c[9] == 17
            && Number(c, 10) == (8 + |data|) % 0x1_0000 && c[12..] == b[20..]
  {
    hide WordBytes;
    var h, p, u := IpHeader(src, dst, |data|, true, BigEndian), PseudoHeader(src, dst, |data|),
                   UdpSegment(src, dst, sum, data);
    assert |p| == 12 && p[0..4] == src.addr && p[4..8] == dst.addr;
    assert (p + u)[0..4] == p[0..4] && (p + u)[4..8] == p[4..8] && (p + u)[12..] == u;
    assert |h| == 20 && (h + u)[20..] == u;
  }

  lemma HeaderRegrouped(src: Endpoint, dst: Endpoint, sum: seq<Byte>, data: seq<Byte>,
                        lenInNetOrder: bool, order: Order)
    ensures var total := (HEADERS + |data|) % 0x1_0000;
            [0x45, 0] + (if lenInNetOrder then WordBytes(total) else StoreWord(total, order)) + [0, 0, 0, 0]
            + [TTL_OUT] + FromProtocol(src, dst, sum, data)
            == IpHeader(src, dst, |data|, lenInNetOrder, order) + UdpSegment(src, dst, sum, data)
  {
    hide LengthField;
    hide UdpSegment;
    hide StoreWord;
    hide WordBytes;
  }

  method UdpWrite(buf: array<Byte>, userlen: nat, local: Endpoint, dest: Endpoint,
                  zerosum: bool, lenInNetOrder: bool, order: Order)
    requires ValidEndpoint(local) && ValidEndpoint(dest)
    requires buf.Length == HEADERS + userlen <= 131074
    modifies buf
    ensures var data := old(buf[HEADERS..]);
            var sum := if zerosum then [0, 0] else StoreWord(UdpChecksum(local, dest, data, order), order);
            buf[..] == IpHeader(local, dest, userlen, lenInNetOrder, order) + UdpSegment(local, dest, sum, data)
  {
    hide Overlay;
    hide BeforeSum;
    hide FromProtocol;
    hide IpHeader;
    hide UdpSegment;
    hide Covered;
    hide StoreWord;
    hide Rfc1071;
    hide WordsIn;
    hide Sum;
    ghost var data := buf[HEADERS..];
    FillOverlay(buf, userlen, local, dest);
    ghost var sumBytes: seq<Byte> := [0, 0];
    Regrouped(local, dest, sumBytes, data);
    ghost var front := BeforeSum(local, dest, userlen);
    assert front + [0, 0] + data == front + ([0, 0] + data);
    if !zerosum {
      var sum := InCksum(buf[..], order);
      OverlayChecksum(local, dest, data, order);
      if sum == 0 {
        sum := 0xffff;
      }
      sumBytes := StoreWord(sum, order);
      assert buf[..26] == front && buf[28..] == data;
      PutField(buf, front, 26, StoreWord(sum, order), data);
    }
    Regrouped(local, dest, sumBytes, data);
    HeaderRegrouped(local, dest, sumBytes, data, lenInNetOrder, order);
    FinishIpHeader(buf, FromProtocol(local, dest, sumBytes, data), (HEADERS + userlen) % 0x1_0000,
                   lenInNetOrder, order);
  }

  method FinishIpHeader(buf: array<Byte>, ghost rest: seq<Byte>, total: Word, lenInNetOrder: bool, order: Order)
    requires buf[..] == Zeros(9) + rest
    modifies buf
    ensures buf[..] == [0x45, 0] + (if lenInNetOrder then WordBytes(total) else StoreWord(total, order))
                       + [0, 0, 0, 0] + [TTL_OUT] + rest
  {
    hide StoreWord;
    hide WordBytes;
    hide LoadWord;
    var len := if lenInNetOrder then WordBytes(total) else StoreWord(total, order);
    buf[0] := 0x45;
    buf[1] := 0;
    PutField(buf, [0x45, 0], 2, len, Zeros(5) + rest);
    FinishRest(buf, [0x45, 0] + len, rest);
  }

  lemma SomeZeros(front: seq<Byte>, rest: seq<Byte>)
    ensures front + (Zeros(5) + rest) == front + [0, 0, 0, 0] + [0] + rest
  {
  }

  /** Only the time to live is not zero already. */
  method FinishRest(buf: array<Byte>, ghost front: seq<Byte>, ghost rest: seq<Byte>)
    requires |front| == 4 && buf[..] == front + (Zeros(5) + rest)
    modifies buf
    ensures buf[..] == front + [0, 0, 0, 0] + [TTL_OUT] + rest
  {
    hide Zeros;
    SomeZeros(front, rest);
    ghost var was := buf[..];
    assert buf.Length == |was| && was[4..8] == [0, 0, 0, 0];
    buf[4], buf[5], buf[6], buf[7] := 0, 0, 0, 0;
    buf[8] := TTL_OUT;
    assert buf[..] == was[8 := TTL_OUT];
  }
}
