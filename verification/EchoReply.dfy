/** process_packet: an ICMP echo request is turned into its reply in place. */
module EchoReply {
  import opened Bits
  import opened Checksum

  // ----- the ICMP message

  const ICMP_ECHO: Byte := 8
  const ICMP_ECHOREPLY: Byte := 0

  /** The checksum field as the little-endian host reads it. */
  function ChecksumField(m: seq<Byte>): Word
    requires |m| >= 4
  {
    WordOf(m[2], m[3], false)
  }

  function WithChecksum(m: seq<Byte>, c: Word): seq<Byte>
    requires |m| >= 4
  {
    m[2 := c % 0x100][3 := c / 0x100]
  }

  /** The rewrite of the ICMP part: type 0, and the checksum patched for the word 8 becoming 0. */
  function ReplyMessage(m: seq<Byte>): seq<Byte>
    requires |m| >= 4
  {
    WithChecksum(m[0 := ICMP_ECHOREPLY], Replaced(ChecksumField(m), ICMP_ECHO, ICMP_ECHOREPLY))
  }

  /** The checksum a sender computes in network order over the message with a zero checksum field. */
  function FromScratch(m: seq<Byte>): Word
    requires |m| >= 4
  {
    Not(OnesSum(WithChecksum(m, 0), true))
  }

  /** The checksum field, read in network order, is the one computed from scratch. */
  predicate HasCorrectChecksum(m: seq<Byte>)
    requires |m| >= 4
  {
    WordOf(m[2], m[3], true) == FromScratch(m)
  }

  /** Some byte of the message besides its type and its checksum is not zero. */
  ghost predicate HasContent(m: seq<Byte>) {
    exists i :: 1 <= i < |m| && i != 2 && i != 3 && m[i] != 0
  }

  lemma {:induction false} TotalZero(m: seq<Byte>)
    ensures Total(m, false) == 0 <==> forall i :: 0 <= i < |m| ==> m[i] == 0
  {
    if |m| >= 2 {
      TotalZero(m[2..]);
      assert forall i :: 2 <= i < |m| ==> m[i] == m[2..][i - 2];
    }
  }

  /** The little-endian total, with the first two words taken apart. */
  lemma TotalOfHead(m: seq<Byte>)
    requires |m| >= 4
    ensures Total(m, false) == m[0] + 0x100 * m[1] + ChecksumField(m) + Total(m[4..], false)
  {
    assert m[2..][2..] == m[4..];
  }

  /** What is summed besides the checksum field. */
  function Rest(m: seq<Byte>): nat
    requires |m| >= 4
  {
    m[0] + 0x100 * m[1] + Total(m[4..], false)
  }

  /** What the reply sums besides its checksum is what the request carries besides type and checksum. */
  lemma RestIsContent(m: seq<Byte>)
    requires |m| >= 4 && m[0] == ICMP_ECHO
    ensures Rest(ReplyMessage(m)) > 0 <==> HasContent(m)
  {
    hide Replaced;
    TotalZero(m[4..]);
    assert ReplyMessage(m)[4..] == m[4..];
    if Total(m[4..], false) > 0 {
      var i :| 0 <= i < |m[4..]| && m[4..][i] != 0;
      assert m[i + 4] != 0;
    }
    if HasContent(m) {
      var i :| 1 <= i < |m| && i != 2 && i != 3 && m[i] != 0;
      if i >= 4 {
        assert m[4..][i - 4] != 0;
      }
    }
  }

  lemma FieldOfReply(m: seq<Byte>)
    requires |m| >= 4 && m[0] == ICMP_ECHO
    ensures var r := ReplyMessage(m);
            && ChecksumField(r) == Replaced(ChecksumField(m), ICMP_ECHO, ICMP_ECHOREPLY)
            && Rest(r) + 8 == Rest(m) && r[4..] == m[4..]
  {
    assert ReplyMessage(m)[4..] == m[4..];
  }

  /** Whatever the checksum was, the patched one is never 0xFFFF and stands eight above it modulo 2^16 - 1. */
  lemma PatchedField(c: Word)
    ensures var c' := Replaced(c, ICMP_ECHO, ICMP_ECHOREPLY);
            c' != 0xFFFF && (c' == c + 8 || c' == c + 8 - 0xFFFF)
  {
  }

  /** For a valid request of any length the reply validates exactly when the request has content. */
  lemma ReplyValidIff(m: seq<Byte>)
    requires |m| >= 4 && m[0] == ICMP_ECHO && Validates(m, true)
    ensures Validates(ReplyMessage(m), true) <==> HasContent(m)
  {
    var r := ReplyMessage(m);
    var c, c' := ChecksumField(m), ChecksumField(r);
    ValidInBothOrders(m);
    ValidInBothOrders(r);
    OnesSumIsFold(m, false);
    OnesSumIsFold(r, false);
    FoldIsFull(Total(m, false));
    FoldIsFull(Total(r, false));
    TotalOfHead(m);
    TotalOfHead(r);
    FieldOfReply(m);
    PatchedField(c);
    RestIsContent(m);
    assert Total(m, false) == Rest(m) + c && Total(r, false) == Rest(r) + c';
  }

  lemma FromScratchOfRest(m: seq<Byte>)
    requires |m| >= 4
    ensures FromScratch(m) == Not(Swap(Fold(Rest(m))))
  {
    var z := WithChecksum(m, 0);
    assert z[4..] == m[4..];
    TotalOfHead(z);
    OnesSumIsFold(z, false);
    ByteOrderIndependence(z);
  }

  lemma SwapOfNot(x: Word)
    ensures Swap(Not(x)) == Not(Swap(x))
  {
    var h, l := x / 0x100, x % 0x100;
    assert Not(x) == 0x100 * (0xFF - h) + (0xFF - l);
    assert Not(x) / 0x100 == 0xFF - h && Not(x) % 0x100 == 0xFF - l;
  }

  /** A message's field is the checksum computed from scratch exactly when it is the complement of the folded rest. */
  lemma CorrectChecksumIff(m: seq<Byte>)
    requires |m| >= 4
    ensures HasCorrectChecksum(m) <==> ChecksumField(m) == Not(Fold(Rest(m)))
  {
    hide Rest, Fold, Swap, Not, FromScratch;
    FromScratchOfRest(m);
    SwapOfNot(Fold(Rest(m)));
    SwapInjective(ChecksumField(m), Not(Fold(Rest(m))));
    NetworkOrder(m[2], m[3]);
  }

  lemma NetworkOrder(x: Byte, y: Byte)
    ensures WordOf(x, y, true) == Swap(WordOf(x, y, false))
  {
  }

  lemma SwapInjective(x: Word, y: Word)
    ensures Swap(x) == Swap(y) <==> x == y
  {
    SwapIsTimes256(x);
    SwapIsTimes256(y);
  }

  /** For a valid request the patched checksum equals the one computed from scratch under the same condition. */
  lemma ReplyChecksumFromScratchIff(m: seq<Byte>)
    requires |m| >= 4 && m[0] == ICMP_ECHO && Validates(m, true)
    ensures HasCorrectChecksum(ReplyMessage(m)) <==> HasContent(m)
  {
    hide OnesSum, Fold, HasContent, HasCorrectChecksum, Replaced;
    var r := ReplyMessage(m);
    var c, c', t := ChecksumField(m), ChecksumField(r), Rest(r);
    CorrectChecksumIff(r);
    ValidInBothOrders(m);
    OnesSumIsFold(m, false);
    FoldIsFull(Total(m, false));
    TotalOfHead(m);
    FieldOfReply(m);
    PatchedField(c);
    RestIsContent(m);
    assert (t + c') % 0xFFFF == 0;
    ComplementIff(t, c');
  }

  lemma ComplementIff(t: nat, c: Word)
    requires (t + c) % 0xFFFF == 0 && c != 0xFFFF
    ensures c == Not(Fold(t)) <==> t > 0
  {
  }

  /** The request with nothing but its type: its checksum validates, but that of the patched reply does not. */
  lemma EmptyEchoFails()
    ensures var m := [8, 0, 0xF7, 0xFF, 0, 0, 0, 0];
            Validates(m, true) && ReplyMessage(m) == [0, 0, 0, 0, 0, 0, 0, 0] && !Validates(ReplyMessage(m), true)
  {
    var m: seq<Byte> := [8, 0, 0xF7, 0xFF, 0, 0, 0, 0];
    assert ReplyMessage(m) == [0, 0, 0, 0, 0, 0, 0, 0];
    SumOfEight(m);
    SumOfEight(ReplyMessage(m));
  }

  lemma SumOfEight(m: seq<Byte>)
    requires |m| == 8
    ensures OnesSum(m, true) ==
            EndAround(WordOf(m[0], m[1], true),
              EndAround(WordOf(m[2], m[3], true),
                EndAround(WordOf(m[4], m[5], true), EndAround(WordOf(m[6], m[7], true), 0))))
  {
    assert m[2..][2..] == m[4..];
    assert m[4..][2..] == m[6..];
    assert m[6..][2..] == [];
    assert OnesSum(m[6..], true) == EndAround(WordOf(m[6], m[7], true), OnesSum([], true));
    assert OnesSum(m[4..], true) == EndAround(WordOf(m[4], m[5], true), OnesSum(m[6..], true));
    assert OnesSum(m[2..], true) == EndAround(WordOf(m[2], m[3], true), OnesSum(m[4..], true));
  }

  // ----- the packet

  const ETH_HLEN := 14
  const SIZEOF_IPHDR := 20
  const SIZEOF_ICMPHDR := 8
  const ICMP_OFFSET := 34
  /** The three headers process_packet overlays on the frame memory; the kernel's headroom leaves room for them. */
  const HEADERS := 42

  predicate IsIpv4(p: seq<Byte>)
    requires |p| >= HEADERS
  {
    p[12] == 0x08 && p[13] == 0x00
  }

  /** The checks of process_packet on the frame memory `p` and the received length. */
  predicate Accepts(p: seq<Byte>, len: nat)
    requires |p| >= HEADERS
  {
    && len >= ETH_HLEN && len >= SIZEOF_IPHDR && len >= SIZEOF_ICMPHDR
    && IsIpv4(p) && p[23] == 1 && p[ICMP_OFFSET] == ICMP_ECHO
  }

  /** Byte `i` of a frame after two regions of `n` bytes have traded places comes from here. */
  function Exchanged(i: nat, a: nat, b: nat, n: nat): nat
    requires a + n <= b
  {
    if a <= i < a + n then i + (b - a) else if b <= i < b + n then i - (b - a) else i
  }

  /** Byte `i` of the reply's Ethernet and IP headers: the MAC and the IP addresses trade places. */
  function Source(i: nat): nat {
    Exchanged(Exchanged(i, 26, 30, 4), 0, 6, 6)
  }

  /** `r` is the echo reply to `p`, byte by byte; the ICMP checksum is the patched one. */
  ghost predicate IsReply(p: seq<Byte>, r: seq<Byte>)
    requires |p| >= HEADERS
  {
    && |r| == |p|
    && (forall i :: 0 <= i < ICMP_OFFSET ==> r[i] == p[Source(i)])
    && r[ICMP_OFFSET..] == ReplyMessage(p[ICMP_OFFSET..])
  }

  /** What processing a packet of `len` bytes in the memory `p` leaves there. */
  ghost predicate Processed(p: seq<Byte>, len: nat, r: seq<Byte>)
    requires |p| >= HEADERS
  {
    if Accepts(p, len) then IsReply(p, r) else r == p
  }

  /** memcpy through a temporary: two regions of the frame at `at` trade places. */
  method SwapRegions(buffer: array<Byte>, at: nat, a: nat, b: nat, n: nat)
    requires a + n <= b && at + b + n <= buffer.Length
    modifies buffer
    ensures forall i :: 0 <= i < at ==> buffer[i] == old(buffer[i])
    ensures forall i :: at <= i < buffer.Length ==> buffer[i] == old(buffer[at + Exchanged(i - at, a, b, n)])
  {
    var tmp := buffer[at + a..at + a + n];
    forall k | 0 <= k < n {
      buffer[at + a + k] := buffer[at + b + k];
    }
    forall k | 0 <= k < n {
      buffer[at + b + k] := tmp[k];
    }
  }

  /** process_packet on the frame at `at`: the result says whether to transmit through the socket's own ring. */
  method ProcessPacket(buffer: array<Byte>, at: nat, len: nat, sendOk: bool) returns (transmit: bool, sent: bool)
    requires at + HEADERS <= buffer.Length
    modifies buffer
    ensures !transmit
    ensures sent <==> Accepts(old(buffer[at..]), len) && sendOk
    ensures buffer[..at] == old(buffer[..at])
    ensures if Accepts(old(buffer[at..]), len) then IsReply(old(buffer[at..]), buffer[at..])
            else buffer[..] == old(buffer[..])
    ensures var f := Parse(old(buffer[at..]));
            var echo := f.etherType == 0x0800 && f.protocol == 1 && f.icmpType == 8 && len >= 20;
            var c := f.icmpChecksum + 8;
            && (sent <==> echo && sendOk)
            && buffer[at..] == Assemble(if !echo then f else
                 f.(dst := f.src, src := f.dst, saddr := f.daddr, daddr := f.saddr,
                    icmpType := 0, icmpChecksum := if c < 0xFFFF then c else c - 0xFFFF))
  {
    hide Assemble, Parse, IsReply;
    ghost var p := buffer[at..];
    ParseAssembled(p);
    EchoByFields(p, len);
    transmit, sent := false, false;
    if len < ETH_HLEN {
      return;
    }
    if len < SIZEOF_IPHDR {
      return;
    }
    if len < SIZEOF_ICMPHDR {
      return;
    }
    if buffer[at + 12] as int * 0x100 + buffer[at + 13] != 0x0800 {
      return;
    }
    if buffer[at + 23] != 1 {
      return;
    }
    if buffer[at + ICMP_OFFSET] != ICMP_ECHO {
      return;
    }
    RewritePacket(buffer, at);
    ReplyByFields(p, buffer[at..]);
    if !sendOk {
      return;
    }
    sent := true;
  }

  /** The rewrite of an accepted packet. */
  method RewritePacket(buffer: array<Byte>, at: nat)
    requires at + HEADERS <= buffer.Length && buffer[at + ICMP_OFFSET] == ICMP_ECHO
    modifies buffer
    ensures buffer[..at] == old(buffer[..at]) && IsReply(old(buffer[at..]), buffer[at..])
  {
    hide ReplyMessage;
    SwapAddresses(buffer, at);
    ghost var p := buffer[at..];
    PatchMessage(buffer, at);
    assert old(buffer[at..])[ICMP_OFFSET..] == p[ICMP_OFFSET..];
    forall i | 0 <= i < ICMP_OFFSET ensures buffer[at..][i] == old(buffer[at..])[Source(i)] {
      assert buffer[at..][i] == buffer[at + i] == p[i];
    }
  }

  /** The memcpy calls: MAC addresses, then IP addresses. */
  method SwapAddresses(buffer: array<Byte>, at: nat)
    requires at + HEADERS <= buffer.Length
    modifies buffer
    ensures forall i :: 0 <= i < at || at + ICMP_OFFSET <= i < buffer.Length ==> buffer[i] == old(buffer[i])
    ensures forall i :: 0 <= i < ICMP_OFFSET ==> buffer[at + i] == old(buffer[at + Source(i)])
  {
    SwapRegions(buffer, at, 0, 6, 6);
    SwapRegions(buffer, at, 26, 30, 4);
  }

  /** The ICMP type and checksum. */
  method PatchMessage(buffer: array<Byte>, at: nat)
    requires at + HEADERS <= buffer.Length && buffer[at + ICMP_OFFSET] == ICMP_ECHO
    modifies buffer
    ensures forall i :: 0 <= i < at + ICMP_OFFSET ==> buffer[i] == old(buffer[i])
    ensures buffer[at..][ICMP_OFFSET..] == ReplyMessage(old(buffer[at..][ICMP_OFFSET..]))
  {
    hide ReplyMessage, Replaced;
    ghost var p := buffer[at..];
    buffer[at + 34] := ICMP_ECHOREPLY;
    var sum := CsumReplace2(WordOf(buffer[at + 36], buffer[at + 37], false), ICMP_ECHO, ICMP_ECHOREPLY);
    buffer[at + 36], buffer[at + 37] := sum % 0x100, sum / 0x100;
    MessageRewritten(p, buffer[at..], sum);
  }

  lemma MessageRewritten(p: seq<Byte>, r: seq<Byte>, sum: Word)
    requires |p| >= HEADERS && |r| == |p| && p[34] == ICMP_ECHO
    requires r[34] == ICMP_ECHOREPLY && r[35] == p[35] && forall i :: 38 <= i < |p| ==> r[i] == p[i]
    requires sum == Replaced(WordOf(p[36], p[37], false), ICMP_ECHO, ICMP_ECHOREPLY)
    requires r[36] == sum % 0x100 && r[37] == sum / 0x100
    ensures r[ICMP_OFFSET..] == ReplyMessage(p[ICMP_OFFSET..])
  {
  }

  // ----- what the reply is

  /** RFC 792: source and destination trade places, on both layers; all other header bytes stay. */
  lemma ReplySwapsAddresses(p: seq<Byte>, r: seq<Byte>)
    requires |p| >= HEADERS && IsReply(p, r)
    ensures r[0..6] == p[6..12] && r[6..12] == p[0..6]
    ensures r[26..30] == p[30..34] && r[30..34] == p[26..30]
    ensures r[12..26] == p[12..26]
  {
  }

  /** The type becomes 0, and code, identifier, sequence number and data are kept. */
  lemma ReplyKeepsData(p: seq<Byte>, r: seq<Byte>)
    requires |p| >= HEADERS && IsReply(p, r)
    ensures r[34] == ICMP_ECHOREPLY && r[35] == p[35] && r[38..] == p[38..]
  {
    var m := p[ICMP_OFFSET..];
    assert r[34] == r[ICMP_OFFSET..][0];
    assert r[35] == r[ICMP_OFFSET..][1] == m[1];
    forall i | 38 <= i < |p| ensures r[i] == p[i] {
      assert r[i] == r[ICMP_OFFSET..][i - 34] == m[i - 34];
    }
  }

  /** The reply is no echo request, so processing it again changes nothing. */
  lemma ReplyIsFinal(p: seq<Byte>, r: seq<Byte>, len: nat)
    requires |p| >= HEADERS && IsReply(p, r)
    ensures !Accepts(r, len)
  {
    ReplyKeepsData(p, r);
  }

  /** A valid IPv4 header of five words stays valid: the swap permutes its 16-bit words. */
  lemma HeaderChecksumKept(p: seq<Byte>, r: seq<Byte>)
    requires |p| >= HEADERS && IsReply(p, r)
    ensures Validates(r[14..34], true) <==> Validates(p[14..34], true)
  {
    ReplySwapsAddresses(p, r);
    var fixed, src, dst := p[14..26], p[26..30], p[30..34];
    assert p[14..34] == fixed + (src + dst);
    assert r[14..34] == fixed + (dst + src);
    TotalOfConcat(fixed, src + dst);
    TotalOfConcat(fixed, dst + src);
    TotalOfConcat(src, dst);
    TotalOfConcat(dst, src);
    OnesSumIsFold(p[14..34], true);
    OnesSumIsFold(r[14..34], true);
  }

  lemma {:induction false} TotalOfConcat(a: seq<Byte>, b: seq<Byte>)
    requires |a| % 2 == 0
    ensures Total(a + b, true) == Total(a, true) + Total(b, true)
  {
    if a == [] {
      assert a + b == b;
    } else {
      assert (a + b)[2..] == a[2..] + b;
      TotalOfConcat(a[2..], b);
    }
  }

  /** The ICMP message up to any end, as the IP total length gives it, is rewritten as a message of its own. */
  lemma MessagePart(p: seq<Byte>, r: seq<Byte>, end: nat)
    requires |p| >= HEADERS && IsReply(p, r) && ICMP_OFFSET + 4 <= end <= |p|
    ensures r[ICMP_OFFSET..end] == ReplyMessage(p[ICMP_OFFSET..end])
  {
    var m := p[ICMP_OFFSET..];
    assert p[ICMP_OFFSET..end] == m[..end - 34];
    assert r[ICMP_OFFSET..end] == r[ICMP_OFFSET..][..end - 34];
    assert ReplyMessage(m)[..end - 34] == ReplyMessage(m[..end - 34]);
  }

  /** End to end: the ICMP part of a processed packet validates exactly when it has content besides the checksum. */
  lemma ProcessedMessageValidIff(p: seq<Byte>, r: seq<Byte>, len: nat, end: nat)
    requires |p| >= HEADERS && Accepts(p, len) && IsReply(p, r) && ICMP_OFFSET + 4 <= end <= |p|
    requires Validates(p[ICMP_OFFSET..end], true)
    ensures Validates(r[ICMP_OFFSET..end], true) <==> HasContent(p[ICMP_OFFSET..end])
    ensures HasCorrectChecksum(r[ICMP_OFFSET..end]) <==> HasContent(p[ICMP_OFFSET..end])
  {
    MessagePart(p, r, end);
    ReplyValidIff(p[ICMP_OFFSET..end]);
    ReplyChecksumFromScratchIff(p[ICMP_OFFSET..end]);
  }

  /** Nothing behind the headers changes, so the reply to a packet is a matter of its frame alone. */
  lemma ProcessedInFrame(p: seq<Byte>, len: nat, r: seq<Byte>, n: nat)
    requires HEADERS <= n <= |p| && Processed(p, len, r)
    ensures Processed(p[..n], len, r[..n]) && |r| == |p| && r[n..] == p[n..]
    ensures Accepts(p[..n], len) <==> Accepts(p, len)
  {
    if Accepts(p, len) {
      ReplyKeepsData(p, r);
      MessagePart(p, r, n);
      assert p[..n][ICMP_OFFSET..] == p[ICMP_OFFSET..n] && r[..n][ICMP_OFFSET..] == r[ICMP_OFFSET..n];
      forall i | n <= i < |p| ensures r[i] == p[i] {
        assert r[i] == r[38..][i - 38] == p[38..][i - 38];
      }
      assert forall i :: 0 <= i < |p| - n ==> r[n..][i] == r[n + i];
    }
  }

  // ----- frames made of header fields

  /** The fields of an Ethernet frame with an IPv4 header of five words and an ICMP message. */
  datatype Fields = Fields(
    dst: seq<Byte>,
    src: seq<Byte>,
    etherType: Word,
    /** Version to time to live. */
    ipHead: seq<Byte>,
    protocol: Byte,
    ipChecksum: Word,
    saddr: seq<Byte>,
    daddr: seq<Byte>,
    icmpType: Byte,
    code: Byte,
    /** As the little-endian host reads it. */
    icmpChecksum: Word,
    /** Identifier, sequence number and data. */
    rest: seq<Byte>)

  predicate WellFormed(f: Fields) {
    |f.dst| == 6 && |f.src| == 6 && |f.ipHead| == 9 && |f.saddr| == 4 && |f.daddr| == 4 && |f.rest| >= 4
  }

  function BigEndian(w: Word): seq<Byte> { [w / 0x100, w % 0x100] }

  function Assemble(f: Fields): seq<Byte> {
    f.dst + f.src + BigEndian(f.etherType)
      + f.ipHead + [f.protocol] + BigEndian(f.ipChecksum) + f.saddr + f.daddr
      + [f.icmpType, f.code, f.icmpChecksum % 0x100, f.icmpChecksum / 0x100] + f.rest
  }

  function Parse(p: seq<Byte>): Fields
    requires |p| >= HEADERS
  {
    Fields(p[0..6], p[6..12], WordOf(p[12], p[13], true),
           p[14..23], p[23], WordOf(p[24], p[25], true), p[26..30], p[30..34],
           p[34], p[35], WordOf(p[36], p[37], false), p[38..])
  }

  /** Every frame is made of header fields, in one way. */
  lemma ParseAssembled(p: seq<Byte>)
    requires |p| >= HEADERS
    ensures WellFormed(Parse(p)) && Assemble(Parse(p)) == p
  {
  }

  lemma AssembledParse(f: Fields)
    requires WellFormed(f)
    ensures |Assemble(f)| >= HEADERS && Parse(Assemble(f)) == f
  {
    AssembledBytes(f);
  }

  lemma AssembledBytes(f: Fields)
    requires WellFormed(f)
    ensures var p := Assemble(f);
            && |p| == 38 + |f.rest|
            && p[0..6] == f.dst && p[6..12] == f.src && p[12..14] == BigEndian(f.etherType)
            && p[14..23] == f.ipHead && p[23] == f.protocol && p[24..26] == BigEndian(f.ipChecksum)
            && p[26..30] == f.saddr && p[30..34] == f.daddr
            && p[34] == f.icmpType && p[35] == f.code
            && p[36] == f.icmpChecksum % 0x100 && p[37] == f.icmpChecksum / 0x100 && p[38..] == f.rest
  {
  }

  /** What process_packet asks for, in terms of the fields. */
  lemma EchoByFields(p: seq<Byte>, len: nat)
    requires |p| >= HEADERS
    ensures var f := Parse(p);
            Accepts(p, len) <==> f.etherType == 0x0800 && f.protocol == 1 && f.icmpType == 8 && len >= 20
  {
  }

  /** The reply in terms of the fields: addresses trade places, type 0, and the checksum goes up by eight. */
  lemma ReplyByFields(p: seq<Byte>, r: seq<Byte>)
    requires |p| >= HEADERS && p[ICMP_OFFSET] == ICMP_ECHO && IsReply(p, r)
    ensures var f := Parse(p);
            var c := f.icmpChecksum + 8;
            r == Assemble(f.(dst := f.src, src := f.dst, saddr := f.daddr, daddr := f.saddr,
                             icmpType := 0, icmpChecksum := if c < 0xFFFF then c else c - 0xFFFF))
  {
    hide Assemble, Replaced;
    ReplySwapsAddresses(p, r);
    ReplyKeepsData(p, r);
    assert r[12..26][0] == r[12] == p[12] && r[12..26][1] == r[13] == p[13];
    assert r[14..23] == r[12..26][2..11] == p[12..26][2..11] == p[14..23];
    assert r[23] == r[12..26][11] == p[23];
    assert r[24] == r[12..26][12] == p[24] && r[25] == r[12..26][13] == p[25];
    ReplyIsTheOne(p, r);
    ReplyByte(p, 36);
    ReplyByte(p, 37);
    PatchedField(WordOf(p[36], p[37], false));
    ParseAssembled(r);
  }

  // ----- the length checks

  ghost predicate AgreeUpTo(p: seq<Byte>, q: seq<Byte>, len: nat) {
    forall i :: 0 <= i < len && i < |p| && i < |q| ==> p[i] == q[i]
  }

  /** Whether the first `len` bytes of the frame memory, the received ones, decide about acceptance. */
  ghost predicate DecidedByReceived(len: nat) {
    forall p: seq<Byte>, q: seq<Byte> :: |p| >= HEADERS && |q| >= HEADERS && AgreeUpTo(p, q, len) ==>
      Accepts(p, len) == Accepts(q, len)
  }

  /** The checks compare the length with each header alone, so lengths from 20 to 34 are judged by stale bytes. */
  lemma LengthChecksSufficeIff(len: nat)
    ensures DecidedByReceived(len) <==> len < 20 || len >= 35
  {
    if 20 <= len <= 34 {
      var z: seq<Byte> := seq(HEADERS, _ => 0);
      var p, q := z[12 := 0x08][23 := 1][34 := 8], z[12 := 0x08][23 := 1];
      assert Accepts(p, len) && !Accepts(q, len);
      assert forall i :: 0 <= i < len ==> p[i] == q[i];
    }
  }

  /** The bytes an accepted packet becomes. */
  function Reply(p: seq<Byte>): seq<Byte>
    requires |p| >= HEADERS
  {
    var m := ReplyMessage(p[ICMP_OFFSET..]);
    seq(|p|, i requires 0 <= i < |p| => if i < ICMP_OFFSET then p[Source(i)] else m[i - ICMP_OFFSET])
  }

  lemma ReplyIsTheOne(p: seq<Byte>, r: seq<Byte>)
    requires |p| >= HEADERS
    ensures IsReply(p, r) <==> r == Reply(p)
  {
    var m := ReplyMessage(p[ICMP_OFFSET..]);
    assert Reply(p)[ICMP_OFFSET..] == m;
    if IsReply(p, r) {
      forall i | 0 <= i < |p| ensures r[i] == Reply(p)[i] {
        assert i >= ICMP_OFFSET ==> r[i] == r[ICMP_OFFSET..][i - ICMP_OFFSET];
      }
    }
  }

  /** Whether the received bytes decide what is sent, if anything: the first `len` bytes of the reply. */
  ghost predicate SentByReceived(len: nat) {
    forall p: seq<Byte>, q: seq<Byte> :: |p| >= HEADERS && |q| >= HEADERS && AgreeUpTo(p, q, len) ==>
      && Accepts(p, len) == Accepts(q, len)
      && (Accepts(p, len) ==> AgreeUpTo(Reply(p), Reply(q), len))
  }

  /** Byte 36 and 37 of the reply are the patched checksum; every other byte comes from one byte of the request. */
  lemma ReplyByte(p: seq<Byte>, i: nat)
    requires |p| >= HEADERS && i < |p| && p[ICMP_OFFSET] == ICMP_ECHO
    ensures var c := Replaced(WordOf(p[36], p[37], false), ICMP_ECHO, ICMP_ECHOREPLY);
            Reply(p)[i] == if i < ICMP_OFFSET then p[Source(i)]
                           else if i == ICMP_OFFSET then ICMP_ECHOREPLY
                           else if i == 36 then c % 0x100 else if i == 37 then c / 0x100
                           else p[i]
  {
    hide Replaced;
    var m := p[ICMP_OFFSET..];
    assert m[2] == p[36] && m[3] == p[37];
    assert i >= ICMP_OFFSET ==> m[i - ICMP_OFFSET] == p[i];
  }

  lemma RepliesAgree(p: seq<Byte>, q: seq<Byte>, len: nat)
    requires |p| >= HEADERS && |q| >= HEADERS && AgreeUpTo(p, q, len) && Accepts(p, len) && Accepts(q, len)
    requires len >= 35 && len != 37
    ensures AgreeUpTo(Reply(p), Reply(q), len)
  {
    hide Replaced, Reply;
    assert |Reply(p)| == |p| && |Reply(q)| == |q| by { ReplyLength(p); ReplyLength(q); }
    forall i | 0 <= i < len && i < |p| && i < |q| ensures Reply(p)[i] == Reply(q)[i] {
      ReplyByte(p, i);
      ReplyByte(q, i);
      assert i < ICMP_OFFSET ==> Source(i) < ICMP_OFFSET;
    }
  }

  lemma ReplyLength(p: seq<Byte>)
    requires |p| >= HEADERS
    ensures |Reply(p)| == |p|
  {
  }

  /** Two requests of 37 received bytes that differ in the byte behind them, and so do the first 37 bytes of their
      replies. */
  lemma SplitChecksum() returns (p: seq<Byte>, q: seq<Byte>)
    ensures |p| == |q| == HEADERS && AgreeUpTo(p, q, 37) && Accepts(p, 37) && Accepts(q, 37)
    ensures Reply(p)[36] == 0xFF && Reply(q)[36] == 0 && !AgreeUpTo(Reply(p), Reply(q), 37)
  {
    var z: seq<Byte> := seq(HEADERS, _ => 0);
    p := z[12 := 0x08][23 := 1][34 := 8][36 := 0xF7];
    q := p[37 := 0xFF];
    ReplyByte(p, 36);
    ReplyByte(q, 36);
    PatchedField(0xF7);
    PatchedField(0xFFF7);
  }

  /** What is sent is a matter of the received bytes exactly when acceptance is and the checksum field has arrived as
      a whole or not at all. */
  lemma SentByReceivedIff(len: nat)
    ensures SentByReceived(len) <==> len < 20 || len == 35 || len == 36 || len >= 38
  {
    hide Reply, AgreeUpTo, Accepts;
    LengthChecksSufficeIff(len);
    if len == 37 {
      var p, q := SplitChecksum();
    }
    if len >= 35 && len != 37 {
      forall p: seq<Byte>, q: seq<Byte>
        | |p| >= HEADERS && |q| >= HEADERS && AgreeUpTo(p, q, len) && Accepts(p, len) && Accepts(q, len)
        ensures AgreeUpTo(Reply(p), Reply(q), len)
      {
        RepliesAgree(p, q, len);
      }
    }
    assert len < 20 ==> forall p: seq<Byte> :: |p| >= HEADERS ==> !Accepts(p, len) by { TooShort(len); }
  }

  lemma TooShort(len: nat)
    ensures len < 20 ==> forall p: seq<Byte> :: |p| >= HEADERS ==> !Accepts(p, len)
  {
  }
}
