/** Building an echo request, verifying a received packet, and what the verification detects. */
module IcmpPacket {
  import opened Checksum

  const ICMP_ECHO: Byte := 8
  const FILL: Byte := 'A' as int
  const HEADER := 8
  const OVERHEAD := 14 + 20 + 8

  /** htons: the low 16 bits of a value, high byte first in memory. */
  function NetworkBytes(v: int): (r: seq<Byte>)
    ensures |r| == 2 && 256 * (r[0] as int) + r[1] == v % 0x1_0000
  {
    var w := v % 0x1_0000;
    [w / 256, w % 256]
  }

  function Fill(n: nat): (r: seq<Byte>)
    ensures |r| == n && forall i :: 0 <= i < n ==> r[i] == FILL
  {
    seq(n, _ => FILL)
  }

  /** The packet with its checksum field holding the given word. */
  function WithChecksum(order: Order, data: seq<Byte>, c: Word): (r: seq<Byte>)
    requires |data| >= 4
    ensures |r| == |data| && r[..2] == data[..2] && r[4..] == data[4..]
  {
    data[2 := Store(order, c).0][3 := Store(order, c).1]
  }

  function ChecksumField(order: Order, data: seq<Byte>): Word
    requires |data| >= 4
  {
    Load(order, data[2], data[3])
  }

  /** The receiver's test: the field equals the checksum of the packet with the field zeroed. */
  predicate Accepts(order: Order, data: seq<Byte>)
    requires |data| >= 4
  {
    ChecksumField(order, data) == Checksum32(HostWords(order, WithChecksum(order, data, 0)))
  }

  /** What the packet carries apart from its checksum: type 8, id and sequence high byte first, then 'A's. */
  ghost predicate EchoRequest(packet: seq<Byte>, packetId: int, sequence: int, packetSize: nat) {
    && |packet| == (if packetSize == 0 then 8 else packetSize - 34)
    && |packet| >= 8 && packet[0] == 8 && packet[1] == 0
    && 256 * (packet[4] as int) + packet[5] == packetId % 65536
    && 256 * (packet[6] as int) + packet[7] == sequence % 65536
    && forall i :: 8 <= i < |packet| ==> packet[i] == 65
  }

  /** The header with its checksum field still zero. */
  function EchoHeader(packetId: int, sequence: int): (r: seq<Byte>)
    ensures |r| == HEADER && r[..4] == [ICMP_ECHO, 0, 0, 0]
    ensures r[4..] == NetworkBytes(packetId) + NetworkBytes(sequence)
  {
    [ICMP_ECHO, 0, 0, 0] + NetworkBytes(packetId) + NetworkBytes(sequence)
  }

  lemma FilledHeader(packetId: int, sequence: int, n: nat)
    ensures var p := EchoHeader(packetId, sequence) + Fill(n);
      && EchoHeader(packetId, sequence) + Fill(0) == EchoHeader(packetId, sequence)
      && p[..2] == [ICMP_ECHO, 0] && p[2] == p[3] == 0
      && p[4..] == NetworkBytes(packetId) + NetworkBytes(sequence) + Fill(n)
  {
  }

  lemma ZeroFieldUnchanged(order: Order, data: seq<Byte>)
    requires |data| >= 4 && data[2] == data[3] == 0
    ensures WithChecksum(order, data, 0) == data
  {
  }

  lemma StoreThenLoad(order: Order, w: Word)
    ensures Load(order, Store(order, w).0, Store(order, w).1) == w
  {
  }

  /** Any packet whose field holds the sender's checksum passes the check made with the other routine. */
  lemma StampedIsAccepted(order: Order, data: seq<Byte>)
    requires |data| >= 4
    ensures Accepts(order, WithChecksum(order, data, Checksum32(HostWords(order, WithChecksum(order, data, 0)))))
  {
    var c := Checksum32(HostWords(order, WithChecksum(order, data, 0)));
    assert WithChecksum(order, WithChecksum(order, data, c), 0) == WithChecksum(order, data, 0);
    StoreThenLoad(order, c);
  }

  /** The end of packet creation: compute the checksum and copy the header over the packet's front. */
  method Stamp(order: Order, unstamped: seq<Byte>) returns (packet: seq<Byte>)
    requires |unstamped| >= HEADER && unstamped[2] == unstamped[3] == 0
    ensures |packet| == |unstamped| && packet[..2] == unstamped[..2] && packet[4..] == unstamped[4..]
    ensures Accepts(order, packet)
  {
    ZeroFieldUnchanged(order, unstamped);
    var checksum := CalculateChecksumOfChars(order, unstamped);
    StampedIsAccepted(order, unstamped);
    hide Accepts, Checksum32, HostWords, Store;
    var header := WithChecksum(order, unstamped[..HEADER], checksum);
    packet := header + unstamped[|header|..];
    assert packet == WithChecksum(order, unstamped, checksum);
  }

  /** IPv4 only.  A packet size from 1 to 41 would wrap around to a size of about 4 GB. */
  method CreateIcmpPacket(order: Order, packetId: int, sequence: int, packetSize: nat) returns (packet: seq<Byte>)
    requires packetSize == 0 || packetSize >= OVERHEAD
    ensures EchoRequest(packet, packetId, sequence, packetSize)
    ensures Accepts(order, packet)
  {
    var header := EchoHeader(packetId, sequence);
    packet := header;
    if packetSize > 0 {
      var appendSize := packetSize - OVERHEAD;
      if appendSize > 0 {
        packet := packet + Fill(appendSize);
      }
    }
    hide Fill, NetworkBytes, Accepts, Checksum32, HostWords, Store;
    FilledHeader(packetId, sequence, |packet| - HEADER);
    assert packet == EchoHeader(packetId, sequence) + Fill(|packet| - HEADER);
    packet := Stamp(order, packet);
  }

  /** The receiver's check, which zeroes the field in the receive buffer. */
  method VerifyReply(order: Order, icmp: array<Byte>) returns (ok: bool)
    requires icmp.Length >= 4
    modifies icmp
    ensures ok == Accepts(order, old(icmp[..]))
    ensures icmp[..] == WithChecksum(order, old(icmp[..]), 0)
  {
    var received := Load(order, icmp[2], icmp[3]);
    icmp[2], icmp[3] := 0, 0;
    assert icmp[..] == WithChecksum(order, old(icmp[..]), 0);
    var calculated := CalculateChecksumOfVoid(order, icmp[..]);
    ok := received == calculated;
  }

  // ----- words and bytes

  /** A packet with one aligned word replaced. */
  function ReplaceWord(order: Order, data: seq<Byte>, i: nat, w: Word): (r: seq<Byte>)
    requires i < |data| / 2
    ensures |r| == |data|
  {
    data[2 * i := Store(order, w).0][2 * i + 1 := Store(order, w).1]
  }

  lemma ReplaceWordInWords(order: Order, data: seq<Byte>, i: nat, w: Word)
    requires i < |data| / 2
    ensures HostWords(order, ReplaceWord(order, data, i, w)) == HostWords(order, data)[i := w]
  {
  }

  lemma {:induction false} SumReplace(ws: seq<Word>, i: nat, w: Word)
    requires i < |ws|
    ensures Sum(ws[i := w]) == Sum(ws) - ws[i] + w
  {
    var n := |ws| - 1;
    if i == n {
      assert ws[i := w][..n] == ws[..n];
    } else {
      SumReplace(ws[..n], i, w);
      assert ws[i := w][..n] == ws[..n][i := w];
    }
  }

  /** The sum of everything but the checksum field. */
  function Rest(order: Order, data: seq<Byte>): nat
    requires |data| >= 4
  {
    Sum(HostWords(order, WithChecksum(order, data, 0)))
  }

  lemma RestAndField(order: Order, data: seq<Byte>, c: Word)
    requires |data| >= 4
    ensures Sum(HostWords(order, WithChecksum(order, data, c))) == Rest(order, data) + c
    ensures Sum(HostWords(order, data)) == Rest(order, data) + ChecksumField(order, data)
    ensures Rest(order, WithChecksum(order, data, c)) == Rest(order, data)
    ensures ChecksumField(order, WithChecksum(order, data, c)) == c
  {
    var ws := HostWords(order, data);
    assert WithChecksum(order, data, c) == ReplaceWord(order, data, 1, c);
    assert WithChecksum(order, data, 0) == ReplaceWord(order, data, 1, 0);
    assert WithChecksum(order, WithChecksum(order, data, c), 0) == WithChecksum(order, data, 0);
    ReplaceWordInWords(order, data, 1, c);
    ReplaceWordInWords(order, data, 1, 0);
    SumReplace(ws, 1, c);
    SumReplace(ws, 1, 0);
    StoreThenLoad(order, c);
  }

  // ----- what the check accepts

  lemma AllOnesArithmetic(n: Word, c: Word)
    ensures c == 0xFFFF - n <==> OnesAdd(n, c) == 0xFFFF && !(c == 0xFFFF && n == 0xFFFF)
  {
  }

  lemma AcceptsMeans(order: Order, data: seq<Byte>)
    requires 4 <= |data| <= 2 * 65537
    ensures Accepts(order, data) <==> ChecksumField(order, data) == 0xFFFF - Norm(Rest(order, data))
  {
    hide Norm, HostWords, Sum, WithChecksum;
    SumBound(HostWords(order, WithChecksum(order, data, 0)));
    SmallMod(Rest(order, data));
  }

  /**
   RFC 1071 verifies that the one's complement sum over everything is all ones.  Every accepted
   packet meets that; the zero-and-recompute test refuses only the other spelling of zero, a
   field of 0xFFFF where 0 was computed.
   */
  lemma AcceptedIffSumIsAllOnes(order: Order, data: seq<Byte>)
    requires 4 <= |data| <= 2 * 65537
    ensures Accepts(order, data) <==>
      OnesSum(HostWords(order, data)) == 0xFFFF
      && !(ChecksumField(order, data) == 0xFFFF && Norm(Rest(order, data)) == 0xFFFF)
  {
    hide *;
    var r, c := Rest(order, data), ChecksumField(order, data);
    AcceptsMeans(order, data);
    RestAndField(order, data, 0);
    OnesSumIsNorm(HostWords(order, data));
    NormOfSum(r, c);
    AllOnesArithmetic(Norm(r), c);
  }

  // ----- what the check detects

  lemma RestAfterReplace(order: Order, data: seq<Byte>, i: nat, w: Word)
    requires |data| >= 4 && i < |data| / 2
    ensures var data' := ReplaceWord(order, data, i, w);
      if i == 1 then
        Rest(order, data') == Rest(order, data) && ChecksumField(order, data') == w
      else
        Rest(order, data') == Rest(order, data) - HostWords(order, data)[i] + w
        && ChecksumField(order, data') == ChecksumField(order, data)
  {
    var data' := ReplaceWord(order, data, i, w);
    if i == 1 {
      assert data' == WithChecksum(order, data, w);
      RestAndField(order, data, w);
    } else {
      var zeroed := WithChecksum(order, data, 0);
      assert WithChecksum(order, data', 0) == ReplaceWord(order, zeroed, i, w);
      ReplaceWordInWords(order, zeroed, i, w);
      SumReplace(HostWords(order, zeroed), i, w);
    }
  }

  lemma NormResidue(s: nat)
    ensures Norm(s) % 0xFFFF == s % 0xFFFF && (Norm(s) == 0 <==> s == 0)
  {
  }

  lemma NormEqual(a: nat, b: nat)
    ensures Norm(a) == Norm(b) <==> a % 0xFFFF == b % 0xFFFF && (a == 0 <==> b == 0)
  {
    hide Norm;
    NormResidue(a);
    NormResidue(b);
  }

  lemma DifferenceResidue(a: nat, b: nat, x: Word, y: Word)
    requires a - b == x - y
    ensures a % 0xFFFF == b % 0xFFFF <==> x % 0xFFFF == y % 0xFFFF
  {
  }

  /**
   Replacing one aligned word of an accepted packet goes unnoticed exactly when the new word is
   congruent modulo 65535 and does not turn the rest of the packet to or from all zeros; a
   replaced checksum field is always noticed.
   */
  lemma ReplacedWordDetected(order: Order, data: seq<Byte>, i: nat, w: Word)
    requires 4 <= |data| <= 2 * 65537 && i < |data| / 2 && Accepts(order, data)
    ensures var data' := ReplaceWord(order, data, i, w); var old' := HostWords(order, data)[i];
      Accepts(order, data') <==>
        if i == 1 then w == old'
        else w % 0xFFFF == old' % 0xFFFF && (Rest(order, data) == 0 <==> Rest(order, data') == 0)
  {
    hide Accepts, HostWords, Rest;
    var data' := ReplaceWord(order, data, i, w);
    AcceptsMeans(order, data);
    AcceptsMeans(order, data');
    RestAfterReplace(order, data, i, w);
    if i != 1 {
      NormEqual(Rest(order, data), Rest(order, data'));
      DifferenceResidue(Rest(order, data), Rest(order, data'), HostWords(order, data)[i], w);
    }
  }

  lemma {:induction false} SumAtLeast(ws: seq<Word>, i: nat)
    requires i < |ws|
    ensures Sum(ws) >= ws[i]
  {
    if i < |ws| - 1 {
      SumAtLeast(ws[..|ws| - 1], i);
    }
  }

  lemma WordInRest(order: Order, data: seq<Byte>, j: nat)
    requires |data| >= 4 && j < |data| / 2 && j != 1 && HostWords(order, data)[j] != 0
    ensures Rest(order, data) > 0
  {
    var ws := HostWords(order, WithChecksum(order, data, 0));
    assert ws[j] == Load(order, data[2 * j], data[2 * j + 1]);
    SumAtLeast(ws, j);
  }

  lemma TypeWordInRest(order: Order, data: seq<Byte>)
    requires |data| >= 4 && data[0] == ICMP_ECHO && data[1] == 0
    ensures Rest(order, data) > 0
  {
    assert HostWords(order, data)[0] == Load(order, data[0], data[1]);
    WordInRest(order, data, 0);
  }

  /** For the packets the sender builds, whose type word is not zero, congruence decides alone. */
  lemma EchoRequestDetects(order: Order, data: seq<Byte>, i: nat, w: Word)
    requires 4 <= |data| <= 2 * 65537 && i < |data| / 2 && Accepts(order, data)
    requires data[0] == ICMP_ECHO && data[1] == 0
    ensures Accepts(order, ReplaceWord(order, data, i, w)) <==>
      if i == 1 then w == HostWords(order, data)[1]
      else w % 0xFFFF == HostWords(order, data)[i] % 0xFFFF
  {
    hide Accepts, HostWords, Rest;
    ReplacedWordDetected(order, data, i, w);
    TypeWordInRest(order, data);
    if i == 0 {
      RestAfterReplace(order, data, i, w);
    } else {
      TypeWordInRest(order, ReplaceWord(order, data, i, w));
    }
  }

  /** Some aligned word besides the checksum field and word i is not zero. */
  ghost predicate OtherWordSet(order: Order, data: seq<Byte>, i: nat) {
    exists j: nat :: j < |data| / 2 && j != 1 && j != i && HostWords(order, data)[j] != 0
  }

  /** For any packet, such as a reply of type 0, congruence decides alone if another word is not zero. */
  lemma ReplyDetects(order: Order, data: seq<Byte>, i: nat, w: Word)
    requires 4 <= |data| <= 2 * 65537 && i < |data| / 2 && Accepts(order, data)
    requires OtherWordSet(order, data, i)
    ensures Accepts(order, ReplaceWord(order, data, i, w)) <==>
      if i == 1 then w == HostWords(order, data)[1]
      else w % 0xFFFF == HostWords(order, data)[i] % 0xFFFF
  {
    hide Accepts, HostWords, Rest, ReplaceWord;
    var j: nat :| j < |data| / 2 && j != 1 && j != i && HostWords(order, data)[j] != 0;
    ReplacedWordDetected(order, data, i, w);
    WordInRest(order, data, j);
    ReplaceWordInWords(order, data, i, w);
    WordInRest(order, ReplaceWord(order, data, i, w), j);
  }

  // ----- odd lengths

  lemma SumAppend(ws: seq<Word>, w: Word)
    ensures Sum(ws + [w]) == Sum(ws) + w
  {
  }

  /** Both overloads add an odd last byte as it stands; a zero pad after it gives RFC 1071's word. */
  lemma PaddedSum(order: Order, data: seq<Byte>)
    requires |data| % 2 == 1
    ensures var last: int := data[|data| - 1]; var before := Sum(HostWords(order, data[..|data| - 1]));
      && Sum(HostWords(order, data)) == before + last
      && Sum(HostWords(order, data + [0])) == before + if order.LittleEndian? then last else 256 * last
  {
    var n := |data| / 2;
    var ws, padded := HostWords(order, data), HostWords(order, data + [0]);
    var init := HostWords(order, data[..|data| - 1]);
    assert ws == init + [data[2 * n]];
    assert padded == init + [Load(order, data[2 * n], 0)];
    SumAppend(init, data[2 * n]);
    SumAppend(init, Load(order, data[2 * n], 0));
  }

  lemma ByteTimes255(s: nat, b: Byte)
    requires b <= s
    ensures s % 0xFFFF == (s + 255 * b) % 0xFFFF <==> b == 0
  {
  }

  /**
   On a little-endian host an odd packet has the checksum of the zero-padded one; on a big-endian
   host that holds only if the odd byte is itself zero.
   */
  lemma OddLengthIsPaddedIff(order: Order, data: seq<Byte>)
    requires |data| % 2 == 1 && |data| + 1 <= 2 * 65537
    ensures Checksum32(HostWords(order, data)) == Checksum32(HostWords(order, data + [0]))
      <==> order.LittleEndian? || data[|data| - 1] == 0
  {
    hide HostWords, Sum, Norm;
    PaddedSum(order, data);
    SumBound(HostWords(order, data));
    SumBound(HostWords(order, data + [0]));
    SmallMod(Sum(HostWords(order, data)));
    SmallMod(Sum(HostWords(order, data + [0])));
    var a, b := Sum(HostWords(order, data)), Sum(HostWords(order, data + [0]));
    NormEqual(a, b);
    ByteTimes255(a, data[|data| - 1]);
  }

  lemma OverreadSum(order: Order, data: seq<Byte>, past: (Byte, Byte))
    requires |data| % 2 == 1
    ensures Sum(HostWords(order, BytesRead(data, past))) == Sum(HostWords(order, data + [0]))
      + (if order.LittleEndian? then 256 * past.0 else past.0) + past.1
  {
    var n := |data| / 2;
    var read, padded := HostWords(order, BytesRead(data, past)), HostWords(order, data + [0]);
    var init := HostWords(order, data[..|data| - 1]);
    assert padded == init + [Load(order, data[2 * n], 0)];
    assert read == (init + [Load(order, data[2 * n], past.0)]) + [past.1];
    SumAppend(init, Load(order, data[2 * n], 0));
    SumAppend(init, Load(order, data[2 * n], past.0));
    SumAppend(init + [Load(order, data[2 * n], past.0)], past.1);
  }

  lemma Fits64(s: nat)
    requires s < UINT64
    ensures Wrap64(s) == s
  {
  }

  lemma SmallExcess(a: nat, d: nat)
    requires d <= 0xFFFF
    ensures a % 0xFFFF == (a + d) % 0xFFFF <==> d == 0 || d == 0xFFFF
  {
  }

  /** Of an odd size the 64-bit routine is right exactly for these two pairs of bytes behind the buffer. */
  lemma OverreadHarmlessIff(order: Order, data: seq<Byte>, past: (Byte, Byte))
    requires |data| % 2 == 1 && |data| + 1 <= 2 * 65537
    ensures 0xFFFF - Norm(Wrap64(Sum(HostWords(order, BytesRead(data, past)))))
        == RfcChecksum(HostWords(order, data + [0]))
      <==> past == (0, 0)
           || (order.LittleEndian? && past == (255, 255) && Sum(HostWords(order, data + [0])) > 0)
  {
    hide HostWords, Sum, Norm, OnesSum, BytesRead;
    OverreadSum(order, data, past);
    SumBound(HostWords(order, data + [0]));
    var a, b := Sum(HostWords(order, data + [0])), Sum(HostWords(order, BytesRead(data, past)));
    SmallMod(a);
    OnesSumIsNorm(HostWords(order, data + [0]));
    NormEqual(a, b);
    SmallExcess(a, b - a);
    Fits64(b);
  }
}
