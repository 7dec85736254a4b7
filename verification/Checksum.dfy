/** The three Internet checksum routines of the ICMP tool, and the sum RFC 1071 defines. */
module Checksum {

  type Byte = x: int | 0 <= x < 256
  type Word = x: int | 0 <= x < 0x1_0000

  const MAX_WORD: Word := 0xFFFF

  // ----- host memory

  datatype Order = LittleEndian | BigEndian

  /** `*(uint16_t *)p` on a host of the given byte order. */
  function Load(order: Order, a: Byte, b: Byte): Word {
    if order.LittleEndian? then a + 256 * b else 256 * a + b
  }

  /** The two bytes a stored word leaves in memory. */
  function Store(order: Order, w: Word): (Byte, Byte) {
    if order.LittleEndian? then (w % 256, w / 256) else (w / 256, w % 256)
  }

  /** What the loops add up: the aligned words, then an odd last byte as its own value. */
  function HostWords(order: Order, data: seq<Byte>): (ws: seq<Word>)
    ensures |ws| == (|data| + 1) / 2
    ensures forall i :: 0 <= i < |data| / 2 ==> ws[i] == Load(order, data[2 * i], data[2 * i + 1])
    ensures |data| % 2 == 1 ==> ws[|data| / 2] == data[|data| - 1]
  {
    seq(|data| / 2, (i: nat) requires i < |data| / 2 => Load(order, data[2 * i], data[2 * i + 1]))
      + if |data| % 2 == 1 then [data[|data| - 1]] else []
  }

  function Sum(ws: seq<Word>): nat {
    if ws == [] then 0 else Sum(ws[..|ws| - 1]) + ws[|ws| - 1]
  }

  // ----- RFC 1071, section 1

  /** 16-bit one's complement addition: the carry is added back in. */
  function OnesAdd(a: Word, b: Word): Word {
    if a + b <= 0xFFFF then a + b else a + b - 0xFFFF
  }

  function OnesSum(ws: seq<Word>): Word {
    if ws == [] then 0 else OnesAdd(OnesSum(ws[..|ws| - 1]), ws[|ws| - 1])
  }

  function RfcChecksum(ws: seq<Word>): Word {
    0xFFFF - OnesSum(ws)
  }

  /** The 16-bit representative of s modulo 65535; only 0 is represented by 0. */
  function Norm(s: nat): Word {
    if s == 0 then 0 else (s - 1) % 0xFFFF + 1
  }

  lemma NormFolds(s: nat)
    ensures Norm(s / 0x1_0000 + s % 0x1_0000) == Norm(s)
    ensures s <= 0xFFFF ==> Norm(s) == s
  {
  }

  lemma NormOfSum(s: nat, w: Word)
    ensures Norm(s + w) == OnesAdd(Norm(s), w)
  {
  }

  /** The one's complement sum is the plain sum modulo 65535. */
  lemma {:induction false} OnesSumIsNorm(ws: seq<Word>)
    ensures OnesSum(ws) == Norm(Sum(ws))
  {
    if ws == [] {
    } else {
      OnesSumIsNorm(ws[..|ws| - 1]);
      NormOfSum(Sum(ws[..|ws| - 1]), ws[|ws| - 1]);
    }
  }

  // ----- the routines

  const UINT32: nat := 0x1_0000_0000
  const UINT64: nat := 0x1_0000_0000_0000_0000

  function Wrap32(s: nat): nat {
    s % UINT32
  }

  function Wrap64(s: nat): nat {
    s % UINT64
  }

  /** What both 32-bit routines return, wrap-around of the accumulator included. */
  function Checksum32(ws: seq<Word>): Word {
    0xFFFF - Norm(Wrap32(Sum(ws)))
  }

  /** The accumulators after i words. */
  ghost function Acc32(ws: seq<Word>, i: nat): nat
    requires i <= |ws|
  {
    Wrap32(Sum(ws[..i]))
  }

  ghost function Acc64(ws: seq<Word>, i: nat): nat
    requires i <= |ws|
  {
    Wrap64(Sum(ws[..i]))
  }

  lemma WrapAdd32(s: nat, w: Word)
    ensures Wrap32(Wrap32(s) + w) == Wrap32(s + w)
  {
  }

  lemma WrapAdd64(s: nat, w: Word)
    ensures Wrap64(Wrap64(s) + w) == Wrap64(s + w)
  {
  }

  lemma Accumulate(ws: seq<Word>, i: nat)
    requires i < |ws|
    ensures Wrap32(Acc32(ws, i) + ws[i]) == Acc32(ws, i + 1)
    ensures Wrap64(Acc64(ws, i) + ws[i]) == Acc64(ws, i + 1)
  {
    assert ws[..i + 1][..i] == ws[..i];
    var s := Sum(ws[..i]);
    assert Sum(ws[..i + 1]) == s + ws[i];
    WrapAdd32(s, ws[i]);
    WrapAdd64(s, ws[i]);
  }

  lemma AccEnds(ws: seq<Word>)
    ensures Acc32(ws, 0) == Acc64(ws, 0) == 0
    ensures Acc32(ws, |ws|) == Wrap32(Sum(ws)) && Acc64(ws, |ws|) == Wrap64(Sum(ws))
    ensures Wrap32(Sum(ws)) < UINT32
  {
    assert ws[..0] == [] && ws[..|ws|] == ws;
  }

  lemma TwoFoldsSuffice(start: nat)
    requires start < UINT32
    ensures var t := start / 0x1_0000 + start % 0x1_0000;
      (t + t / 0x1_0000) % 0x1_0000 == Norm(start)
  {
  }

  /** The fixed two-step fold and complement of a 32-bit accumulator. */
  method TwoStepFold(start: nat) returns (r: Word)
    requires start < UINT32
    ensures r == 0xFFFF - Norm(start)
  {
    TwoFoldsSuffice(start);
    var sum := start;
    sum := sum / 0x1_0000 + sum % 0x1_0000;
    sum := sum + sum / 0x1_0000;
    r := 0xFFFF - sum % 0x1_0000;
  }

  lemma WordAt(order: Order, data: seq<Byte>, n: nat)
    ensures 2 * n + 1 < |data| ==>
      n < |HostWords(order, data)| && HostWords(order, data)[n] == Load(order, data[2 * n], data[2 * n + 1])
    ensures |data| == 2 * n + 1 ==>
      |HostWords(order, data)| == n + 1 && HostWords(order, data)[n] == data[2 * n]
    ensures |data| == 2 * n ==> |HostWords(order, data)| == n
  {
  }

  /** The overload the sender uses: counts words upward. */
  method CalculateChecksumOfChars(order: Order, data: seq<Byte>) returns (r: Word)
    ensures r == Checksum32(HostWords(order, data))
  {
    var sum := 0;
    ghost var ws := HostWords(order, data);
    AccEnds(ws);
    for i := 0 to |data| / 2
      invariant sum == Acc32(ws, i)
    {
      Accumulate(ws, i);
      sum := Wrap32(sum + Load(order, data[2 * i], data[2 * i + 1]));
    }
    if |data| % 2 == 1 {
      Accumulate(ws, |data| / 2);
      sum := Wrap32(sum + data[|data| - 1]);
    }
    r := TwoStepFold(sum);
  }

  /** The overload the receiver uses: counts the remaining length downward. */
  method CalculateChecksumOfVoid(order: Order, data: seq<Byte>) returns (r: Word)
    ensures r == Checksum32(HostWords(order, data))
  {
    var sum := 0;
    var len, buf := |data|, 0;
    ghost var ws := HostWords(order, data);
    ghost var n := 0;
    AccEnds(ws);
    hide HostWords, Load, Wrap32, Acc32;
    while len > 1
      invariant 0 <= len && len + buf == |data| && buf == 2 * n
      invariant sum == Acc32(ws, n)
    {
      WordAt(order, data, n);
      Accumulate(ws, n);
      n := n + 1;
      sum := Wrap32(sum + Load(order, data[buf], data[buf + 1]));
      buf := buf + 2;
      len := len - 2;
    }
    if len == 1 {
      WordAt(order, data, n);
      Accumulate(ws, n);
      sum := Wrap32(sum + data[buf]);
    } else {
      WordAt(order, data, n);
    }
    r := TwoStepFold(sum);
  }

  /** What the 64-bit routine reads: of an odd size, also two bytes past the end. */
  function BytesRead(data: seq<Byte>, past: (Byte, Byte)): seq<Byte> {
    if |data| % 2 == 0 then data else data + [past.0, past.1]
  }

  /** Folding until nothing is left above 16 bits, then the complement. */
  method LoopFold(start: nat) returns (r: Word)
    ensures r == 0xFFFF - Norm(start)
  {
    var sum := start;
    while sum / 0x1_0000 != 0
      invariant 0 <= sum && Norm(sum) == Norm(start)
      decreases sum
    {
      NormFolds(sum);
      sum := sum % 0x1_0000 + sum / 0x1_0000;
    }
    NormFolds(sum);
    r := 0xFFFF - sum;
  }

  /**
   The 64-bit routine with the fold loop.  Of an odd size its loop reads one byte too many, and the
   unsigned difference that should tell whether a byte is left wraps around, so one more is read.
   */
  method ComputeChecksum(order: Order, data: seq<Byte>, past: (Byte, Byte)) returns (r: Word)
    ensures r == 0xFFFF - Norm(Wrap64(Sum(HostWords(order, BytesRead(data, past)))))
  {
    var sum := 0;
    var i := 0;
    var buf := BytesRead(data, past);
    ghost var ws := HostWords(order, buf);
    ghost var n := 0;
    AccEnds(ws);
    hide Acc64, Wrap64, HostWords, Load;
    while i < |data|
      invariant 0 <= i <= |data| + 1 && i == 2 * n
      invariant sum == Acc64(ws, n)
    {
      WordAt(order, buf, n);
      Accumulate(ws, n);
      n := n + 1;
      sum := Wrap64(sum + Load(order, buf[i], buf[i + 1]));
      i := i + 2;
    }
    WordAt(order, buf, n);
    if (|data| - i) % UINT64 > 0 {
      Accumulate(ws, n);
      sum := Wrap64(sum + buf[i]);
    }
    r := LoopFold(sum);
  }

  // ----- agreement

  lemma {:induction false} SumBound(ws: seq<Word>)
    ensures Sum(ws) <= 0xFFFF * |ws|
  {
    if ws == [] {
    } else {
      SumBound(ws[..|ws| - 1]);
    }
  }

  lemma SmallMod(s: nat)
    requires s < UINT32
    ensures Wrap32(s) == Wrap64(s) == s
  {
  }

  /** Up to 65537 words all three routines return the RFC 1071 checksum. */
  lemma RoutinesAgree(ws: seq<Word>)
    requires |ws| <= 65537
    ensures Checksum32(ws) == RfcChecksum(ws)
    ensures 0xFFFF - Norm(Wrap64(Sum(ws))) == RfcChecksum(ws)
  {
    hide Norm, Sum, OnesSum;
    SumBound(ws);
    SmallMod(Sum(ws));
    OnesSumIsNorm(ws);
  }

  function Repeat(w: Word, n: nat): (ws: seq<Word>)
    ensures |ws| == n
  {
    seq(n, _ => w)
  }

  lemma {:induction false} SumRepeat(w: Word, n: nat)
    ensures Sum(Repeat(w, n)) == n * w
  {
    if n == 0 {
    } else {
      SumRepeat(w, n - 1);
      assert Repeat(w, n)[..n - 1] == Repeat(w, n - 1);
    }
  }

  lemma {:induction false} SumConcat(a: seq<Word>, b: seq<Word>)
    ensures Sum(a + b) == Sum(a) + Sum(b)
  {
    if b == [] {
      assert a + b == a;
    } else {
      SumConcat(a, b[..|b| - 1]);
      assert (a + b)[..|a + b| - 1] == a + b[..|b| - 1];
    }
  }

  /** The bound is exact: one word more and some buffer gets a wrong checksum. */
  lemma AgreementBoundIsExact(n: nat)
    ensures (forall ws: seq<Word> :: |ws| == n ==> Checksum32(ws) == RfcChecksum(ws)) <==> n <= 65537
  {
    if n <= 65537 {
      forall ws: seq<Word> | |ws| == n ensures Checksum32(ws) == RfcChecksum(ws) {
        RoutinesAgree(ws);
      }
    } else {
      var ws := Repeat(0xFFFF, 65538) + Repeat(0, n - 65538);
      SumConcat(Repeat(0xFFFF, 65538), Repeat(0, n - 65538));
      SumRepeat(0xFFFF, 65538);
      SumRepeat(0, n - 65538);
      OnesSumIsNorm(ws);
      assert Sum(ws) == UINT32 + 65534;
      assert |ws| == n && Checksum32(ws) != RfcChecksum(ws);
    }
  }

  // ----- byte order, RFC 1071 section 2(B)

  function Swap(w: Word): Word {
    256 * (w % 256) + w / 256
  }

  function SwapAll(ws: seq<Word>): (r: seq<Word>)
    ensures |r| == |ws|
  {
    seq(|ws|, (i: nat) requires i < |ws| => Swap(ws[i]))
  }

  lemma SwapIsTimes256(w: Word)
    ensures Swap(w) + 0xFFFF * (w / 256) == 256 * w
    ensures Swap(w) == 0 <==> w == 0
    ensures Swap(0xFFFF - w) == 0xFFFF - Swap(w)
  {
  }

  lemma SameResidue(x: Word, y: Word, k: int)
    requires x - y == 0xFFFF * k && (x == 0 <==> y == 0)
    ensures x == y
  {
  }

  lemma SwapAdds(a: Word, b: Word)
    ensures Swap(OnesAdd(a, b)) == OnesAdd(Swap(a), Swap(b))
  {
    SwapIsTimes256(a);
    SwapIsTimes256(b);
    var s, t := OnesAdd(a, b), OnesAdd(Swap(a), Swap(b));
    SwapIsTimes256(s);
    var carry, carry' := if s == a + b then 0 else 1, if t == Swap(a) + Swap(b) then 0 else 1;
    assert s == a + b - 0xFFFF * carry && t == Swap(a) + Swap(b) - 0xFFFF * carry';
    assert s == 0 <==> a == 0 && b == 0;
    assert t == 0 <==> Swap(a) == 0 && Swap(b) == 0;
    hide Swap, OnesAdd;
    SameResidue(Swap(s), t, a / 256 + b / 256 - s / 256 - 256 * carry + carry');
  }

  lemma {:induction false} OnesSumSwaps(ws: seq<Word>)
    ensures OnesSum(SwapAll(ws)) == Swap(OnesSum(ws))
  {
    if ws == [] {
    } else {
      var n := |ws| - 1;
      OnesSumSwaps(ws[..n]);
      SwapAdds(OnesSum(ws[..n]), ws[n]);
      assert SwapAll(ws)[..n] == SwapAll(ws[..n]);
    }
  }

  /** Byte-swapped words have the byte-swapped checksum. */
  lemma ChecksumSwaps(ws: seq<Word>)
    requires |ws| <= 65537
    ensures Checksum32(SwapAll(ws)) == Swap(Checksum32(ws))
  {
    OnesSumSwaps(ws);
    RoutinesAgree(ws);
    RoutinesAgree(SwapAll(ws));
    SwapIsTimes256(OnesSum(ws));
  }

  lemma LoadSwaps(a: Byte, b: Byte)
    ensures Load(LittleEndian, a, b) == Swap(Load(BigEndian, a, b))
  {
  }

  lemma StoreSwaps(w: Word)
    ensures Store(LittleEndian, Swap(w)) == Store(BigEndian, w)
  {
  }

  /** So the checksum bytes put on the wire do not depend on the host, for data of even length. */
  lemma WireBytesSameOnEveryHost(data: seq<Byte>)
    requires |data| % 2 == 0 && |data| <= 2 * 65537
    ensures Store(LittleEndian, Checksum32(HostWords(LittleEndian, data)))
      == Store(BigEndian, Checksum32(HostWords(BigEndian, data)))
  {
    hide Checksum32, Store, Swap;
    var big := HostWords(BigEndian, data);
    forall i | 0 <= i < |big| ensures HostWords(LittleEndian, data)[i] == Swap(big[i]) {
      LoadSwaps(data[2 * i], data[2 * i + 1]);
    }
    assert HostWords(LittleEndian, data) == SwapAll(big);
    ChecksumSwaps(big);
    StoreSwaps(Checksum32(big));
  }
}
