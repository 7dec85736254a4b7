/** The parts of Qt's binary stream that the .qip container uses. */
module QDataStream {

  type Byte = x: int | 0 <= x < 256

  /** A UTF-16 code unit. */
  type Unit = x: int | 0 <= x < 0x1_0000

  /** A QString: null strings have their own encoding but compare equal to the empty one. */
  datatype Text = Null | Chars(units: seq<Unit>) {
    predicate IsEmpty() {
      Null? || units == []
    }
  }

  const NULL_MARK: nat := 0xFFFF_FFFF
  const UINT32: nat := 0x1_0000_0000

  // ----- writing

  /** Four bytes, most significant first; a length is cast to 32 bits. */
  function PutU32(n: nat): (b: seq<Byte>)
    ensures |b| == 4
  {
    var hi, lo := n % UINT32 / 0x1_0000, n % 0x1_0000;
    [hi / 256, hi % 256, lo / 256, lo % 256]
  }

  function PutUnits(s: seq<Unit>): (b: seq<Byte>)
    ensures |b| == 2 * |s|
  {
    if s == [] then [] else [s[0] / 256, s[0] % 256] + PutUnits(s[1..])
  }

  function PutText(t: Text): seq<Byte> {
    match t
    case Null => PutU32(NULL_MARK)
    case Chars(units) => PutU32(2 * |units|) + PutUnits(units)
  }

  function PutBytes(b: seq<Byte>): seq<Byte> {
    PutU32(|b|) + b
  }

  // ----- the layout, byte by byte

  ghost predicate IsU32(b: seq<Byte>, n: nat) {
    |b| == 4 && 0x100_0000 * (b[0] as int) + 0x1_0000 * (b[1] as int) + 0x100 * (b[2] as int) + b[3] == n
  }

  lemma U32Layout(n: nat)
    requires n < UINT32
    ensures IsU32(PutU32(n), n)
  {
    var hi, lo := n / 0x1_0000, n % 0x1_0000;
    assert n == 0x1_0000 * hi + lo && hi == 256 * (hi / 256) + hi % 256 && lo == 256 * (lo / 256) + lo % 256;
  }

  ghost predicate IsUnit(a: Byte, b: Byte, u: Unit) {
    0x100 * (a as int) + b == u
  }

  lemma UnitLayout(u: Unit)
    ensures IsUnit(u / 256, u % 256, u)
  {
  }

  lemma {:induction false} UnitsLayout(s: seq<Unit>)
    ensures forall i :: 0 <= i < |s| ==> IsUnit(PutUnits(s)[2 * i], PutUnits(s)[2 * i + 1], s[i])
  {
    if s == [] {
    } else {
      UnitsLayout(s[1..]);
      UnitLayout(s[0]);
      hide IsUnit;
      var b, rest := PutUnits(s), PutUnits(s[1..]);
      assert b[2..] == rest;
      forall i | 0 < i < |s| ensures IsUnit(b[2 * i], b[2 * i + 1], s[i]) {
        var k := i - 1;
        assert IsUnit(rest[2 * k], rest[2 * k + 1], s[1..][k]);
        assert b[2 * i] == rest[2 * k] && b[2 * i + 1] == rest[2 * k + 1];
      }
    }
  }

  /** A string is the number of its bytes and its units, each high byte first; a null string is the mark alone. */
  lemma TextLayout(t: Text)
    requires t.Chars? ==> 2 * |t.units| < UINT32
    ensures t.Null? ==> PutText(t) == [255, 255, 255, 255]
    ensures t.Chars? ==>
      var b := PutText(t);
      |b| == 4 + 2 * |t.units| && IsU32(b[..4], 2 * |t.units|)
      && forall i :: 0 <= i < |t.units| ==> IsUnit(b[4 + 2 * i], b[5 + 2 * i], t.units[i])
  {
    if t.Chars? {
      hide PutU32;
      U32Layout(2 * |t.units|);
      UnitsLayout(t.units);
      var b, body := PutText(t), PutUnits(t.units);
      assert b[..4] == PutU32(2 * |t.units|) && b[4..] == body;
      forall i | 0 <= i < |t.units| ensures IsUnit(b[4 + 2 * i], b[5 + 2 * i], t.units[i]) {
        assert b[4 + 2 * i] == body[2 * i] && b[5 + 2 * i] == body[2 * i + 1];
      }
    }
  }

  // ----- reading

  /** What is left to read, and whether every read so far was complete and well formed. */
  datatype Reader = Reader(rest: seq<Byte>, ok: bool)

  predicate AtEnd(r: Reader) {
    r.rest == []
  }

  function BigEndian(a: nat, b: nat, c: nat, d: nat): nat {
    0x100_0000 * a + 0x1_0000 * b + 256 * c + d
  }

  /** A short read consumes what is there and gives zero. */
  function GetU32(r: Reader): (res: (Reader, nat))
    ensures |res.0.rest| <= |r.rest|
    ensures r.rest != [] ==> |res.0.rest| < |r.rest|
  {
    if |r.rest| < 4 then (Reader([], false), 0) else
      var b := r.rest;
      (Reader(b[4..], r.ok), BigEndian(b[0], b[1], b[2], b[3]))
  }

  function GetUnits(b: seq<Byte>): (s: seq<Unit>)
    requires |b| % 2 == 0
  {
    if b == [] then [] else [BigEndian(0, 0, b[0], b[1])] + GetUnits(b[2..])
  }

  function GetText(r: Reader): (res: (Reader, Text))
    ensures |res.0.rest| <= |r.rest|
    ensures r.rest != [] ==> |res.0.rest| < |r.rest|
  {
    var (q, len) := GetU32(r);
    if len == NULL_MARK then (q, Null)
    else if len % 2 == 1 then (q.(ok := false), Null)
    else if |q.rest| < len then (Reader([], false), Null)
    else (Reader(q.rest[len..], q.ok), Chars(GetUnits(q.rest[..len])))
  }

  function GetBytes(r: Reader): (res: (Reader, seq<Byte>))
    ensures |res.0.rest| <= |r.rest|
  {
    var (q, len) := GetU32(r);
    if len == NULL_MARK then (q, [])
    else if |q.rest| < len then (Reader([], false), [])
    else (Reader(q.rest[len..], q.ok), q.rest[..len])
  }

  // ----- reading back what was written

  lemma U32RoundTrip(n: nat, more: seq<Byte>, ok: bool)
    requires n < UINT32
    ensures GetU32(Reader(PutU32(n) + more, ok)) == (Reader(more, ok), n)
  {
  }

  lemma {:induction false} UnitsRoundTrip(s: seq<Unit>)
    ensures GetUnits(PutUnits(s)) == s
  {
    if s == [] {
    } else {
      UnitsRoundTrip(s[1..]);
      assert PutUnits(s)[2..] == PutUnits(s[1..]);
    }
  }

  /** Lengths that fit below the null mark. */
  predicate Fits(t: Text) {
    t.Chars? ==> 2 * |t.units| < NULL_MARK
  }

  lemma TextRoundTrip(t: Text, more: seq<Byte>, ok: bool)
    requires Fits(t)
    ensures GetText(Reader(PutText(t) + more, ok)) == (Reader(more, ok), t)
  {
    match t
    case Null =>
      U32RoundTrip(NULL_MARK, more, ok);
    case Chars(units) =>
      var body := PutUnits(units);
      assert PutText(t) + more == PutU32(2 * |units|) + (body + more);
      U32RoundTrip(2 * |units|, body + more, ok);
      assert (body + more)[..|body|] == body && (body + more)[|body|..] == more;
      UnitsRoundTrip(units);
  }

  lemma BytesRoundTrip(b: seq<Byte>, more: seq<Byte>, ok: bool)
    requires |b| < NULL_MARK
    ensures GetBytes(Reader(PutBytes(b) + more, ok)) == (Reader(more, ok), b)
  {
    assert PutBytes(b) + more == PutU32(|b|) + (b + more);
    U32RoundTrip(|b|, b + more, ok);
    assert (b + more)[..|b|] == b && (b + more)[|b|..] == more;
  }

  // ----- nothing but what was written reads

  lemma BytesOf(a: Byte, b: Byte)
    ensures (256 * (a as nat) + b) / 256 == a && (256 * (a as nat) + b) % 256 == b
  {
  }

  lemma UnitWhole(a: Byte, b: Byte)
    ensures BigEndian(0, 0, a, b) < 0x1_0000 && PutUnits([BigEndian(0, 0, a, b)]) == [a, b]
  {
    BytesOf(a, b);
    var u := BigEndian(0, 0, a, b);
    assert u / 256 == a && u % 256 == b;
    assert PutUnits([u][1..]) == [];
  }

  lemma PutUnitsStep(u: Unit, s: seq<Unit>)
    ensures PutUnits([u] + s) == PutUnits([u]) + PutUnits(s)
  {
    assert ([u] + s)[1..] == s && PutUnits([u][1..]) == [];
  }

  lemma {:induction false} UnitsWhole(b: seq<Byte>)
    requires |b| % 2 == 0
    ensures PutUnits(GetUnits(b)) == b && 2 * |GetUnits(b)| == |b|
  {
    hide PutUnits, BigEndian;
    if b == [] {
      assert PutUnits([]) == [];
    } else {
      var rest := b[2..];
      UnitsWhole(rest);
      UnitWhole(b[0], b[1]);
      PutUnitsStep(BigEndian(0, 0, b[0], b[1]), GetUnits(rest));
      assert b == [b[0], b[1]] + rest;
    }
  }

  lemma HalvesOf(hi: nat, lo: nat)
    requires lo < 0x1_0000
    ensures (0x1_0000 * hi + lo) / 0x1_0000 == hi && (0x1_0000 * hi + lo) % 0x1_0000 == lo
  {
  }

  lemma U32Whole(b: seq<Byte>)
    requires |b| == 4
    ensures var n := BigEndian(b[0], b[1], b[2], b[3]); n < UINT32 && PutU32(n) == b
  {
    var hi, lo := 256 * (b[0] as nat) + b[1], 256 * (b[2] as nat) + b[3];
    var n := 0x1_0000 * hi + lo;
    assert n == BigEndian(b[0], b[1], b[2], b[3]);
    HalvesOf(hi, lo);
    BytesOf(b[0], b[1]);
    BytesOf(b[2], b[3]);
    assert n % UINT32 == n;
  }

  lemma ReadU32Whole(r: Reader)
    requires GetU32(r).0.ok
    ensures var (q, n) := GetU32(r); r.ok && n < UINT32 && r.rest == PutU32(n) + q.rest
  {
    hide PutU32, BigEndian;
    assert r.rest == r.rest[..4] + r.rest[4..];
    U32Whole(r.rest[..4]);
  }

  /** A string that reads without complaint was written there. */
  lemma TextWhole(r: Reader)
    requires GetText(r).0.ok
    ensures var (q, t) := GetText(r); r.ok && Fits(t) && r.rest == PutText(t) + q.rest
  {
    hide GetU32, PutU32, GetUnits, PutUnits;
    var (q, len) := GetU32(r);
    ReadU32Whole(r);
    if len != NULL_MARK {
      var body, more := q.rest[..len], q.rest[len..];
      UnitsWhole(body);
      assert q.rest == body + more;
      assert PutU32(len) + (body + more) == PutU32(len) + body + more;
    }
  }
}
