/** The checksum of the link to the heater processor (Shared/src/LpcProtocol.cpp):
    CRC-8 with polynomial 0x07. */
module Crc8 {
  type Byte = bv8

  function Xor(a: Byte, b: Byte): Byte { a ^ b }

  lemma XorUndone(a: Byte, x: Byte)
    ensures Xor(Xor(a, x), x) == a && Xor(Xor(a, x), a) == x
  {
  }

  lemma XorCancels(a: Byte, b: Byte, x: Byte, y: Byte)
    requires Xor(a, x) == Xor(b, y)
    ensures a == b <==> x == y
  {
    hide Xor;
    XorUndone(a, x);
    XorUndone(b, y);
  }

  lemma XorOfSame(a: Byte)
    ensures Xor(a, a) == 0
  {
  }

  /** One round of the loop: a step of the shift register. */
  function Shift(crc: Byte): Byte {
    if crc & 0x80 != 0 then (crc << 1) ^ 0x07 else crc << 1
  }

  function Shifts(crc: Byte, n: nat): Byte {
    if n == 0 then crc else Shift(Shifts(crc, n - 1))
  }

  function Update(crc: Byte, value: Byte): Byte {
    Shifts(Xor(crc, value), 8)
  }

  /** UpdateCrc */
  method UpdateCrc(crc: Byte, value: Byte) returns (result: Byte)
    ensures result == Update(crc, value)
  {
    result := Xor(crc, value);
    for bit := 0 to 8
      invariant result == Shifts(Xor(crc, value), bit)
    {
      result := if result & 0x80 != 0 then (result << 1) ^ 0x07 else result << 1;
    }
  }

  function Crc(crc: Byte, bytes: seq<Byte>): Byte {
    if bytes == [] then crc else Update(Crc(crc, bytes[..|bytes|-1]), bytes[|bytes|-1])
  }

  lemma CrcOneMore(crc: Byte, bytes: seq<Byte>, b: Byte)
    ensures Crc(crc, bytes + [b]) == Update(Crc(crc, bytes), b)
  {
    assert (bytes + [b])[..|bytes|] == bytes;
  }

  // The register can be run backwards, so no two words lead to the same one.

  lemma ShiftInjective(a: Byte, b: Byte)
    requires Shift(a) == Shift(b)
    ensures a == b
  {
  }

  lemma {:induction false} ShiftsInjective(a: Byte, b: Byte, n: nat)
    requires Shifts(a, n) == Shifts(b, n)
    ensures a == b
  {
    if n == 0 {
    } else {
      hide Shift;
      ShiftInjective(Shifts(a, n - 1), Shifts(b, n - 1));
      ShiftsInjective(a, b, n - 1);
    }
  }

  /** Two registers, or two bytes, that differ still do so after the update. */
  lemma UpdateInjective(a: Byte, b: Byte, x: Byte, y: Byte)
    requires Update(a, x) == Update(b, y)
    ensures a == b <==> x == y
  {
    hide Shifts, Xor;
    ShiftsInjective(Xor(a, x), Xor(b, y), 8);
    XorCancels(a, b, x, y);
  }

  /** Bytes that differ in one place have different checksums. */
  lemma {:induction false} OneChangeShows(crc: Byte, a: seq<Byte>, b: seq<Byte>, k: nat)
    requires |a| == |b| && k < |a| && a[k] != b[k]
    requires forall i :: 0 <= i < |a| && i != k ==> a[i] == b[i]
    ensures Crc(crc, a) != Crc(crc, b)
    decreases |a|
  {
    hide Update;
    var n := |a| - 1;
    if k == n {
      assert a[..n] == b[..n];
    } else {
      OneChangeShows(crc, a[..n], b[..n], k);
    }
    if Crc(crc, a) == Crc(crc, b) {
      UpdateInjective(Crc(crc, a[..n]), Crc(crc, b[..n]), a[n], b[n]);
    }
  }

  // The polynomial has an even number of terms, so the register keeps the parity.

  function Bit(b: Byte, i: nat): bool
    requires i < 8
  {
    (b >> i) & 1 != 0
  }

  function Ones(b: Byte): nat {
    (if Bit(b, 0) then 1 else 0) + (if Bit(b, 1) then 1 else 0) + (if Bit(b, 2) then 1 else 0)
    + (if Bit(b, 3) then 1 else 0) + (if Bit(b, 4) then 1 else 0) + (if Bit(b, 5) then 1 else 0)
    + (if Bit(b, 6) then 1 else 0) + (if Bit(b, 7) then 1 else 0)
  }

  /** Whether a byte has an odd number of ones. */
  function Odd(b: Byte): bool {
    ((Bit(b, 0) != Bit(b, 1)) != (Bit(b, 2) != Bit(b, 3))) != ((Bit(b, 4) != Bit(b, 5)) != (Bit(b, 6) != Bit(b, 7)))
  }

  lemma OddCountsOnes(b: Byte)
    ensures Odd(b) <==> Ones(b) % 2 == 1
  {
    hide Bit;
  }

  lemma BitOfXor(a: Byte, b: Byte, i: nat)
    requires i < 8
    ensures Bit(Xor(a, b), i) == (Bit(a, i) != Bit(b, i))
  {
    assert ((a ^ b) >> i) & 1 == ((a >> i) & 1) ^ ((b >> i) & 1);
    assert (a >> i) & 1 == 0 || (a >> i) & 1 == 1;
    assert (b >> i) & 1 == 0 || (b >> i) & 1 == 1;
  }

  lemma OddOfXor(a: Byte, b: Byte)
    ensures Odd(Xor(a, b)) <==> (Odd(a) != Odd(b))
  {
    hide Bit, Xor;
    BitOfXor(a, b, 0);
    BitOfXor(a, b, 1);
    BitOfXor(a, b, 2);
    BitOfXor(a, b, 3);
    BitOfXor(a, b, 4);
    BitOfXor(a, b, 5);
    BitOfXor(a, b, 6);
    BitOfXor(a, b, 7);
  }

  /** A step moves every bit up, and the topmost also into three places. */
  lemma ShiftMoves(crc: Byte)
    ensures var r := Shift(crc);
            && Bit(r, 0) == Bit(crc, 7) && Bit(r, 1) == (Bit(crc, 0) != Bit(crc, 7))
            && Bit(r, 2) == (Bit(crc, 1) != Bit(crc, 7)) && Bit(r, 3) == Bit(crc, 2) && Bit(r, 4) == Bit(crc, 3)
            && Bit(r, 5) == Bit(crc, 4) && Bit(r, 6) == Bit(crc, 5) && Bit(r, 7) == Bit(crc, 6)
  {
  }

  lemma ShiftKeepsOdd(crc: Byte)
    ensures Odd(Shift(crc)) == Odd(crc)
  {
    hide Bit, Shift;
    ShiftMoves(crc);
  }

  lemma {:induction false} ShiftsKeepOdd(crc: Byte, n: nat)
    ensures Odd(Shifts(crc, n)) == Odd(crc)
  {
    if n == 0 {
    } else {
      hide Shift, Odd;
      ShiftKeepsOdd(Shifts(crc, n - 1));
      ShiftsKeepOdd(crc, n - 1);
    }
  }

  /** The number of bits in which two sequences of bytes differ. */
  function Flips(a: seq<Byte>, b: seq<Byte>): nat
    requires |a| == |b|
  {
    if a == [] then 0 else Flips(a[..|a|-1], b[..|b|-1]) + Ones(Xor(a[|a|-1], b[|b|-1]))
  }

  /** Checksums differ in an odd number of bits exactly if the bytes do. */
  lemma {:induction false} CrcKeepsOdd(crc: Byte, a: seq<Byte>, b: seq<Byte>)
    requires |a| == |b|
    ensures Odd(Xor(Crc(crc, a), Crc(crc, b))) <==> Flips(a, b) % 2 == 1
    decreases |a|
  {
    hide Odd, Update, Ones, Xor;
    var n := |a| - 1;
    if a == [] {
      XorOfSame(crc);
      assert !Odd(0) by { OddOfXor(0, 0); XorOfSame(0); }
    } else {
      CrcKeepsOdd(crc, a[..n], b[..n]);
      OddOfUpdates(Crc(crc, a[..n]), a[n], Crc(crc, b[..n]), b[n]);
      OddCountsOnes(Xor(a[n], b[n]));
    }
  }

  lemma OddOfUpdates(p: Byte, x: Byte, q: Byte, y: Byte)
    ensures Odd(Xor(Update(p, x), Update(q, y))) <==> (Odd(Xor(p, q)) != Odd(Xor(x, y)))
  {
    hide Odd, Shifts, Xor;
    OddOfXor(Update(p, x), Update(q, y));
    ShiftsKeepOdd(Xor(p, x), 8);
    ShiftsKeepOdd(Xor(q, y), 8);
    OddOfXor(p, x);
    OddOfXor(q, y);
    OddOfXor(p, q);
    OddOfXor(x, y);
  }
}

/** What the checksum makes of transmission errors: it is linear, so an error goes
    unnoticed exactly if its own checksum is zero. */
module CrcErrors {
  import opened Crc8

  lemma SameBits(a: Byte, b: Byte)
    requires Bit(a, 0) == Bit(b, 0) && Bit(a, 1) == Bit(b, 1) && Bit(a, 2) == Bit(b, 2) && Bit(a, 3) == Bit(b, 3)
    requires Bit(a, 4) == Bit(b, 4) && Bit(a, 5) == Bit(b, 5) && Bit(a, 6) == Bit(b, 6) && Bit(a, 7) == Bit(b, 7)
    ensures a == b
  {
  }

  lemma BitsOfXor(a: Byte, b: Byte)
    ensures var c := Xor(a, b);
            && Bit(c, 0) == (Bit(a, 0) != Bit(b, 0)) && Bit(c, 1) == (Bit(a, 1) != Bit(b, 1))
            && Bit(c, 2) == (Bit(a, 2) != Bit(b, 2)) && Bit(c, 3) == (Bit(a, 3) != Bit(b, 3))
            && Bit(c, 4) == (Bit(a, 4) != Bit(b, 4)) && Bit(c, 5) == (Bit(a, 5) != Bit(b, 5))
            && Bit(c, 6) == (Bit(a, 6) != Bit(b, 6)) && Bit(c, 7) == (Bit(a, 7) != Bit(b, 7))
  {
    hide Bit, Xor;
    BitOfXor(a, b, 0);
    BitOfXor(a, b, 1);
    BitOfXor(a, b, 2);
    BitOfXor(a, b, 3);
    BitOfXor(a, b, 4);
    BitOfXor(a, b, 5);
    BitOfXor(a, b, 6);
    BitOfXor(a, b, 7);
  }

  lemma ShiftOfXor(a: Byte, b: Byte)
    ensures Shift(Xor(a, b)) == Xor(Shift(a), Shift(b))
  {
    hide Bit, Xor, Shift;
    BitsOfXor(a, b);
    BitsOfXor(Shift(a), Shift(b));
    ShiftMoves(a);
    ShiftMoves(b);
    ShiftMoves(Xor(a, b));
    SameBits(Shift(Xor(a, b)), Xor(Shift(a), Shift(b)));
  }

  lemma {:induction false} ShiftsOfXor(a: Byte, b: Byte, n: nat)
    ensures Shifts(Xor(a, b), n) == Xor(Shifts(a, n), Shifts(b, n))
  {
    if n == 0 {
    } else {
      hide Shift, Xor;
      ShiftsOfXor(a, b, n - 1);
      ShiftOfXor(Shifts(a, n - 1), Shifts(b, n - 1));
    }
  }

  lemma XorSwaps(a: Byte, b: Byte, x: Byte, y: Byte)
    ensures Xor(Xor(a, x), Xor(b, y)) == Xor(Xor(a, b), Xor(x, y))
  {
    hide Bit, Xor;
    BitsOfXor(a, x);
    BitsOfXor(b, y);
    BitsOfXor(a, b);
    BitsOfXor(x, y);
    BitsOfXor(Xor(a, x), Xor(b, y));
    BitsOfXor(Xor(a, b), Xor(x, y));
    SameBits(Xor(Xor(a, x), Xor(b, y)), Xor(Xor(a, b), Xor(x, y)));
  }

  lemma XorIsZero(a: Byte, b: Byte)
    ensures Xor(a, b) == 0 <==> a == b
    ensures Xor(0, a) == a && Xor(a, 0) == a
  {
  }

  lemma XorCommutes(a: Byte, b: Byte)
    ensures Xor(a, b) == Xor(b, a)
  {
  }

  lemma UpdateOfXor(p: Byte, q: Byte, x: Byte, y: Byte)
    ensures Update(Xor(p, q), Xor(x, y)) == Xor(Update(p, x), Update(q, y))
  {
    hide Shifts, Xor;
    XorSwaps(p, q, x, y);
    ShiftsOfXor(Xor(p, x), Xor(q, y), 8);
  }

  /** The bits in which two sequences differ. */
  function ErrorOf(a: seq<Byte>, b: seq<Byte>): (e: seq<Byte>)
    requires |a| == |b|
    ensures |e| == |a| && forall i :: 0 <= i < |a| ==> e[i] == Xor(a[i], b[i])
  {
    seq(|a|, i requires 0 <= i < |a| => Xor(a[i], b[i]))
  }

  lemma {:induction false} CrcIsLinear(p: Byte, q: Byte, a: seq<Byte>, b: seq<Byte>)
    requires |a| == |b|
    ensures Crc(Xor(p, q), ErrorOf(a, b)) == Xor(Crc(p, a), Crc(q, b))
    decreases |a|
  {
    hide Update, Xor;
    var n := |a| - 1;
    if a == [] {
    } else {
      CrcIsLinear(p, q, a[..n], b[..n]);
      UpdateOfXor(Crc(p, a[..n]), Crc(q, b[..n]), a[n], b[n]);
      assert ErrorOf(a, b)[..n] == ErrorOf(a[..n], b[..n]);
    }
  }

  lemma UpdateIsZero(p: Byte, x: Byte)
    ensures Update(p, x) == 0 <==> p == x
  {
    hide Update;
    assert Update(0, 0) == 0 by { ZeroStaysZero(); }
    if p == x {
      UpdateDependsOnXor(p, x, 0, 0);
    } else if Update(p, x) == 0 {
      UpdateDependsOnXor(p, x, Xor(p, x), 0);
      UpdateInjective(Xor(p, x), 0, 0, 0);
      XorIsZero(p, x);
    }
  }

  lemma UpdateDependsOnXor(p: Byte, x: Byte, q: Byte, y: Byte)
    requires Xor(p, x) == Xor(q, y)
    ensures Update(p, x) == Update(q, y)
  {
  }

  lemma ZeroStaysZero()
    ensures Update(0, 0) == 0
  {
    ShiftsEight(Xor(0, 0));
  }

  lemma ShiftsEight(x: Byte)
    ensures Shifts(x, 8) == Shift(Shift(Shift(Shift(Shift(Shift(Shift(Shift(x))))))))
  {
    hide Shift;
    assert Shifts(x, 1) == Shift(Shifts(x, 0));
    assert Shifts(x, 2) == Shift(Shifts(x, 1));
    assert Shifts(x, 3) == Shift(Shifts(x, 2));
    assert Shifts(x, 4) == Shift(Shifts(x, 3));
    assert Shifts(x, 5) == Shift(Shifts(x, 4));
    assert Shifts(x, 6) == Shift(Shifts(x, 5));
    assert Shifts(x, 7) == Shift(Shifts(x, 6));
  }

  /** A checksum behind the bytes leaves a register of zero exactly if it is theirs. */
  lemma ResidueIsZero(a: seq<Byte>, b: Byte)
    ensures Crc(0, a + [b]) == 0 <==> Crc(0, a) == b
  {
    hide Update;
    CrcOneMore(0, a, b);
    UpdateIsZero(Crc(0, a), b);
  }

  /** An error in two neighbouring bytes goes unnoticed exactly if eight steps take
      the first half of it to the second. */
  lemma {:induction false} NeighboursCancelIff(e: seq<Byte>, k: nat)
    requires k + 1 < |e| && forall i :: 0 <= i < |e| && i != k && i != k + 1 ==> e[i] == 0
    ensures Crc(0, e) == 0 <==> Shifts(e[k], 8) == e[k+1]
    decreases |e|
  {
    hide Update, Xor, Shifts;
    var n := |e| - 1;
    UpdateIsZero(Crc(0, e[..n]), e[n]);
    if k + 1 == n {
      ZerosGiveZero(e[..k]);
      assert e[..n][..k] == e[..k];
      UpdateOfZero(e[k]);
    } else {
      NeighboursCancelIff(e[..n], k);
    }
  }

  lemma UpdateOfZero(x: Byte)
    ensures Update(0, x) == Shifts(x, 8)
  {
    hide Shifts, Xor;
    XorIsZero(x, 0);
  }

  lemma {:induction false} ZerosGiveZero(e: seq<Byte>)
    requires forall i :: 0 <= i < |e| ==> e[i] == 0
    ensures Crc(0, e) == 0
    decreases |e|
  {
    hide Update;
    if e == [] {
    } else {
      ZerosGiveZero(e[..|e|-1]);
      UpdateIsZero(0, 0);
    }
  }

  /** The `a` least significant bits. */
  function Low(a: nat): Byte
    requires a <= 8
  {
    if a == 0 then 0x00 else if a == 1 then 0x01 else if a == 2 then 0x03 else if a == 3 then 0x07
    else if a == 4 then 0x0F else if a == 5 then 0x1F else if a == 6 then 0x3F else if a == 7 then 0x7F else 0xFF
  }

  /** Eight bits in a row over the boundary of two bytes, in the order in which the
      register takes them: the `a` last bits of the first byte, the others of the second. */
  predicate BurstInRegister(x: Byte, y: Byte, a: nat)
    requires a <= 8
  {
    x & !Low(a) == 0 && y & Low(a) == 0
  }

  /** The same in the order in which they are on the wire, least significant first. */
  predicate BurstOnWire(x: Byte, y: Byte, a: nat)
    requires a <= 8
  {
    x & Low(8 - a) == 0 && y & !Low(8 - a) == 0
  }

  lemma BurstShows(x: Byte, y: Byte, a: nat)
    requires a <= 8 && BurstInRegister(x, y, a) && Shifts(x, 8) == y
    ensures x == 0 && y == 0
  {
    ShiftsEight(x);
  }

  lemma WireBurstShowsUnless(x: Byte, y: Byte, a: nat)
    requires a <= 8 && BurstOnWire(x, y, a)
    ensures Shifts(x, 8) == y <==> (x == 0 && y == 0) || (x == 0xD8 && y == 0x06) || (x == 0x6C && y == 0x03)
  {
    ShiftsEight(x);
  }
}

/** Frames on the link and the decoder that finds them in a stream of bytes
    (Shared/src/LpcProtocol.cpp, LpcProtocol.h). */
module LpcProtocol {
  import opened Options
  import opened Crc8
  import opened CrcErrors

  const SYNC_BYTE: Byte := 0xA5
  const MAX_PAYLOAD: nat := 16

  // Lengths as bytes.

  function ToByte(n: nat): Byte
    requires n <= 255
  {
    n as Byte
  }

  function ToNat(b: Byte): nat {
    b as nat
  }

  lemma NatOfByte(b: Byte)
    ensures ToNat(b) <= 255 && ToByte(ToNat(b)) == b
  {
  }

  lemma ByteOfNat(n: nat)
    requires n <= 255
    ensures ToNat(ToByte(n)) == n
  {
    hide ToNat, ToByte;
    var b := ByteFor(n);
    NatOfByte(b);
  }

  lemma {:induction false} ByteFor(n: nat) returns (b: Byte)
    requires n <= 255
    ensures ToNat(b) == n
  {
    EndsOfRange();
    if n == 0 {
      b := 0;
    } else {
      hide ToNat;
      var before := ByteFor(n - 1);
      NextByte(before);
      b := before + 1;
    }
  }

  lemma NextByte(b: Byte)
    requires b != 0xFF
    ensures ToNat(b + 1) == ToNat(b) + 1
  {
  }

  lemma EndsOfRange()
    ensures ToNat(0) == 0 && ToNat(0xFF) == 255
  {
  }

  /** A frame as far as its length says it is filled. */
  datatype Frame = Frame(kind: Byte, payload: seq<Byte>)

  ghost predicate Fits(f: Frame) {
    |f.payload| <= MAX_PAYLOAD
  }

  /** The bytes under the checksum. */
  function Covered(kind: Byte, length: nat, payload: seq<Byte>): seq<Byte>
    requires length <= MAX_PAYLOAD
  {
    [kind, ToByte(length)] + payload
  }

  function Encoded(f: Frame): (bytes: seq<Byte>)
    requires Fits(f)
    ensures |bytes| == |f.payload| + 4
  {
    var covered := Covered(f.kind, |f.payload|, f.payload);
    [SYNC_BYTE] + covered + [Crc(0, covered)]
  }

  lemma CrcOfTwo(a: Byte, b: Byte)
    ensures Crc(0, [a, b]) == Update(Update(0, a), b)
  {
    hide Update;
    CrcOneMore(0, [], a);
    CrcOneMore(0, [a], b);
    assert [] + [a] == [a] && [a] + [b] == [a, b];
  }

  /** The checksum of type, length and the first `i` bytes of the payload. */
  ghost function Running(kind: Byte, payload: seq<Byte>, i: nat): Byte
    requires i <= |payload| <= MAX_PAYLOAD
  {
    Crc(0, Covered(kind, |payload|, payload)[..2 + i])
  }

  lemma RunningSteps(kind: Byte, payload: seq<Byte>, i: nat)
    requires i <= |payload| <= MAX_PAYLOAD
    ensures Running(kind, payload, 0) == Update(Update(0, kind), ToByte(|payload|))
    ensures i < |payload| ==> Running(kind, payload, i + 1) == Update(Running(kind, payload, i), payload[i])
    ensures Running(kind, payload, |payload|) == Crc(0, Covered(kind, |payload|, payload))
  {
    hide Update, Crc, ToByte;
    var covered := Covered(kind, |payload|, payload);
    CrcOfTwo(kind, ToByte(|payload|));
    assert covered[..2] == [kind, ToByte(|payload|)];
    assert covered[..2 + |payload|] == covered;
    if i < |payload| {
      CrcOneMore(0, covered[..2 + i], payload[i]);
      assert covered[..3 + i] == covered[..2 + i] + [payload[i]];
    }
  }

  /** An output of which the header and the first `i` bytes of the payload are written. */
  ghost function Written(kind: Byte, payload: seq<Byte>, output: seq<Byte>, i: nat): (w: seq<Byte>)
    requires i <= |payload| <= MAX_PAYLOAD && |output| >= |payload| + 4
    ensures |w| == |output|
  {
    [SYNC_BYTE, kind, ToByte(|payload|)] + payload[..i] + output[3 + i..]
  }

  lemma WrittenOneMore(kind: Byte, payload: seq<Byte>, output: seq<Byte>, i: nat)
    requires i <= |payload| <= MAX_PAYLOAD && |output| >= |payload| + 4
    ensures i < |payload| ==>
              Written(kind, payload, output, i)[3 + i := payload[i]] == Written(kind, payload, output, i + 1)
    ensures Written(kind, payload, output, 0) == output[0 := SYNC_BYTE][1 := kind][2 := ToByte(|payload|)]
  {
    hide ToByte;
  }

  lemma WrittenAll(kind: Byte, payload: seq<Byte>, output: seq<Byte>, crc: Byte)
    requires |payload| <= MAX_PAYLOAD && |output| >= |payload| + 4 && crc == Running(kind, payload, |payload|)
    ensures Written(kind, payload, output, |payload|)[3 + |payload| := crc]
         == Encoded(Frame(kind, payload)) + output[|payload| + 4..]
  {
    hide ToByte, Running, Crc;
    RunningSteps(kind, payload, |payload|);
  }

  /** The first three assignments of Encode. */
  method WriteHeader(kind: Byte, length: nat, output: array<Byte>)
    requires length <= MAX_PAYLOAD && output.Length >= 3
    modifies output
    ensures output[..] == old(output[..])[0 := SYNC_BYTE][1 := kind][2 := ToByte(length)]
  {
    hide ToByte;
    output[0] := SYNC_BYTE;
    output[1] := kind;
    output[2] := ToByte(length);
  }

  /** Encode: it refuses a payload that is too long, and leaves the rest of the output alone. */
  method Encode(kind: Byte, payload: seq<Byte>, output: array<Byte>) returns (length: nat)
    requires |payload| <= 255 && (|payload| <= MAX_PAYLOAD ==> output.Length >= |payload| + 4)
    modifies output
    ensures |payload| > MAX_PAYLOAD ==> length == 0 && output[..] == old(output[..])
    ensures |payload| <= MAX_PAYLOAD ==>
              && length == |payload| + 4
              && output[..] == Encoded(Frame(kind, payload)) + old(output[..])[length..]
  {
    if |payload| > MAX_PAYLOAD {
      return 0;
    }
    hide Update, Crc, Running, ToByte, Encoded, Covered, Written;
    ghost var before := output[..];
    WriteHeader(kind, |payload|, output);
    var crc := UpdateCrc(0, kind);
    crc := UpdateCrc(crc, ToByte(|payload|));
    RunningSteps(kind, payload, 0);
    WrittenOneMore(kind, payload, before, 0);
    for i := 0 to |payload|
      invariant output[..] == Written(kind, payload, before, i)
      invariant crc == Running(kind, payload, i)
    {
      output[3 + i] := payload[i];
      crc := UpdateCrc(crc, payload[i]);
      RunningSteps(kind, payload, i);
      WrittenOneMore(kind, payload, before, i);
    }
    output[3 + |payload|] := crc;
    length := |payload| + 4;
    WrittenAll(kind, payload, before, crc);
  }

  /** What the decoder has seen of a frame. */
  datatype Stage =
    | NeedSync
    | NeedType
    | NeedLength(kind: Byte, crc: Byte)
    | NeedPayload(kind: Byte, length: nat, payload: seq<Byte>, crc: Byte)

  /** What one byte does to the decoder, and the frame it accepts, if any. */
  function Next(d: Stage, b: Byte): (Stage, Option<Frame>) {
    match d
    case NeedSync => (if b == SYNC_BYTE then NeedType else NeedSync, None)
    case NeedType => (NeedLength(b, Update(0, b)), None)
    case NeedLength(kind, crc) =>
      (if ToNat(b) > MAX_PAYLOAD then NeedSync else NeedPayload(kind, ToNat(b), [], Update(crc, b)), None)
    case NeedPayload(kind, length, payload, crc) =>
      if |payload| < length then (NeedPayload(kind, length, payload + [b], Update(crc, b)), None)
      else (NeedSync, if b == crc then Some(Frame(kind, payload)) else None)
  }

  class Decoder {
    var state: nat
    var index: nat
    var crc: Byte
    var kind: Byte
    var length: nat
    const payload: array<Byte>

    ghost predicate Valid()
      reads this
    {
      && payload.Length == MAX_PAYLOAD && state <= 3 && length <= MAX_PAYLOAD
      && (state == 3 ==> index <= length)
    }

    ghost function View(): Stage
      requires Valid()
      reads this, payload
    {
      match state
      case 0 => NeedSync
      case 1 => NeedType
      case 2 => NeedLength(kind, crc)
      case _ => NeedPayload(kind, length, payload[..index], crc)
    }

    constructor ()
      ensures Valid() && View() == NeedSync && fresh(payload)
    {
      payload := new Byte[MAX_PAYLOAD];
      state, index, crc, kind, length := 0, 0, 0, 0, 0;
    }

    method Reset()
      requires Valid()
      modifies this
      ensures Valid() && View() == NeedSync
    {
      state, index, crc, length := 0, 0, 0, 0;
    }

    method Feed(byte: Byte) returns (accepted: Option<Frame>)
      requires Valid()
      modifies this, payload
      ensures Valid() && (View(), accepted) == Next(old(View()), byte)
    {
      hide Update;
      accepted := None;
      if state == 0 {
        if byte == SYNC_BYTE {
          state := 1;
        }
      } else if state == 1 {
        kind := byte;
        crc := UpdateCrc(0, byte);
        state := 2;
      } else if state == 2 {
        if ToNat(byte) > MAX_PAYLOAD {
          Reset();
        } else {
          length := ToNat(byte);
          crc := UpdateCrc(crc, byte);
          index := 0;
          state := 3;
        }
      } else if index < length {
        payload[index] := byte;
        assert payload[..index + 1] == old(payload[..index]) + [byte];
        index := index + 1;
        crc := UpdateCrc(crc, byte);
      } else {
        if byte == crc {
          accepted := Some(Frame(kind, payload[..length]));
        }
        Reset();
      }
    }
  }

  // Streams of bytes.

  /** The decoder after some bytes. */
  function After(d: Stage, bytes: seq<Byte>): Stage {
    if bytes == [] then d else Next(After(d, bytes[..|bytes|-1]), bytes[|bytes|-1]).0
  }

  /** The frames accepted among some bytes. */
  function Accepted(d: Stage, bytes: seq<Byte>): seq<Frame> {
    if bytes == [] then []
    else
      Accepted(d, bytes[..|bytes|-1]) +
      match Next(After(d, bytes[..|bytes|-1]), bytes[|bytes|-1]).1
      case Some(f) => [f]
      case None => []
  }

  lemma {:induction false} FeedInParts(d: Stage, a: seq<Byte>, b: seq<Byte>)
    ensures After(d, a + b) == After(After(d, a), b)
    ensures Accepted(d, a + b) == Accepted(d, a) + Accepted(After(d, a), b)
    decreases |b|
  {
    hide Next;
    if b == [] {
      assert a + b == a;
    } else {
      var k := |b| - 1;
      assert (a + b)[..|a| + k] == a + b[..k];
      FeedInParts(d, a, b[..k]);
    }
  }

  lemma FeedOne(d: Stage, b: Byte)
    ensures After(d, [b]) == Next(d, b).0
    ensures Accepted(d, [b]) == match Next(d, b).1 case Some(f) => [f] case None => []
  {
    hide Next;
    assert [b][..0] == [];
  }

  /** A payload being taken in. */
  lemma {:induction false} FeedPayload(kind: Byte, length: nat, bytes: seq<Byte>, crc: Byte)
    requires |bytes| <= length <= MAX_PAYLOAD
    ensures After(NeedPayload(kind, length, [], crc), bytes) == NeedPayload(kind, length, bytes, Crc(crc, bytes))
    ensures Accepted(NeedPayload(kind, length, [], crc), bytes) == []
    decreases |bytes|
  {
    hide Update, Next;
    if bytes == [] {
    } else {
      var before, b := bytes[..|bytes|-1], bytes[|bytes|-1];
      FeedPayload(kind, length, before, crc);
      PayloadByte(kind, length, before, Crc(crc, before), b);
      assert before + [b] == bytes;
    }
  }

  /** One byte of a payload. */
  lemma PayloadByte(kind: Byte, length: nat, payload: seq<Byte>, crc: Byte, b: Byte)
    requires |payload| < length
    ensures Next(NeedPayload(kind, length, payload, crc), b) == (NeedPayload(kind, length, payload + [b], Update(crc, b)), None)
  {
    hide Update;
  }

  /** All bytes of a frame but its last leave the decoder waiting for that one. */
  lemma FeedAllButLast(kind: Byte, payload: seq<Byte>)
    requires |payload| <= MAX_PAYLOAD
    ensures var covered := Covered(kind, |payload|, payload);
            && After(NeedSync, [SYNC_BYTE] + covered) == NeedPayload(kind, |payload|, payload, Crc(0, covered))
            && Accepted(NeedSync, [SYNC_BYTE] + covered) == []
  {
    hide Update, Next, After, Accepted, ToByte, ToNat;
    var n, covered := |payload|, Covered(kind, |payload|, payload);
    var l := ToByte(n);
    ByteOfNat(n);
    var d1, d2 := NeedLength(kind, Update(0, kind)), NeedPayload(kind, n, [], Update(Update(0, kind), l));
    Header(kind, n);
    FeedPayload(kind, n, payload, Update(Update(0, kind), l));
    FeedInParts(NeedSync, [SYNC_BYTE, kind, l], payload);
    assert [SYNC_BYTE] + covered == [SYNC_BYTE, kind, l] + payload;
    CrcOfTwo(kind, l);
    CrcInParts(0, [kind, l], payload);
  }

  lemma Header(kind: Byte, n: nat)
    requires n <= MAX_PAYLOAD
    ensures After(NeedSync, [SYNC_BYTE, kind, ToByte(n)]) == NeedPayload(kind, n, [], Update(Update(0, kind), ToByte(n)))
    ensures Accepted(NeedSync, [SYNC_BYTE, kind, ToByte(n)]) == []
  {
    hide Update, After, Accepted, ToByte, ToNat;
    ByteOfNat(n);
    FeedOne(NeedSync, SYNC_BYTE);
    FeedOne(NeedType, kind);
    FeedOne(NeedLength(kind, Update(0, kind)), ToByte(n));
    FeedInParts(NeedSync, [SYNC_BYTE], [kind]);
    FeedInParts(NeedSync, [SYNC_BYTE] + [kind], [ToByte(n)]);
    assert [SYNC_BYTE] + [kind] + [ToByte(n)] == [SYNC_BYTE, kind, ToByte(n)];
  }

  lemma {:induction false} CrcInParts(crc: Byte, a: seq<Byte>, b: seq<Byte>)
    ensures Crc(crc, a + b) == Crc(Crc(crc, a), b)
    decreases |b|
  {
    hide Update;
    if b == [] {
      assert a + b == a;
    } else {
      assert (a + b)[..|a| + |b| - 1] == a + b[..|b|-1];
      CrcInParts(crc, a, b[..|b|-1]);
    }
  }

  /** A whole frame with any last byte: it is accepted, on that byte, exactly if
      the byte is the checksum, and the decoder is ready for the next frame. */
  lemma FeedFrame(kind: Byte, payload: seq<Byte>, last: Byte)
    requires |payload| <= MAX_PAYLOAD
    ensures var covered := Covered(kind, |payload|, payload);
            && After(NeedSync, [SYNC_BYTE] + covered + [last]) == NeedSync
            && Accepted(NeedSync, [SYNC_BYTE] + covered + [last])
               == if last == Crc(0, covered) then [Frame(kind, payload)] else []
  {
    hide Update, After, Accepted, Crc;
    var covered := Covered(kind, |payload|, payload);
    FeedAllButLast(kind, payload);
    FeedOne(NeedPayload(kind, |payload|, payload, Crc(0, covered)), last);
    FeedInParts(NeedSync, [SYNC_BYTE] + covered, [last]);
  }

  function EncodedAll(frames: seq<Frame>): seq<Byte>
    requires forall f <- frames :: Fits(f)
  {
    if frames == [] then [] else Encoded(frames[0]) + EncodedAll(frames[1..])
  }

  /** Completeness: encoded frames one after another decode to exactly those frames. */
  lemma {:induction false} DecodesWhatWasEncoded(frames: seq<Frame>)
    requires forall f <- frames :: Fits(f)
    ensures After(NeedSync, EncodedAll(frames)) == NeedSync
    ensures Accepted(NeedSync, EncodedAll(frames)) == frames
    decreases |frames|
  {
    hide Update, After, Accepted, Crc, Next;
    if frames == [] {
      FeedNothing(NeedSync);
    } else {
      var f := frames[0];
      assert f in frames;
      FeedFrame(f.kind, f.payload, Crc(0, Covered(f.kind, |f.payload|, f.payload)));
      DecodesWhatWasEncoded(frames[1..]);
      FeedInParts(NeedSync, Encoded(f), EncodedAll(frames[1..]));
    }
  }

  lemma FeedNothing(d: Stage)
    ensures After(d, []) == d && Accepted(d, []) == []
  {
  }

  ghost predicate EndsIn(bytes: seq<Byte>, tail: seq<Byte>) {
    |tail| <= |bytes| && bytes[|bytes| - |tail|..] == tail
  }

  /** The decoder's memory is about the last bytes of the stream. */
  ghost predicate Remembers(d: Stage, bytes: seq<Byte>) {
    match d
    case NeedSync => true
    case NeedType => EndsIn(bytes, [SYNC_BYTE])
    case NeedLength(kind, crc) => EndsIn(bytes, [SYNC_BYTE, kind]) && crc == Crc(0, [kind])
    case NeedPayload(kind, length, payload, crc) =>
      && |payload| <= length <= MAX_PAYLOAD
      && EndsIn(bytes, [SYNC_BYTE] + Covered(kind, length, payload)) && crc == Crc(0, Covered(kind, length, payload))
  }

  lemma EndsInOneMore(bytes: seq<Byte>, tail: seq<Byte>, b: Byte)
    requires EndsIn(bytes, tail)
    ensures EndsIn(bytes + [b], tail + [b])
  {
  }

  lemma NextRemembers(d: Stage, bytes: seq<Byte>, b: Byte)
    requires Remembers(d, bytes)
    ensures Remembers(Next(d, b).0, bytes + [b])
    ensures forall f :: Next(d, b).1 == Some(f) ==> Fits(f) && EndsIn(bytes + [b], Encoded(f))
  {
    hide Update, EndsIn, Crc, ToByte, ToNat;
    match d {
      case NeedSync =>
        if b == SYNC_BYTE {
          assert EndsIn(bytes, []) by { EndsInNothing(bytes); }
          EndsInOneMore(bytes, [], b);
          assert [] + [b] == [b];
        }
      case NeedType =>
        EndsInOneMore(bytes, [SYNC_BYTE], b);
        CrcOneMore(0, [], b);
        CrcOfNothing(0);
        assert [] + [b] == [b] && [SYNC_BYTE] + [b] == [SYNC_BYTE, b];
      case NeedLength(kind, crc) =>
        if ToNat(b) <= MAX_PAYLOAD {
          EndsInOneMore(bytes, [SYNC_BYTE, kind], b);
          CrcOneMore(0, [kind], b);
          NatOfByte(b);
          assert [kind] + [b] == Covered(kind, ToNat(b), []);
          assert [SYNC_BYTE, kind] + [b] == [SYNC_BYTE] + Covered(kind, ToNat(b), []);
        }
      case NeedPayload(kind, length, payload, crc) =>
        PayloadRemembers(kind, length, payload, bytes, b);
    }
  }

  lemma PayloadRemembers(kind: Byte, length: nat, payload: seq<Byte>, bytes: seq<Byte>, b: Byte)
    requires length <= MAX_PAYLOAD && EndsIn(bytes, [SYNC_BYTE] + Covered(kind, length, payload))
    ensures EndsIn(bytes + [b], [SYNC_BYTE] + Covered(kind, length, payload + [b]))
    ensures EndsIn(bytes + [b], [SYNC_BYTE] + Covered(kind, length, payload) + [b])
    ensures Crc(0, Covered(kind, length, payload + [b])) == Update(Crc(0, Covered(kind, length, payload)), b)
  {
    hide Update, EndsIn, Crc, ToByte;
    var covered := Covered(kind, length, payload);
    EndsInOneMore(bytes, [SYNC_BYTE] + covered, b);
    CrcOneMore(0, covered, b);
    assert covered + [b] == Covered(kind, length, payload + [b]);
    assert [SYNC_BYTE] + covered + [b] == [SYNC_BYTE] + (covered + [b]);
  }

  lemma EndsInNothing(bytes: seq<Byte>)
    ensures EndsIn(bytes, [])
  {
  }

  lemma CrcOfNothing(crc: Byte)
    ensures Crc(crc, []) == crc
  {
  }

  lemma {:induction false} AlwaysRemembers(bytes: seq<Byte>)
    ensures Remembers(After(NeedSync, bytes), bytes)
    decreases |bytes|
  {
    hide Remembers, Next;
    if bytes == [] {
      assert Remembers(NeedSync, []) by { NothingToRemember(); }
    } else {
      var k := |bytes| - 1;
      AlwaysRemembers(bytes[..k]);
      NextRemembers(After(NeedSync, bytes[..k]), bytes[..k], bytes[k]);
      assert bytes[..k] + [bytes[k]] == bytes;
    }
  }

  lemma NothingToRemember()
    ensures Remembers(NeedSync, [])
  {
  }

  /** Soundness: whatever the stream, when a frame is accepted, the last bytes
      of the stream are exactly the encoding of that frame. */
  lemma AcceptsOnlyEncodings(bytes: seq<Byte>, b: Byte, f: Frame)
    requires Next(After(NeedSync, bytes), b).1 == Some(f)
    ensures Fits(f) && EndsIn(bytes + [b], Encoded(f))
  {
    AlwaysRemembers(bytes);
    NextRemembers(After(NeedSync, bytes), bytes, b);
  }

  /** Every accepted frame stands, encoded, somewhere in the stream. */
  lemma {:induction false} AcceptedAreInTheStream(bytes: seq<Byte>)
    ensures forall f <- Accepted(NeedSync, bytes) :: Fits(f) && exists i :: 0 <= i <= |bytes| && EndsIn(bytes[..i], Encoded(f))
    decreases |bytes|
  {
    hide Next, After, Encoded, EndsIn;
    if bytes == [] {
    } else {
      var k := |bytes| - 1;
      AcceptedAreInTheStream(bytes[..k]);
      forall f <- Accepted(NeedSync, bytes)
        ensures Fits(f) && exists i :: 0 <= i <= |bytes| && EndsIn(bytes[..i], Encoded(f))
      {
        if f in Accepted(NeedSync, bytes[..k]) {
          var i :| 0 <= i <= k && EndsIn(bytes[..k][..i], Encoded(f));
          assert bytes[..k][..i] == bytes[..i];
        } else {
          AcceptsOnlyEncodings(bytes[..k], bytes[k], f);
          assert bytes[..k] + [bytes[k]] == bytes[..|bytes|];
        }
      }
    }
  }

  /** In bytes: the ping, with a checksum worked out by hand. */
  lemma EncodedPing()
    ensures Encoded(Frame(1, [3])) == [0xA5, 0x01, 0x01, 0x03, 0x77]
  {
    var covered := Covered(1, 1, [3]);
    assert covered == [1, 1, 3] && ToByte(1) == 1;
    ByteSteps();
    hide Update;
    CrcOfTwo(1, 1);
    CrcOneMore(0, [1, 1], 3);
    assert [1, 1] + [3] == covered;
  }

  lemma ByteSteps()
    ensures Update(0, 0x01) == 0x07 && Update(0x07, 0x01) == 0x12 && Update(0x12, 0x03) == 0x77
  {
    ShiftsEight(0x01);
    ShiftsEight(0x06);
    ShiftsEight(0x11);
  }

  // Getting back in step.

  /** How many bytes the decoder may still take before it looks for a sync byte. */
  function Remaining(d: Stage): nat {
    match d
    case NeedSync => 0
    case NeedType => MAX_PAYLOAD + 3
    case NeedLength(_, _) => MAX_PAYLOAD + 2
    case NeedPayload(_, length, payload, _) => if |payload| < length then length - |payload| + 1 else 1
  }

  lemma {:induction false} NoiseRunsOut(d: Stage, noise: seq<Byte>)
    requires forall b <- noise :: b != SYNC_BYTE
    ensures Remaining(After(d, noise)) <= if Remaining(d) > |noise| then Remaining(d) - |noise| else 0
    decreases |noise|
  {
    hide Next, Remaining;
    if noise == [] {
    } else {
      var k := |noise| - 1;
      assert noise[k] in noise && forall b <- noise[..k] :: b in noise;
      NoiseRunsOut(d, noise[..k]);
      NoiseByte(After(d, noise[..k]), noise[k]);
    }
  }

  lemma NoiseByte(d: Stage, b: Byte)
    requires b != SYNC_BYTE
    ensures Remaining(Next(d, b).0) <= if Remaining(d) > 1 then Remaining(d) - 1 else 0
  {
    hide Update;
  }

  /** After any bytes at all, nineteen that are not the sync byte get the decoder
      to look for the next frame, so that the frames that follow are decoded. */
  lemma Resynchronises(garbage: seq<Byte>, noise: seq<Byte>, frames: seq<Frame>)
    requires |noise| >= MAX_PAYLOAD + 3 && forall b <- noise :: b != SYNC_BYTE
    requires forall f <- frames :: Fits(f)
    ensures After(NeedSync, garbage + noise) == NeedSync
    ensures Accepted(NeedSync, garbage + noise + EncodedAll(frames)) == Accepted(NeedSync, garbage + noise) + frames
  {
    hide Update, Next, After, Accepted, EncodedAll;
    var d := After(NeedSync, garbage);
    AlwaysRemembers(garbage);
    NoiseRunsOut(d, noise);
    FeedInParts(NeedSync, garbage, noise);
    FeedInParts(NeedSync, garbage + noise, EncodedAll(frames));
    DecodesWhatWasEncoded(frames);
  }

  /** Eighteen are not enough. */
  lemma EighteenAreTooFew()
    ensures exists garbage: seq<Byte>, noise: seq<Byte> ::
              && |noise| == MAX_PAYLOAD + 2 && (forall b <- noise :: b != SYNC_BYTE)
              && After(NeedSync, garbage + noise) != NeedSync
  {
    hide Update, After, Accepted, Crc;
    var payload: seq<Byte> := seq(16, _ => 0);
    var noise := Covered(0, 16, payload);
    FeedAllButLast(0, payload);
    assert forall b <- noise :: b != SYNC_BYTE;
    assert After(NeedSync, [SYNC_BYTE] + noise) != NeedSync;
  }

  // Transmission errors.

  /** A frame in which only type, payload and checksum may have been changed. */
  ghost predicate Distorts(f: Frame, bytes: seq<Byte>)
    requires Fits(f)
  {
    |bytes| == |Encoded(f)| && bytes[0] == SYNC_BYTE && bytes[2] == Encoded(f)[2]
  }

  lemma DistortedParts(f: Frame, bytes: seq<Byte>) returns (sent: seq<Byte>, got: seq<Byte>, last: Byte)
    requires Fits(f) && Distorts(f, bytes)
    ensures |got| == |sent| == |f.payload| + 2
    ensures Encoded(f) == [SYNC_BYTE] + sent + [Crc(0, sent)] && bytes == [SYNC_BYTE] + got + [last]
    ensures After(NeedSync, bytes) == NeedSync
    ensures Accepted(NeedSync, bytes) == if last == Crc(0, got) then [Frame(bytes[1], bytes[3..|bytes|-1])] else []
  {
    hide Crc, Accepted, After;
    var n := |f.payload|;
    sent, got, last := Covered(f.kind, n, f.payload), Covered(bytes[1], n, bytes[3..3 + n]), bytes[3 + n];
    FeedFrame(bytes[1], bytes[3..3 + n], last);
  }

  /** An error in type, payload and checksum goes unnoticed exactly if its own
      checksum is zero; what is accepted then is what was received. */
  lemma ErrorIsAcceptedIff(f: Frame, bytes: seq<Byte>)
    requires Fits(f) && Distorts(f, bytes)
    ensures After(NeedSync, bytes) == NeedSync
    ensures Accepted(NeedSync, bytes)
         == if Crc(0, ErrorOf(Encoded(f)[1..], bytes[1..])) == 0 then [Frame(bytes[1], bytes[3..|bytes|-1])] else []
  {
    hide Crc, Accepted, After, Xor, ErrorOf, Encoded, Distorts;
    var sent, got, last := DistortedParts(f, bytes);
    assert Encoded(f)[1..] == sent + [Crc(0, sent)] && bytes[1..] == got + [last];
    CrcIsLinear(0, 0, sent + [Crc(0, sent)], got + [last]);
    XorIsZero(0, 0);
    ResidueIsZero(sent, Crc(0, sent));
    ResidueIsZero(got, last);
    XorIsZero(0, Crc(0, got + [last]));
  }

  /** Two frames that differ at most in the bytes `k` and `k + 1`. */
  ghost predicate DifferWithin(a: seq<Byte>, b: seq<Byte>, k: nat) {
    |a| == |b| && 1 <= k && k + 1 < |a| && forall i :: 0 <= i < |a| && i != k && i != k + 1 ==> a[i] == b[i]
  }

  lemma NeighboursErrorIsAcceptedIff(f: Frame, bytes: seq<Byte>, k: nat)
    requires Fits(f) && Distorts(f, bytes) && DifferWithin(Encoded(f), bytes, k)
    ensures Accepted(NeedSync, bytes) != [] <==> Shifts(Xor(Encoded(f)[k], bytes[k]), 8) == Xor(Encoded(f)[k+1], bytes[k+1])
  {
    hide Crc, Accepted, After, Xor, Shifts, Encoded;
    ErrorIsAcceptedIff(f, bytes);
    var e := ErrorOf(Encoded(f)[1..], bytes[1..]);
    forall i | 0 <= i < |e| && i != k - 1 && i != k
      ensures e[i] == 0
    {
      XorIsZero(Encoded(f)[i+1], bytes[i+1]);
    }
    NeighboursCancelIff(e, k - 1);
  }

  /** An error within any eight bits in a row is detected, also over the boundary of two bytes. */
  lemma BurstIsRejected(f: Frame, bytes: seq<Byte>, k: nat, a: nat)
    requires Fits(f) && Distorts(f, bytes) && DifferWithin(Encoded(f), bytes, k) && bytes != Encoded(f)
    requires a <= 8 && BurstInRegister(Xor(Encoded(f)[k], bytes[k]), Xor(Encoded(f)[k+1], bytes[k+1]), a)
    ensures Accepted(NeedSync, bytes) == [] && After(NeedSync, bytes) == NeedSync
  {
    hide Crc, Accepted, After, Xor, Shifts, Encoded, BurstInRegister;
    var x, y := Xor(Encoded(f)[k], bytes[k]), Xor(Encoded(f)[k+1], bytes[k+1]);
    ErrorIsAcceptedIff(f, bytes);
    NeighboursErrorIsAcceptedIff(f, bytes, k);
    XorIsZero(Encoded(f)[k], bytes[k]);
    XorIsZero(Encoded(f)[k+1], bytes[k+1]);
    if Shifts(x, 8) == y {
      BurstShows(x, y, a);
    }
  }

  /** In the order of the wire, in which the register does not take the bits, there
      is one pattern of eight bits that is missed, at two places of the boundary. */
  lemma WireBurstIsAcceptedIff(f: Frame, bytes: seq<Byte>, k: nat, a: nat)
    requires Fits(f) && Distorts(f, bytes) && DifferWithin(Encoded(f), bytes, k) && bytes != Encoded(f)
    requires a <= 8 && BurstOnWire(Xor(Encoded(f)[k], bytes[k]), Xor(Encoded(f)[k+1], bytes[k+1]), a)
    ensures var x, y := Xor(Encoded(f)[k], bytes[k]), Xor(Encoded(f)[k+1], bytes[k+1]);
            Accepted(NeedSync, bytes) != [] <==> (x == 0xD8 && y == 0x06) || (x == 0x6C && y == 0x03)
  {
    hide Crc, Accepted, After, Xor, Shifts, Encoded, BurstOnWire;
    var x, y := Xor(Encoded(f)[k], bytes[k]), Xor(Encoded(f)[k+1], bytes[k+1]);
    NeighboursErrorIsAcceptedIff(f, bytes, k);
    XorIsZero(Encoded(f)[k], bytes[k]);
    XorIsZero(Encoded(f)[k+1], bytes[k+1]);
    WireBurstShowsUnless(x, y, a);
  }

  /** Such a burst can hit every frame, in any two neighbouring bytes behind the length. */
  lemma WireBurstIsMissed(f: Frame, k: nat) returns (bytes: seq<Byte>)
    requires Fits(f) && 3 <= k && k + 1 < |Encoded(f)|
    ensures Distorts(f, bytes) && DifferWithin(Encoded(f), bytes, k) && bytes != Encoded(f)
    ensures BurstOnWire(Xor(Encoded(f)[k], bytes[k]), Xor(Encoded(f)[k+1], bytes[k+1]), 5)
    ensures Accepted(NeedSync, bytes) != []
  {
    var x, y := Encoded(f)[k], Encoded(f)[k+1];
    bytes := Encoded(f)[k := Xor(x, 0xD8)][k+1 := Xor(y, 0x06)];
    assert Encoded(f)[0] == SYNC_BYTE;
    assert BurstOnWire(0xD8, 0x06, 5);
    hide Encoded, Xor, Accepted, Shifts, BurstOnWire;
    XorUndone(x, 0xD8);
    XorUndone(y, 0x06);
    XorCommutes(x, Xor(x, 0xD8));
    XorCommutes(y, Xor(y, 0x06));
    XorIsZero(x, x);
    XorIsZero(x, bytes[k]);
    WireBurstIsAcceptedIff(f, bytes, k, 5);
  }

  /** A change of one byte, however many of its bits it touches, is detected. */
  lemma OneByteErrorIsRejected(f: Frame, bytes: seq<Byte>, k: nat)
    requires Fits(f) && Distorts(f, bytes)
    requires k < |bytes| && bytes[k] != Encoded(f)[k] && forall i :: 0 <= i < |bytes| && i != k ==> bytes[i] == Encoded(f)[i]
    ensures Accepted(NeedSync, bytes) == [] && After(NeedSync, bytes) == NeedSync
  {
    hide After, Accepted, Crc, Encoded, Covered, Distorts, Fits;
    var sent, got, last := DistortedParts(f, bytes);
    OneChangeWithin(Encoded(f), bytes, k, SYNC_BYTE, sent, got, Crc(0, sent), last);
    if k <= |sent| {
      OneChangeShows(0, sent, got, k - 1);
    }
  }

  /** The one place where two frames with the same first byte differ is in the middle or the last. */
  lemma OneChangeWithin(a: seq<Byte>, b: seq<Byte>, k: nat, first: Byte, m: seq<Byte>, n: seq<Byte>, x: Byte, y: Byte)
    requires |m| == |n| && a == [first] + m + [x] && b == [first] + n + [y]
    requires k < |a| && a[k] != b[k] && forall i :: 0 <= i < |a| && i != k ==> b[i] == a[i]
    ensures k > 0
    ensures k <= |m| ==> m[k-1] != n[k-1] && x == y && forall i :: 0 <= i < |m| && i != k - 1 ==> m[i] == n[i]
    ensures k > |m| ==> m == n && x != y
  {
    assert forall i :: 0 <= i < |m| ==> m[i] == a[i+1] && n[i] == b[i+1];
    assert x == a[|m|+1] && y == b[|m|+1];
  }

  /** An odd number of flipped bits is detected, wherever they are. */
  lemma OddErrorIsRejected(f: Frame, bytes: seq<Byte>)
    requires Fits(f) && Distorts(f, bytes)
    requires Flips(Encoded(f), bytes) % 2 == 1
    ensures Accepted(NeedSync, bytes) == [] && After(NeedSync, bytes) == NeedSync
  {
    hide After, Accepted, Crc, Encoded, Covered, Odd, Ones, Xor, Flips;
    var sent, got, last := DistortedParts(f, bytes);
    CrcKeepsOdd(0, sent, got);
    FlipsOfFrame(SYNC_BYTE, sent, got, Crc(0, sent), last);
    OddCountsOnes(Xor(Crc(0, sent), last));
  }

  /** The flips of two frames with the same first byte. */
  lemma FlipsOfFrame(s: Byte, a: seq<Byte>, b: seq<Byte>, x: Byte, y: Byte)
    requires |a| == |b|
    ensures Flips([s] + a + [x], [s] + b + [y]) == Flips(a, b) + Ones(Xor(x, y))
  {
    hide Ones;
    FlipsFromSecond([s] + a, [s] + b);
    assert ([s] + a)[1..] == a && ([s] + b)[1..] == b;
    assert ([s] + a + [x])[..|a|+1] == [s] + a && ([s] + b + [y])[..|a|+1] == [s] + b;
  }

  lemma {:induction false} FlipsFromSecond(a: seq<Byte>, b: seq<Byte>)
    requires |a| == |b| > 0 && a[0] == b[0]
    ensures Flips(a, b) == Flips(a[1..], b[1..])
    decreases |a|
  {
    var k := |a| - 1;
    if k == 0 {
      XorOfSame(a[0]);
      assert Ones(0) == 0;
      assert Flips(a[..0], b[..0]) == 0;
    } else {
      hide Ones;
      FlipsFromSecond(a[..k], b[..k]);
      assert a[..k][1..] == a[1..][..k-1] && b[..k][1..] == b[1..][..k-1];
    }
  }
}
