/**
 * The bit cursor of the ZRLE decoder (`BitReader` in src/zrle.rs): it reads
 * bit fields most-significant bit first out of a byte stream, one byte at a
 * time, and refuses any read that would straddle a byte boundary.
 *
 * The state of a reader is a `BitState`: the bytes its wrapped reader has not
 * delivered yet, the byte being consumed and the number of its bits already
 * consumed (`position`, where 8 means "no partially read byte"). Each
 * operation is first defined on states, and the class `BitReader` performs
 * the same operation in place and is proved to agree with it.
 */
module BitReading {
  import opened Protocol

  datatype BitState = BitState(rest: seq<byte>, buffer: byte, position: bv8)
  {
    /** At most 8 bits of a byte can have been consumed. */
    predicate Valid() {
      position <= 8
    }

    /** No bit of the current byte is left: the next read starts on a byte boundary. */
    predicate Aligned() {
      position == 8
    }
  }

  /** The value read together with the state after the read. */
  datatype Step<+T> = Step(value: T, next: BitState)

  /** Pairs the outcome of an in-place read with the state it left behind. */
  function Paired<T>(r: Result<T>, s: BitState): Result<Step<T>> {
    match r
    case Ok(v) => Ok(Step(v, s))
    case Err(e) => Err(e)
  }

  /** Bit `i` of `b`, counting from the most significant bit (`i == 0`). */
  predicate BitAt(b: byte, i: bv8)
    requires i < 8
  {
    (b >> (7 - i)) & 1 == 1
  }

  /** The mask of the `count` low bits, computed wide enough that `count == 8` is the full byte. */
  function Mask(count: bv8): (m: byte)
    requires 1 <= count <= 8
    ensures forall i: bv8 :: i < 8 ==> (BitAt(m, i) <==> 8 - count <= i)
  {
    ((1 as bv16 << count) - 1) as bv8
  }

  /** The mask as the original computes it: `(1 << count) - 1` in 8 bits, which overflows the
      shift when `count` is 8. */
  function MaskAsWritten(count: bv8): (r: Result<byte>)
    requires 1 <= count <= 8
    ensures r.Ok? <==> count < 8
    ensures r.Ok? ==> r.value == Mask(count)
  {
    if count >= 8 then Err(Panic(ShiftOverflow)) else Ok((1 as bv8 << count) - 1)
  }

  /** The `count` bits of `b` that follow its first `p` bits, as the low bits of the result:
      `(b >> (8 - (count + p))) & mask`. */
  function Field(b: byte, p: bv8, count: bv8): (v: byte)
    requires 1 <= count <= 8 && p <= 8 && p + count <= 8
    ensures forall k: bv8 :: k < 8 ==>
      (BitAt(v, k) <==> 8 - count <= k && BitAt(b, p + k - (8 - count)))
  {
    (b >> (8 - (count + p))) & Mask(count)
  }

  /** The as-written mask cannot serve a whole-byte read: `read_bits(8)` on a byte boundary
      aborts, where the full-width mask reads the next byte whole. */
  lemma WholeByteRead(s: BitState)
    requires s.Valid() && s.Aligned() && s.rest != []
    ensures MaskAsWritten(8) == Err(Panic(ShiftOverflow))
    ensures ReadBitsFrom(s, 8) == Err(Panic(ShiftOverflow))
    ensures ReadBitsWide(s, 8) == Ok(Step(s.rest[0], BitState(s.rest[1..], s.rest[0], 8)))
  {
    assert Refill(s) == Ok(BitState(s.rest[1..], s.rest[0], 0));
  }

  /** Makes a byte available: a fresh byte is fetched only when the current one is used up. */
  function Refill(s: BitState): (r: Result<BitState>)
    requires s.Valid()
    ensures r.Err? <==> s.position == 8 && s.rest == []
    ensures r.Err? ==> r.error == UnexpectedEof
    ensures r.Ok? ==> r.value.position < 8
    // no stream byte is skipped, and a byte with bits left is kept as it is
    ensures r.Ok? && s.position == 8 ==> s.rest == [r.value.buffer] + r.value.rest
    ensures r.Ok? && s.position < 8 ==> r.value == s
  {
    if s.position == 8 then
      if s.rest == [] then Err(UnexpectedEof) else Ok(BitState(s.rest[1..], s.rest[0], 0))
    else Ok(s)
  }

  /** `read_bits(count)` as written: the `count` bits following `position`, most significant
      first, masked with `MaskAsWritten`, so that a whole-byte read aborts. */
  function ReadBitsFrom(s: BitState, count: bv8): (r: Result<Step<byte>>)
    requires s.Valid() && 1 <= count <= 8
    ensures r.Ok? ==> r.value.next.Valid() && count < 8
    ensures r == Err(UnexpectedEof) <==> s.position == 8 && s.rest == []
    ensures r == Err(UnalignedBitRead) <==> s.position < 8 && s.position + count > 8
    ensures r == Err(Panic(ShiftOverflow)) <==> count == 8 && (s.position == 0 || (s.position == 8 && s.rest != []))
    ensures r.Ok? || r == Err(UnexpectedEof) || r == Err(UnalignedBitRead) || r == Err(Panic(ShiftOverflow))
    // a fresh byte is taken from the stream exactly when the current one is used up
    ensures r.Ok? && s.position == 8 ==>
      r.value.next == BitState(s.rest[1..], s.rest[0], count)
    ensures r.Ok? && s.position < 8 ==>
      r.value.next == s.(position := s.position + count)
    // the value holds the bits `position .. position + count - 1` of the byte, MSB first
    ensures r.Ok? ==> r.value.value == Field(r.value.next.buffer, r.value.next.position - count, count)
  {
    var t :- Refill(s);
    if t.position + count <= 8 then
      // once the mask is computed it is `Mask(count)`, and the value is the field it selects
      match MaskAsWritten(count)
      case Err(e) => Err(e)
      case Ok(_) => Ok(Step(Field(t.buffer, t.position, count), t.(position := t.position + count)))
    else
      Err(UnalignedBitRead)
  }

  /** `read_bits(count)` with the full-width mask: the same read, which also serves
      `count == 8`. */
  function ReadBitsWide(s: BitState, count: bv8): (r: Result<Step<byte>>)
    requires s.Valid() && 1 <= count <= 8
    ensures count < 8 ==> r == ReadBitsFrom(s, count)
    ensures r.Err? <==> ReadBitsFrom(s, count).Err? && ReadBitsFrom(s, count) != Err(Panic(ShiftOverflow))
    ensures r.Ok? && s.position == 8 ==> r.value.next == BitState(s.rest[1..], s.rest[0], count)
    ensures r.Ok? && s.position < 8 ==> r.value.next == s.(position := s.position + count)
    ensures r.Ok? ==> r.value.next.Valid() && r.value.value == Field(r.value.next.buffer, r.value.next.position - count, count)
  {
    var t :- Refill(s);
    if t.position + count <= 8 then
      Ok(Step(Field(t.buffer, t.position, count), t.(position := t.position + count)))
    else
      Err(UnalignedBitRead)
  }

  /** `read_bit`: one bit, as a boolean. */
  function ReadBitFrom(s: BitState): (r: Result<Step<bool>>)
    requires s.Valid()
    ensures r.Ok? <==> ReadBitsFrom(s, 1).Ok?
    ensures r.Err? ==> r.error == ReadBitsFrom(s, 1).error
    // the bit is the one just passed over in the current byte
    ensures r.Ok? ==> r.value.next == ReadBitsFrom(s, 1).value.next && 1 <= r.value.next.position <= 8 &&
                      (r.value.value <==> BitAt(r.value.next.buffer, r.value.next.position - 1))
  {
    var b :- ReadBitsFrom(s, 1);
    Ok(Step(b.value != 0, b.next))
  }

  /** `read_exact` through the reader's `Read` implementation: `n` whole bytes, which is allowed
      only on a byte boundary (reading nothing always succeeds). */
  function ReadExactFrom(s: BitState, n: nat): (r: Result<Step<seq<byte>>>)
    requires s.Valid()
    ensures r.Ok? ==> |r.value.value| == n && s.rest == r.value.value + r.value.next.rest
    ensures r.Ok? ==> r.value.next.position == s.position && r.value.next.buffer == s.buffer
    ensures r == Err(UnalignedByteRead) <==> n > 0 && s.position != 8
    ensures r == Err(UnexpectedEof) <==> n > 0 && s.position == 8 && |s.rest| < n
    ensures r.Ok? || r == Err(UnalignedByteRead) || r == Err(UnexpectedEof)
  {
    if n == 0 then Ok(Step([], s))
    else if s.position != 8 then Err(UnalignedByteRead)
    else if |s.rest| < n then Err(UnexpectedEof)
    else Ok(Step(s.rest[..n], s.(rest := s.rest[n..])))
  }

  /** `read_u8` through the reader: one whole byte. */
  function ReadU8From(s: BitState): (r: Result<Step<byte>>)
    requires s.Valid()
    ensures r.Ok? <==> s.position == 8 && s.rest != []
    ensures r.Ok? ==> r.value == Step(s.rest[0], s.(rest := s.rest[1..]))
  {
    var bytes :- ReadExactFrom(s, 1);
    Ok(Step(bytes.value[0], bytes.next))
  }

  /** `align`: drops the unread bits of the current byte. */
  function AlignFrom(s: BitState): (t: BitState)
    ensures t.Aligned() && t.rest == s.rest
  {
    s.(position := 8)
  }

  /** `into_inner`: gives back the wrapped reader, provided no bit of a byte is left unread. */
  function IntoInnerFrom(s: BitState): (r: Result<seq<byte>>)
    ensures r.Ok? <==> s.Aligned()
    ensures r.Ok? ==> r.value == s.rest
    ensures r.Err? ==> r.error == LeftoverBitData
  {
    if s.position == 8 then Ok(s.rest) else Err(LeftoverBitData)
  }

  /** A byte read succeeds only on a byte boundary, and `align` always restores one. */
  lemma ByteReadsNeedAlignment(s: BitState, n: nat)
    requires s.Valid() && n > 0
    ensures ReadExactFrom(s, n).Ok? ==> s.Aligned()
    ensures ReadExactFrom(AlignFrom(s), n).Ok? <==> n <= |s.rest|
  {
  }

  /** One `read_bit` on a byte `b` of which `j` bits have been consumed yields bit `j`. */
  lemma ReadBitOfByte(rest: seq<byte>, b: byte, j: bv8)
    requires j < 8
    ensures ReadBitFrom(BitState(rest, b, j)) == Ok(Step(BitAt(b, j), BitState(rest, b, j + 1)))
  {
  }

  /** Reading single bits from a byte boundary yields the byte's bits in order, MSB first, and
      leaves the reader `k` bits into the byte. */
  lemma {:induction false} SingleBitsSpellTheByte(s: BitState, k: bv8)
    requires s.Valid() && 1 <= k <= 8
    requires s.Aligned() && s.rest != []
    ensures ReadBitsN(s, k as nat).Ok?
    ensures forall i: bv8 :: i < k ==> ReadBitsN(s, k as nat).value.value[i] == BitAt(s.rest[0], i)
    ensures ReadBitsN(s, k as nat).value.next == BitState(s.rest[1..], s.rest[0], k)
  {
    var b := s.rest[0];
    if k == 1 {
      assert ReadBitsN(s, 0) == Ok(Step([], s));
      assert ReadBitFrom(s) == ReadBitFrom(BitState(s.rest[1..], b, 0)) by {
        assert Refill(s) == Ok(BitState(s.rest[1..], b, 0));
      }
      ReadBitOfByte(s.rest[1..], b, 0);
    } else {
      SingleBitsSpellTheByte(s, k - 1);
      assert (k - 1) as nat == k as nat - 1;
      ReadBitOfByte(s.rest[1..], b, k - 1);
    }
  }

  /** `k` successive `read_bit` calls. */
  function ReadBitsN(s: BitState, k: nat): (r: Result<Step<seq<bool>>>)
    requires s.Valid()
    ensures r.Ok? ==> |r.value.value| == k && r.value.next.Valid()
  {
    if k == 0 then Ok(Step([], s))
    else
      var prefix :- ReadBitsN(s, k - 1);
      var b :- ReadBitFrom(prefix.next);
      Ok(Step(prefix.value + [b.value], b.next))
  }

  /** The bit cursor itself, changed in place by its methods. */
  class BitReader {
    var rest: seq<byte>   // what the wrapped reader has not delivered yet
    var buffer: byte
    var position: bv8

    function State(): BitState
      reads this
    {
      BitState(rest, buffer, position)
    }

    predicate Valid()
      reads this
    {
      position <= 8
    }

    /** `BitReader::new`: no byte has been fetched yet. */
    constructor (source: seq<byte>)
      ensures Valid() && State() == BitState(source, 0, 8)
    {
      rest, buffer, position := source, 0, 8;
    }

    /** `read_bits`: a fresh byte if the current one is used up, then `count` of its bits. */
    method ReadBits(count: bv8) returns (r: Result<byte>)
      requires Valid() && 1 <= count <= 8
      modifies this
      ensures Valid()
      ensures Paired(r, State()) == ReadBitsFrom(old(State()), count)
    {
      if position == 8 {
        if rest == [] {
          return Err(UnexpectedEof);
        }
        buffer := rest[0];
        rest := rest[1..];
        position := 0;
      }
      if position + count <= 8 {
        var mask := MaskAsWritten(count);
        match mask
        case Err(e) => r := Err(e);
        case Ok(_) =>
          r := Ok(Field(buffer, position, count));
          position := position + count;
      } else {
        r := Err(UnalignedBitRead);
      }
    }

    method ReadBit() returns (r: Result<bool>)
      requires Valid()
      modifies this
      ensures Valid()
      ensures Paired(r, State()) == ReadBitFrom(old(State()))
    {
      var b := ReadBits(1);
      match b
      case Ok(v) => r := Ok(v != 0);
      case Err(e) => r := Err(e);
    }

    method Align()
      modifies this
      ensures Valid() && State() == AlignFrom(old(State()))
    {
      position := 8;
    }

    /** `read_exact` through `Read for BitReader`: whole bytes from the wrapped reader. */
    method ReadExact(n: nat) returns (r: Result<seq<byte>>)
      requires Valid()
      modifies this
      ensures Valid()
      ensures Paired(r, State()) == ReadExactFrom(old(State()), n)
    {
      if n == 0 {
        return Ok([]);
      }
      if position != 8 {
        return Err(UnalignedByteRead);
      }
      if |rest| < n {
        return Err(UnexpectedEof);
      }
      r := Ok(rest[..n]);
      rest := rest[n..];
    }

    method ReadU8() returns (r: Result<byte>)
      requires Valid()
      modifies this
      ensures Valid()
      ensures Paired(r, State()) == ReadU8From(old(State()))
    {
      var bytes := ReadExact(1);
      match bytes
      case Ok(v) => r := Ok(v[0]);
      case Err(e) => r := Err(e);
    }

    /** `into_inner`: the undelivered bytes, if no bit is left unread. */
    method IntoInner() returns (r: Result<seq<byte>>)
      ensures r.Ok? <==> position == 8
      ensures r.Ok? ==> r.value == rest
      ensures r.Err? ==> r.error == LeftoverBitData
    {
      if position == 8 {
        r := Ok(rest);
      } else {
        r := Err(LeftoverBitData);
      }
    }
  }
}
