/**
 Fixed-width integer fields in little- and big-endian byte order, and fixed tables of such fields.
 Every header of the wire formats is a table of little-endian fields.
 */
module ByteCodec {
  import opened MachineInts

  type Bytes = seq<u8>

  function Pow256(n: nat): (r: nat)
    ensures r > 0
  {
    if n == 0 then 1 else 256 * Pow256(n - 1)
  }

  lemma Pow256Values()
    ensures Pow256(1) == 0x100 && Pow256(2) == 0x1_0000 && Pow256(3) == 0x100_0000 && Pow256(4) == 0x1_0000_0000
    ensures Pow256(8) == 0x1_0000_0000_0000_0000
  {
    assert Pow256(4) == 256 * Pow256(3) && Pow256(3) == 256 * Pow256(2) && Pow256(2) == 256 * Pow256(1);
    assert Pow256(8) == 256 * Pow256(7) && Pow256(7) == 256 * Pow256(6);
    assert Pow256(6) == 256 * Pow256(5) && Pow256(5) == 256 * Pow256(4);
  }

  /** `to_le_bytes` of a value of `width` bytes */
  function ToLE(v: nat, width: nat): (bytes: Bytes)
    ensures |bytes| == width
  {
    if width == 0 then [] else [v % 256] + ToLE(v / 256, width - 1)
  }

  /** `from_le_bytes` */
  function FromLE(bytes: Bytes): (v: nat)
    ensures v < Pow256(|bytes|)
  {
    if bytes == [] then 0 else bytes[0] + 256 * FromLE(bytes[1..])
  }

  lemma {:induction false} FromToLE(v: nat, width: nat)
    requires v < Pow256(width)
    ensures FromLE(ToLE(v, width)) == v
  {
    if width > 0 {
      FromToLE(v / 256, width - 1);
      assert ToLE(v, width)[1..] == ToLE(v / 256, width - 1);
    }
  }

  lemma {:induction false} ToFromLE(bytes: Bytes)
    ensures ToLE(FromLE(bytes), |bytes|) == bytes
  {
    if bytes != [] {
      ToFromLE(bytes[1..]);
      var rest := FromLE(bytes[1..]);
      assert (bytes[0] + 256 * rest) % 256 == bytes[0] && (bytes[0] + 256 * rest) / 256 == rest;
    }
  }

  lemma FromLEInjective(a: Bytes, b: Bytes)
    requires |a| == |b| && FromLE(a) == FromLE(b)
    ensures a == b
  {
    ToFromLE(a);
    ToFromLE(b);
  }

  function Reverse(bytes: Bytes): (r: Bytes)
    ensures |r| == |bytes|
  {
    if bytes == [] then [] else Reverse(bytes[1..]) + [bytes[0]]
  }

  lemma {:induction false} ReverseAppend(bytes: Bytes, last: u8)
    ensures Reverse(bytes + [last]) == [last] + Reverse(bytes)
  {
    if bytes == [] {
      assert bytes + [last] == [last];
    } else {
      ReverseAppend(bytes[1..], last);
      assert (bytes + [last])[1..] == bytes[1..] + [last];
    }
  }

  lemma {:induction false} ReverseTwice(bytes: Bytes)
    ensures Reverse(Reverse(bytes)) == bytes
  {
    if bytes != [] {
      ReverseAppend(Reverse(bytes[1..]), bytes[0]);
      ReverseTwice(bytes[1..]);
    }
  }

  /** `to_be_bytes` of a value of `width` bytes */
  function ToBE(v: nat, width: nat): (bytes: Bytes)
    ensures |bytes| == width
  {
    Reverse(ToLE(v, width))
  }

  /** `from_be_bytes` */
  function FromBE(bytes: Bytes): (v: nat)
    ensures v < Pow256(|bytes|)
  {
    FromLE(Reverse(bytes))
  }

  lemma FromToBE(v: nat, width: nat)
    requires v < Pow256(width)
    ensures FromBE(ToBE(v, width)) == v
  {
    ReverseTwice(ToLE(v, width));
    FromToLE(v, width);
  }

  // ----- tables of little-endian fields

  function TotalWidth(widths: seq<nat>): nat {
    if widths == [] then 0 else widths[0] + TotalWidth(widths[1..])
  }

  lemma {:induction false} TotalWidthConcat(a: seq<nat>, b: seq<nat>)
    ensures TotalWidth(a + b) == TotalWidth(a) + TotalWidth(b)
  {
    if a == [] {
      assert a + b == b;
    } else {
      assert (a + b)[1..] == a[1..] + b;
      TotalWidthConcat(a[1..], b);
    }
  }

  lemma WidthOfTwo(a: nat, b: nat)
    ensures TotalWidth([a, b]) == a + b
  {
    assert [a, b][1..] == [b] && [b][1..] == [];
    assert TotalWidth([b]) == b;
  }

  /** Appending four fields to a table. */
  lemma AppendFour(front: seq<nat>, a: nat, b: nat, c: nat, d: nat)
    ensures TotalWidth(front + [a, b, c, d]) == TotalWidth(front) + a + b + c + d
  {
    WidthOfTwo(a, b);
    WidthOfTwo(c, d);
    assert [a, b, c, d] == [a, b] + [c, d];
    TotalWidthConcat([a, b], [c, d]);
    TotalWidthConcat(front, [a, b, c, d]);
  }

  lemma EmptyTable()
    ensures TotalWidth([]) == 0
  {
  }

  /** Byte offset at which field `k` of a table starts. */
  function Offset(widths: seq<nat>, k: nat): nat
    requires k <= |widths|
  {
    if k == 0 then 0 else widths[0] + Offset(widths[1..], k - 1)
  }

  ghost predicate Fits(widths: seq<nat>, values: seq<nat>) {
    |widths| == |values| && forall k | 0 <= k < |widths| :: values[k] < Pow256(widths[k])
  }

  function EncodeFields(widths: seq<nat>, values: seq<nat>): (bytes: Bytes)
    requires |widths| == |values|
    ensures |bytes| == TotalWidth(widths)
  {
    if widths == [] then [] else ToLE(values[0], widths[0]) + EncodeFields(widths[1..], values[1..])
  }

  /** The fields at the front of `bytes`; whatever follows the table is ignored. */
  function DecodeFields(widths: seq<nat>, bytes: Bytes): (values: seq<nat>)
    requires |bytes| >= TotalWidth(widths)
    ensures Fits(widths, values)
  {
    if widths == [] then [] else
      [FromLE(bytes[..widths[0]])] + DecodeFields(widths[1..], bytes[widths[0]..])
  }

  lemma {:induction false} DecodeEncodeFields(widths: seq<nat>, values: seq<nat>, rest: Bytes)
    requires Fits(widths, values)
    ensures DecodeFields(widths, EncodeFields(widths, values) + rest) == values
  {
    if widths != [] {
      hide FromLE, ToLE, Pow256;
      var head := ToLE(values[0], widths[0]);
      var tail := EncodeFields(widths[1..], values[1..]);
      var bytes := EncodeFields(widths, values) + rest;
      assert bytes[..widths[0]] == head;
      assert bytes[widths[0]..] == tail + rest;
      FromToLE(values[0], widths[0]);
      DecodeEncodeFields(widths[1..], values[1..], rest);
    }
  }

  lemma {:induction false} EncodeDecodeFields(widths: seq<nat>, bytes: Bytes)
    requires |bytes| >= TotalWidth(widths)
    ensures EncodeFields(widths, DecodeFields(widths, bytes)) == bytes[..TotalWidth(widths)]
  {
    if widths != [] {
      hide FromLE, ToLE, Pow256;
      ToFromLE(bytes[..widths[0]]);
      EncodeDecodeFields(widths[1..], bytes[widths[0]..]);
      var values := DecodeFields(widths, bytes);
      assert values[1..] == DecodeFields(widths[1..], bytes[widths[0]..]);
      assert bytes[..TotalWidth(widths)] == bytes[..widths[0]] + bytes[widths[0]..][..TotalWidth(widths[1..])];
    }
  }

  /** Field `k` is the little-endian integer at the byte range the table assigns to it. */
  lemma {:induction false} FieldAt(widths: seq<nat>, bytes: Bytes, k: nat)
    requires |bytes| >= TotalWidth(widths) && k < |widths|
    requires Offset(widths, k) + widths[k] <= |bytes|
    ensures DecodeFields(widths, bytes)[k] == FromLE(bytes[Offset(widths, k)..Offset(widths, k) + widths[k]])
  {
    hide FromLE, Pow256;
    if k > 0 {
      var w, tail := widths[0], bytes[widths[0]..];
      var from := Offset(widths[1..], k - 1);
      FieldAt(widths[1..], tail, k - 1);
      SliceOfTail(bytes, w, from, from + widths[k]);
      assert DecodeFields(widths, bytes)[k] == DecodeFields(widths[1..], tail)[k - 1];
    }
  }

  lemma SliceOfTail(bytes: Bytes, w: nat, from: nat, to: nat)
    requires from <= to && w + to <= |bytes|
    ensures bytes[w..][from..to] == bytes[w + from..w + to]
  {
  }

  lemma {:induction false} OffsetNext(widths: seq<nat>, k: nat)
    requires k < |widths|
    ensures Offset(widths, k + 1) == Offset(widths, k) + widths[k] <= TotalWidth(widths)
  {
    if k > 0 {
      OffsetNext(widths[1..], k - 1);
    }
  }

  /** Where each field of a table that starts at byte `front` begins. */
  ghost predicate Starts(front: nat, widths: seq<nat>, starts: seq<nat>) {
    && |starts| == |widths| > 0 && starts[0] == front
    && forall k | 1 <= k < |widths| :: starts[k] == starts[k - 1] + widths[k - 1]
  }

  lemma {:induction false} StartIs(front: nat, widths: seq<nat>, starts: seq<nat>, k: nat)
    requires Starts(front, widths, starts) && k < |widths|
    ensures starts[k] == front + Offset(widths, k) && starts[k] + widths[k] <= front + TotalWidth(widths)
  {
    hide Offset, TotalWidth;
    OffsetNext(widths, k);
    if k == 0 {
      NoOffset(widths);
    } else {
      StartIs(front, widths, starts, k - 1);
      OffsetNext(widths, k - 1);
    }
  }

  lemma NoOffset(widths: seq<nat>)
    ensures Offset(widths, 0) == 0
  {
  }

  /** Every field of a table behind `front` bytes is the little-endian integer at its own bytes. */
  lemma FieldsAtStarts(front: nat, widths: seq<nat>, starts: seq<nat>, bytes: Bytes)
    requires Starts(front, widths, starts) && |bytes| >= front + TotalWidth(widths)
    ensures forall k | 0 <= k < |widths| ::
              && starts[k] + widths[k] <= |bytes|
              && DecodeFields(widths, bytes[front..])[k] == FromLE(bytes[starts[k]..starts[k] + widths[k]])
  {
    hide FromLE, DecodeFields, Offset, TotalWidth;
    forall k | 0 <= k < |widths|
      ensures starts[k] + widths[k] <= |bytes|
      ensures DecodeFields(widths, bytes[front..])[k] == FromLE(bytes[starts[k]..starts[k] + widths[k]])
    {
      StartIs(front, widths, starts, k);
      FieldAt(widths, bytes[front..], k);
      SliceOfTail(bytes, front, Offset(widths, k), Offset(widths, k) + widths[k]);
    }
  }

  lemma SingleByte(b: u8)
    ensures FromLE([b]) == b
  {
    assert [b][1..] == [];
  }

  // ----- byte by byte

  lemma LowByteFirst(bytes: Bytes)
    requires bytes != []
    ensures FromLE(bytes) == bytes[0] + 256 * FromLE(bytes[1..])
    ensures FromLE([]) == 0
  {
  }

  lemma LittleEndianFour(a: u8, b: u8, c: u8, d: u8)
    ensures FromLE([a, b, c, d]) as int == a as int + 256 * b as int + 65_536 * c as int + 16_777_216 * d as int
  {
    hide FromLE;
    LowByteFirst([a, b, c, d]);
    LowByteFirst([b, c, d]);
    LowByteFirst([c, d]);
    LowByteFirst([d]);
    assert [a, b, c, d][1..] == [b, c, d] && [b, c, d][1..] == [c, d] && [c, d][1..] == [d] && [d][1..] == [];
  }

  lemma FromBigEndianThree(a: u8, b: u8, c: u8)
    ensures FromBE([a, b, c]) as int == 65_536 * a as int + 256 * b as int + c as int
  {
    ReverseThree(a, b, c);
    LowByteFirst([c, b, a]);
    LowByteFirst([b, a]);
    LowByteFirst([a]);
    assert [c, b, a][1..] == [b, a] && [b, a][1..] == [a] && [a][1..] == [];
  }

  lemma ReverseThree(a: u8, b: u8, c: u8)
    ensures Reverse([a, b, c]) == [c, b, a]
  {
    assert [a, b, c][1..] == [b, c] && [b, c][1..] == [c] && [c][1..] == [];
    assert Reverse([c]) == [c] && Reverse([b, c]) == [c, b];
  }

  lemma ReverseFront(a: u8, rest: Bytes)
    ensures Reverse([a] + rest) == Reverse(rest) + [a]
  {
    assert ([a] + rest)[1..] == rest;
  }

  /** The highest byte first. */
  lemma HighByteFirst(v: nat, width: nat)
    requires width > 0
    ensures ToBE(v, width) == ToBE(v / 256, width - 1) + [v % 256]
  {
    LowByteWritten(v, width);
    ReverseFront(v % 256, ToLE(v / 256, width - 1));
  }

  lemma LowByteWritten(v: nat, width: nat)
    ensures ToLE(v, width) == if width == 0 then [] else [v % 256] + ToLE(v / 256, width - 1)
  {
  }

  lemma BigEndianThree(v: nat)
    requires v < 16_777_216
    ensures ToBE(v, 3) == [v / 65_536, v / 256 % 256, v % 256]
  {
    hide ToLE, Reverse;
    LowByteWritten(v, 3);
    LowByteWritten(v / 256, 2);
    LowByteWritten(v / 256 / 256, 1);
    LowByteWritten(0, 0);
    assert v / 256 / 256 == v / 65_536 == v / 65_536 % 256;
    ReverseThree(v % 256, v / 256 % 256, v / 65_536);
    assert ToLE(v, 3) == [v % 256, v / 256 % 256, v / 65_536];
  }
}
