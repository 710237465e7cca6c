/**
 The fountain code as a parameter. The matrix code is a foreign component; what the layers above
 rely on is stated by `Lawful`: the code is systematic, and from genuine symbols the decoder gives
 the true object or nothing, the object for sure once every source symbol is in, and nothing from
 fewer distinct symbols than the block has.
 */
module RaptorQ {
  import opened MachineInts
  import opened ByteCodec
  import opened Arithmetic
  import opened Wrappers

  /** RaptorQ payload IDs carry a 24-bit Encoding Symbol ID, section 3.2 of RFC 6330. */
  const ESI_LIMIT := 0x100_0000
  const PACKET_HEADER_LEN := 4

  /** Object transmission information of a one-block object. */
  datatype Oti = Oti(transferLength: nat, symbolSize: nat) {
    predicate Valid() {
      transferLength > 0 && symbolSize > 0
    }

    function SourceSymbols(): nat
      requires Valid()
    {
      CeilDiv(transferLength, symbolSize)
    }
  }

  /** Distinct symbols a block decoder holds, by Encoding Symbol ID. */
  type Received = map<nat, Bytes>

  function Zeros(n: nat): (z: Bytes)
    ensures |z| == n
  {
    seq(n, _ => 0)
  }

  /** Source symbol `esi`: the object cut into symbols, the last one padded with zeros. */
  function SourceSymbol(source: Bytes, symbolSize: nat, esi: nat): (symbol: Bytes)
    requires esi * symbolSize <= |source|
    ensures |symbol| == symbolSize
  {
    (source + Zeros(symbolSize))[esi * symbolSize..esi * symbolSize + symbolSize]
  }

  /** A source symbol byte by byte: the object where there is one, 0 behind it. */
  lemma SourceSymbolBytes(source: Bytes, symbolSize: nat, esi: nat, t: nat)
    requires esi * symbolSize <= |source| && t < symbolSize
    ensures var at := esi * symbolSize + t;
            SourceSymbol(source, symbolSize, esi)[t] == if at < |source| then source[at] else 0
  {
  }

  datatype Code = Code(symbol: (Bytes, nat, nat) -> Bytes, decode: (Oti, Received) -> Option<Bytes>) {

    /** Every symbol held is one the encoder makes from `source`. */
    ghost predicate Genuine(source: Bytes, symbolSize: nat, received: Received) {
      forall esi | esi in received :: received[esi] == symbol(source, symbolSize, esi)
    }

    ghost predicate LawfulSymbol(source: Bytes, symbolSize: nat, esi: nat)
      requires symbolSize > 0
    {
      && |symbol(source, symbolSize, esi)| == symbolSize
      && (esi < CeilDiv(|source|, symbolSize) && esi * symbolSize <= |source| ==>
            symbol(source, symbolSize, esi) == SourceSymbol(source, symbolSize, esi))
    }

    ghost predicate LawfulDecode(source: Bytes, symbolSize: nat, received: Received)
      requires source != [] && symbolSize > 0
    {
      var oti := Oti(|source|, symbolSize);
      Genuine(source, symbolSize, received) ==>
        && (decode(oti, received).Some? ==> decode(oti, received).value == source)
        && ((forall esi: nat | esi < oti.SourceSymbols() :: esi in received) ==> decode(oti, received).Some?)
        && (|received| < oti.SourceSymbols() ==> decode(oti, received).None?)
    }

    ghost predicate Lawful() {
      && (forall source: Bytes, symbolSize: nat, esi: nat | symbolSize > 0 ::
            LawfulSymbol(source, symbolSize, esi))
      && (forall source: Bytes, symbolSize: nat, received: Received | source != [] && symbolSize > 0 ::
            LawfulDecode(source, symbolSize, received))
    }
  }

  /** A serialized packet: source block number, big-endian Encoding Symbol ID, symbol bytes. */
  function SerializePacket(sourceBlock: u8, esi: nat, symbol: Bytes): Bytes
    requires esi < ESI_LIMIT
  {
    [sourceBlock] + ToBE(esi, 3) + symbol
  }

  datatype Packet = Packet(sourceBlock: u8, esi: nat, symbol: Bytes)

  function DeserializePacket(payload: Bytes): Packet
    requires |payload| >= PACKET_HEADER_LEN
  {
    Packet(payload[0], FromBE(payload[1..4]), payload[4..])
  }

  lemma PacketRoundTrip(sourceBlock: u8, esi: nat, symbol: Bytes)
    requires esi < ESI_LIMIT
    ensures DeserializePacket(SerializePacket(sourceBlock, esi, symbol)) == Packet(sourceBlock, esi, symbol)
  {
    var payload := SerializePacket(sourceBlock, esi, symbol);
    Pow256Values();
    FromToBE(esi, 3);
    assert payload[1..4] == ToBE(esi, 3);
    assert payload[4..] == symbol;
  }

  /** The packet on the wire: block number, symbol id in three bytes, highest first, then the symbol. */
  lemma PacketLayout(sourceBlock: u8, esi: nat, symbol: Bytes)
    requires esi < 16_777_216
    ensures SerializePacket(sourceBlock, esi, symbol) == [sourceBlock, esi / 65_536, esi / 256 % 256, esi % 256] + symbol
  {
    BigEndianThree(esi);
  }

  /** And read from any bytes. */
  lemma PacketFields(payload: Bytes)
    requires |payload| >= 4
    ensures var p := DeserializePacket(payload);
            && p.sourceBlock == payload[0] && p.symbol == payload[4..]
            && p.esi as int == 65_536 * payload[1] as int + 256 * payload[2] as int + payload[3] as int
  {
    assert payload[1..4] == [payload[1], payload[2], payload[3]];
    FromBigEndianThree(payload[1], payload[2], payload[3]);
  }

  // ----- `Lawful` can be met: the systematic symbols alone form a lawful code

  function SystematicSymbol(source: Bytes, symbolSize: nat, esi: nat): Bytes {
    if esi * symbolSize <= |source| then SourceSymbol(source, symbolSize, esi) else Zeros(symbolSize)
  }

  function SystematicDecode(oti: Oti, received: Received): Option<Bytes> {
    if oti.Valid() && forall esi: nat | esi < oti.SourceSymbols() :: esi in received then
      var padded := Joined(received, oti.SourceSymbols());
      if oti.transferLength <= |padded| then Some(padded[..oti.transferLength]) else None
    else
      None
  }

  /** The first `n` symbols in order, where present. */
  function Joined(received: Received, n: nat): Bytes {
    if n == 0 then [] else
      Joined(received, n - 1) + (if n - 1 in received then received[n - 1] else [])
  }

  const SYSTEMATIC := Code(SystematicSymbol, SystematicDecode)

  lemma SourceSymbolsFit(source: Bytes, symbolSize: nat, n: nat)
    requires symbolSize > 0 && source != [] && n <= CeilDiv(|source|, symbolSize)
    ensures n * symbolSize <= |source| + symbolSize
    ensures n < CeilDiv(|source|, symbolSize) ==> n * symbolSize <= |source|
  {
    var k := CeilDiv(|source|, symbolSize);
    CeilDivCovers(|source|, symbolSize);
    assert (k - 1) * symbolSize == k * symbolSize - symbolSize;
    MulAtMost(n, k, symbolSize);
    if n < k {
      MulAtMost(n, k - 1, symbolSize);
    }
  }

  lemma HeldSourceSymbol(source: Bytes, symbolSize: nat, received: Received, esi: nat)
    requires SYSTEMATIC.Genuine(source, symbolSize, received)
    requires esi in received && esi * symbolSize <= |source|
    ensures received[esi] == SourceSymbol(source, symbolSize, esi)
  {
    hide SourceSymbol;
  }

  /** One more symbol lengthens a prefix of the padded object. */
  lemma NextSymbol(source: Bytes, symbolSize: nat, n: nat)
    requires n > 0 && (n - 1) * symbolSize <= |source|
    ensures n * symbolSize == (n - 1) * symbolSize + symbolSize
    ensures (source + Zeros(symbolSize))[..n * symbolSize]
            == (source + Zeros(symbolSize))[..(n - 1) * symbolSize] + SourceSymbol(source, symbolSize, n - 1)
  {
    hide Zeros;
    var padded, from := source + Zeros(symbolSize), (n - 1) * symbolSize;
    assert n * symbolSize == from + symbolSize;
    assert padded[..from + symbolSize] == padded[..from] + padded[from..from + symbolSize];
  }

  lemma {:induction false} JoinedIsPrefix(source: Bytes, symbolSize: nat, received: Received, n: nat)
    requires source != [] && symbolSize > 0 && n <= CeilDiv(|source|, symbolSize)
    requires SYSTEMATIC.Genuine(source, symbolSize, received)
    requires forall esi: nat | esi < n :: esi in received
    requires n * symbolSize <= |source| + symbolSize
    ensures Joined(received, n) == (source + Zeros(symbolSize))[..n * symbolSize]
  {
    hide SourceSymbol, Zeros;
    if n > 0 {
      SourceSymbolsFit(source, symbolSize, n - 1);
      JoinedIsPrefix(source, symbolSize, received, n - 1);
      HeldSourceSymbol(source, symbolSize, received, n - 1);
      NextSymbol(source, symbolSize, n);
    }
  }

  lemma {:induction false} KeysBelow(received: Received, n: nat)
    requires forall esi: nat | esi < n :: esi in received
    ensures |received| >= n
  {
    if n > 0 {
      var rest := received - {n - 1};
      KeysBelow(rest, n - 1);
      assert rest.Keys == received.Keys - {n - 1};
    }
  }

  lemma SystematicDecodes(source: Bytes, symbolSize: nat, received: Received)
    requires source != [] && symbolSize > 0
    ensures SYSTEMATIC.LawfulDecode(source, symbolSize, received)
  {
    var oti := Oti(|source|, symbolSize);
    var k := oti.SourceSymbols();
    if SYSTEMATIC.Genuine(source, symbolSize, received) && forall esi: nat | esi < k :: esi in received {
      SourceSymbolsFit(source, symbolSize, k);
      JoinedIsPrefix(source, symbolSize, received, k);
      KeysBelow(received, k);
      CeilDivCovers(|source|, symbolSize);
      assert (source + Zeros(symbolSize))[..k * symbolSize][..|source|] == source;
    }
  }

  lemma SystematicIsLawful()
    ensures SYSTEMATIC.Lawful()
  {
    forall source: Bytes, symbolSize: nat, received: Received | source != [] && symbolSize > 0
      ensures SYSTEMATIC.LawfulDecode(source, symbolSize, received)
    {
      SystematicDecodes(source, symbolSize, received);
    }
    forall source: Bytes, symbolSize: nat, esi: nat | symbolSize > 0
      ensures SYSTEMATIC.LawfulSymbol(source, symbolSize, esi)
    {
    }
  }
}
