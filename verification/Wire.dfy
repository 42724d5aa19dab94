/** The out-of-band message header and the dispatch on message types: pkg/proto/proto.go. */
module Wire {
  import opened Optional
  import opened Framing

  const TypeData: nat := 0
  const TypeInit: nat := 1
  const TypeRouteOOB: nat := 2
  const TypeOOB: nat := 3
  const TypeKeepalive: nat := 4
  const TypeKeepaliveReply: nat := 5
  const MaxType: nat := 5

  const HeaderHops: nat := 1
  const HeaderSourceAddr: nat := 2
  const HeaderSourcePort: nat := 18
  const HeaderDestAddr: nat := 20
  const HeaderPad: nat := 36
  const HeaderDestPort: nat := 37
  const HeaderData: nat := 39

  type Port = x: nat | x < 65536

  /** An OOBMessage or a RouteOOBMessage; addresses are byte strings of any length. */
  datatype Message = Message(hops: Octet, sourceAddr: Octets, sourcePort: Port, destAddr: Octets, destPort: Port,
                             data: Octets)

  /** What copying an address into sixteen zeroed bytes leaves there. */
  function Fitted(addr: Octets): (r: Octets)
    ensures |r| == 16
    ensures r == addr <==> |addr| == 16
  {
    seq(16, i requires 0 <= i < 16 => if i < |addr| then addr[i] else 0)
  }

  function Encoding(kind: Octet, m: Message): Octets {
    [kind, m.hops] + Fitted(m.sourceAddr) + PutUint16(m.sourcePort)
    + Fitted(m.destAddr) + [0] + PutUint16(m.destPort) + m.data
  }

  /** copy(b[at:at+16], addr). */
  method CopyAddress(b: array<Octet>, at: nat, addr: Octets)
    requires at + 16 <= b.Length && forall i :: at <= i < at + 16 ==> b[i] == 0
    modifies b
    ensures forall j :: 0 <= j < b.Length ==> b[j] == if at <= j < at + 16 then Fitted(addr)[j - at] else old(b[j])
  {
    var n := if |addr| < 16 then |addr| else 16;
    for i := 0 to n
      invariant forall j :: 0 <= j < b.Length ==> b[j] == if at <= j < at + i then addr[j - at] else old(b[j])
    {
      b[at + i] := addr[i];
    }
  }

  /** binary.BigEndian.PutUint16(b[at:at+2], n). */
  method StoreUint16(b: array<Octet>, at: nat, n: Port)
    requires at + 2 <= b.Length
    modifies b
    ensures forall j :: 0 <= j < b.Length ==> b[j] == if at <= j < at + 2 then PutUint16(n)[j - at] else old(b[j])
  {
    b[at], b[at + 1] := n / 256, n % 256;
  }

  /** The byte at a position of the header. */
  function HeaderAt(kind: Octet, m: Message, j: nat): Octet
    requires j < HeaderData
  {
    if j == 0 then kind
    else if j == HeaderHops then m.hops
    else if j < HeaderSourcePort then Fitted(m.sourceAddr)[j - HeaderSourceAddr]
    else if j < HeaderDestAddr then PutUint16(m.sourcePort)[j - HeaderSourcePort]
    else if j < HeaderPad then Fitted(m.destAddr)[j - HeaderDestAddr]
    else if j == HeaderPad then 0
    else PutUint16(m.destPort)[j - HeaderDestPort]
  }

  lemma EncodingAt(kind: Octet, m: Message)
    ensures |Encoding(kind, m)| == HeaderData + |m.data|
    ensures forall j :: 0 <= j < HeaderData ==> Encoding(kind, m)[j] == HeaderAt(kind, m, j)
    ensures forall j :: 0 <= j < |m.data| ==> Encoding(kind, m)[HeaderData + j] == m.data[j]
  {
  }

  /** The header of a message; what follows it is left alone. */
  method WriteHeader(b: array<Octet>, m: Message)
    requires b.Length >= HeaderData && forall i :: 0 <= i < b.Length ==> b[i] == 0
    modifies b
    ensures forall j :: 0 <= j < HeaderData ==> b[j] == HeaderAt(TypeOOB, m, j)
  {
    b[0] := TypeOOB;
    b[HeaderHops] := m.hops;
    CopyAddress(b, HeaderSourceAddr, m.sourceAddr);
    StoreUint16(b, HeaderSourcePort, m.sourcePort);
    CopyAddress(b, HeaderDestAddr, m.destAddr);
    StoreUint16(b, HeaderDestPort, m.destPort);
  }

  /** OOBMessage.Marshal: the header fields, then the data, written into a zeroed buffer. */
  method MarshalOOB(m: Message) returns (b: array<Octet>)
    ensures fresh(b) && b[..] == Encoding(TypeOOB, m)
  {
    b := new Octet[HeaderData + |m.data|](i => 0);
    WriteHeader(b, m);
    for i := 0 to |m.data|
      invariant forall j :: 0 <= j < HeaderData ==> b[j] == HeaderAt(TypeOOB, m, j)
      invariant forall j :: HeaderData <= j < HeaderData + i ==> b[j] == m.data[j - HeaderData]
    {
      b[HeaderData + i] := m.data[i];
    }
    EncodingAt(TypeOOB, m);
    forall j | 0 <= j < b.Length ensures b[j] == Encoding(TypeOOB, m)[j] {
      if j >= HeaderData {
        assert Encoding(TypeOOB, m)[HeaderData + (j - HeaderData)] == m.data[j - HeaderData];
      }
    }
  }

  /** RouteOOBMessage.Marshal: the same with another type byte. */
  method MarshalRouteOOB(m: Message) returns (b: array<Octet>)
    ensures fresh(b) && b[..] == Encoding(TypeRouteOOB, m)
  {
    b := MarshalOOB(m);
    b[0] := TypeRouteOOB;
    assert b[1..] == Encoding(TypeRouteOOB, m)[1..];
  }

  // ----- decoding ------------------------------------------------------------------------

  datatype Decoded = Decoded(message: Message) | TooShort | WrongType

  function Decode(kind: Octet, b: Octets): Decoded {
    if |b| < HeaderData then TooShort
    else if b[0] != kind then WrongType
    else Decoded(Message(
      b[HeaderHops],
      b[HeaderSourceAddr..HeaderSourceAddr + 16],
      Uint16(b[HeaderSourcePort..HeaderSourcePort + 2]),
      b[HeaderDestAddr..HeaderDestAddr + 16],
      Uint16(b[HeaderDestPort..HeaderDestPort + 2]),
      b[HeaderData..]))
  }

  lemma Uint16RoundTrip(n: Port)
    ensures Uint16(PutUint16(n)) == n
  {
  }

  lemma PutUint16RoundTrip(b: Octets)
    requires |b| == 2
    ensures PutUint16(Uint16(b)) == b
  {
  }

  /** The sections of an encoding. */
  lemma EncodingSections(kind: Octet, m: Message)
    ensures var e := Encoding(kind, m);
            && |e| == HeaderData + |m.data|
            && e[0] == kind && e[HeaderHops] == m.hops
            && e[HeaderSourceAddr..HeaderSourceAddr + 16] == Fitted(m.sourceAddr)
            && e[HeaderSourcePort..HeaderSourcePort + 2] == PutUint16(m.sourcePort)
            && e[HeaderDestAddr..HeaderDestAddr + 16] == Fitted(m.destAddr)
            && e[HeaderPad] == 0
            && e[HeaderDestPort..HeaderDestPort + 2] == PutUint16(m.destPort)
            && e[HeaderData..] == m.data
  {
  }

  /** The layout by number: type and hop count, source address and port, destination address, a zero
      byte, destination port, data; ports with the high byte first. */
  lemma EncodingLayout(kind: Octet, m: Message)
    requires |m.sourceAddr| == 16 && |m.destAddr| == 16
    ensures var e := Encoding(kind, m);
            && |e| == 39 + |m.data| && e[0] == kind && e[1] == m.hops
            && e[2..18] == m.sourceAddr && 256 * (e[18] as nat) + e[19] == m.sourcePort
            && e[20..36] == m.destAddr && e[36] == 0 && 256 * (e[37] as nat) + e[38] == m.destPort
            && e[39..] == m.data
  {
    EncodingSections(kind, m);
    var e := Encoding(kind, m);
    assert e[18] == e[18..20][0] && e[19] == e[18..20][1];
    assert e[37] == e[37..39][0] && e[38] == e[37..39][1];
  }

  /** Decoding gives back the message with its addresses cut or padded to sixteen bytes, so the
      round trip is exact just for sixteen-byte addresses. */
  lemma DecodeEncoding(kind: Octet, m: Message)
    ensures Decode(kind, Encoding(kind, m)) ==
            Decoded(m.(sourceAddr := Fitted(m.sourceAddr), destAddr := Fitted(m.destAddr)))
    ensures Decode(kind, Encoding(kind, m)) == Decoded(m) <==> |m.sourceAddr| == 16 && |m.destAddr| == 16
  {
    EncodingSections(kind, m);
    Uint16RoundTrip(m.sourcePort);
    Uint16RoundTrip(m.destPort);
  }

  /** Encoding a decoded message gives back the input exactly when its pad byte is zero. */
  lemma EncodeDecoded(kind: Octet, b: Octets)
    requires Decode(kind, b).Decoded?
    ensures Encoding(kind, Decode(kind, b).message) == b[HeaderPad := 0]
    ensures Encoding(kind, Decode(kind, b).message) == b <==> b[HeaderPad] == 0
  {
    var m := Decode(kind, b).message;
    PutUint16RoundTrip(b[HeaderSourcePort..HeaderSourcePort + 2]);
    PutUint16RoundTrip(b[HeaderDestPort..HeaderDestPort + 2]);
    assert Fitted(m.sourceAddr) == m.sourceAddr && Fitted(m.destAddr) == m.destAddr;
    SectionsOf(b[HeaderPad := 0], kind, m);
  }

  lemma SectionsOf(b: Octets, kind: Octet, m: Message)
    requires |b| == HeaderData + |m.data| && b[0] == kind && b[HeaderHops] == m.hops && b[HeaderPad] == 0
    requires b[HeaderSourceAddr..HeaderSourceAddr + 16] == Fitted(m.sourceAddr)
    requires b[HeaderSourcePort..HeaderSourcePort + 2] == PutUint16(m.sourcePort)
    requires b[HeaderDestAddr..HeaderDestAddr + 16] == Fitted(m.destAddr)
    requires b[HeaderDestPort..HeaderDestPort + 2] == PutUint16(m.destPort)
    requires b[HeaderData..] == m.data
    ensures b == Encoding(kind, m)
  {
    assert b == [b[0], b[1]] + b[2..18] + b[18..20] + b[20..36] + [b[36]] + b[37..39] + b[39..];
  }

  // ----- dispatch ------------------------------------------------------------------------

  /** Msg.Type, with None for the error type. */
  function TypeOf(b: Octets): Option<nat> {
    if |b| < 1 then None
    else if b[0] / 16 == 6 then Some(TypeData)
    else if b[0] <= MaxType then Some(b[0])
    else None
  }

  /** The JSON bodies of the other message types are outside this model. */
  datatype Unmarshalled =
    | Packet(bytes: Octets)
    | Json(kind: nat, body: Octets)
    | OOB(oob: Decoded)
    | RouteOOB(route: Decoded)
    | UnknownType

  function Unmarshal(b: Octets): Unmarshalled {
    match TypeOf(b)
    case None => UnknownType
    case Some(t) =>
      if t == TypeData then Packet(b)
      else if t == TypeRouteOOB then RouteOOB(Decode(TypeRouteOOB, b))
      else if t == TypeOOB then OOB(Decode(TypeOOB, b))
      else Json(t, b[1..])
  }

  /** Each encoding comes back through its own decoder. */
  lemma DispatchRoundTrip(m: Message)
    requires |m.sourceAddr| == 16 && |m.destAddr| == 16
    ensures Unmarshal(Encoding(TypeOOB, m)) == OOB(Decoded(m))
    ensures Unmarshal(Encoding(TypeRouteOOB, m)) == RouteOOB(Decoded(m))
  {
    EncodingSections(TypeOOB, m);
    EncodingSections(TypeRouteOOB, m);
    DecodeEncoding(TypeOOB, m);
    DecodeEncoding(TypeRouteOOB, m);
  }

  /** A message counts as a packet when it starts with IPv6's version nibble, and also, because
      the data type has number zero, when it starts with a zero byte.  No encoding does. */
  lemma PacketsAreNotConfused(b: Octets)
    ensures Unmarshal(b).Packet? <==> |b| > 0 && (b[0] / 16 == 6 || b[0] == 0)
    ensures Unmarshal(b).OOB? <==> |b| > 0 && b[0] == 3
    ensures Unmarshal(b).RouteOOB? <==> |b| > 0 && b[0] == 2
    ensures Unmarshal(b).Json? <==> |b| > 0 && (b[0] == 1 || b[0] == 4 || b[0] == 5)
    ensures Unmarshal(b).Json? ==> Unmarshal(b) == Json(b[0], b[1..])
    ensures Unmarshal(b).OOB? && Unmarshal(b).oob.Decoded? ==>
            Unmarshal(Encoding(TypeOOB, Unmarshal(b).oob.message)) == Unmarshal(b)
  {
    if Unmarshal(b).OOB? && Unmarshal(b).oob.Decoded? {
      DispatchRoundTrip(Unmarshal(b).oob.message);
    }
  }
}
