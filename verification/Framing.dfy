/** Message framing over a byte stream: pkg/backends/backend_tcp/backend_tcp.go. */
module Framing {
  import opened Optional

  type Octet = x: nat | x < 256
  type Octets = seq<Octet>

  const MTU: nat := 1500

  /** The high byte comes first. */
  function PutUint16(n: nat): (b: Octets)
    requires n < 65536
    ensures |b| == 2 && 256 * (b[0] as nat) + b[1] == n
  {
    [n / 256, n % 256]
  }

  function Uint16(b: Octets): (n: nat)
    requires |b| == 2
    ensures n < 65536
  {
    var high: nat := b[0];
    256 * high + b[1]
  }

  // ----- one message ---------------------------------------------------------------------

  /** Messages that go onto the stream; empty ones are skipped and long ones refused. */
  predicate Carried(data: Octets) {
    0 < |data| <= MTU
  }

  /** The bytes that writing a message adds to the stream. */
  function Frame(data: Octets): Octets {
    if Carried(data) then PutUint16(|data|) + data else []
  }

  /** The bytes of a frame: the length, high byte first, and the message.  A message of 300 bytes
      starts with 1 and 44, and the longest one has 1500 bytes. */
  lemma FrameBytes(data: Octets)
    ensures 1 <= |data| <= 1500 <==> Frame(data) != []
    ensures Frame(data) != [] ==>
              && |Frame(data)| == |data| + 2 && Frame(data)[2..] == data
              && 256 * (Frame(data)[0] as nat) + Frame(data)[1] == |data|
    ensures |data| == 300 ==> Frame(data)[..2] == [1, 44]
  {
    if Carried(data) {
      assert Frame(data)[2..] == data;
    }
  }

  datatype Read = Read(message: Octets, rest: Octets)

  /** Reading one message needs its two length bytes and all of its body. */
  function ReadOne(stream: Octets): (r: Option<Read>)
    ensures r.Some? ==> |r.value.rest| < |stream|
  {
    if |stream| < 2 || |stream| - 2 < Uint16(stream[..2]) then None
    else
      var size := Uint16(stream[..2]);
      Some(Read(stream[2..2 + size], stream[2 + size..]))
  }

  lemma ReadFrame(data: Octets, tail: Octets)
    requires Carried(data)
    ensures ReadOne(Frame(data) + tail) == Some(Read(data, tail))
  {
    var s := Frame(data) + tail;
    assert s[..2] == PutUint16(|data|);
    assert s[2..2 + |data|] == data;
    assert s[2 + |data|..] == tail;
  }

  lemma ReadCutFrame(data: Octets, k: nat)
    requires Carried(data) && k < |Frame(data)|
    ensures ReadOne(Frame(data)[..k]) == None
  {
    if k >= 2 {
      assert Frame(data)[..k][..2] == PutUint16(|data|);
    }
  }

  // ----- streams -------------------------------------------------------------------------

  function Stream(messages: seq<Octets>): Octets {
    if messages == [] then [] else Frame(messages[0]) + Stream(messages[1..])
  }

  function Sendable(messages: seq<Octets>): seq<Octets> {
    if messages == [] then []
    else (if Carried(messages[0]) then [messages[0]] else []) + Sendable(messages[1..])
  }

  function ReadAll(stream: Octets): seq<Octets>
    decreases |stream|
  {
    var r := ReadOne(stream);
    if r.None? then [] else [r.value.message] + ReadAll(r.value.rest)
  }

  /** Every list of messages arrives as it was written, without the skipped and refused ones. */
  lemma {:induction false} StreamRoundTrip(messages: seq<Octets>)
    ensures ReadAll(Stream(messages)) == Sendable(messages)
  {
    if messages != [] {
      StreamRoundTrip(messages[1..]);
      if Carried(messages[0]) {
        ReadFrame(messages[0], Stream(messages[1..]));
      } else {
        assert Stream(messages) == Stream(messages[1..]);
      }
    }
  }

  /** The number of messages whose frames lie wholly within the first k bytes. */
  function WholeFrames(sent: seq<Octets>, k: int): nat {
    if sent == [] || k < |Frame(sent[0])| then 0 else 1 + WholeFrames(sent[1..], k - |Frame(sent[0])|)
  }

  lemma {:induction false} WholeFramesFit(sent: seq<Octets>, k: nat)
    requires forall m :: m in sent ==> Carried(m)
    requires k <= |Stream(sent)|
    ensures WholeFrames(sent, k) <= |sent|
    ensures WholeFrames(sent, k) == |sent| <==> k == |Stream(sent)|
  {
    if sent != [] && k >= |Frame(sent[0])| {
      WholeFramesFit(sent[1..], k - |Frame(sent[0])|);
    }
  }

  lemma ReadAllFrame(data: Octets, tail: Octets)
    requires Carried(data)
    ensures ReadAll(Frame(data) + tail) == [data] + ReadAll(tail)
  {
    ReadFrame(data, tail);
  }

  lemma CutStream(head: Octets, tail: Octets, k: nat)
    requires k <= |head + tail|
    ensures (head + tail)[..k] == if k < |head| then head[..k] else head + tail[..k - |head|]
  {
  }

  /** However the stream is cut, what arrives is the messages whose frames survived whole: a
      prefix of what was sent, never a fragment of a message. */
  lemma {:induction false} CutStreamGivesPrefix(sent: seq<Octets>, k: nat)
    requires forall m :: m in sent ==> Carried(m)
    requires k <= |Stream(sent)|
    ensures WholeFrames(sent, k) <= |sent|
    ensures ReadAll(Stream(sent)[..k]) == sent[..WholeFrames(sent, k)]
  {
    if sent != [] {
      var head := Frame(sent[0]);
      var tail := Stream(sent[1..]);
      CutStream(head, tail, k);
      if k < |head| {
        ReadCutFrame(sent[0], k);
      } else {
        ReadAllFrame(sent[0], tail[..k - |head|]);
        CutStreamGivesPrefix(sent[1..], k - |head|);
        PrefixOfCons(sent, WholeFrames(sent[1..], k - |head|));
      }
    }
  }

  lemma PrefixOfCons<T>(s: seq<T>, n: nat)
    requires 1 + n <= |s|
    ensures s[..1 + n] == [s[0]] + s[1..][..n]
  {
  }

  // ----- the object ----------------------------------------------------------------------

  datatype WriteResult = Written | ExceedsMTU | Broken

  /** The first k bytes, or all of them. */
  function Cut(b: Octets, k: nat): (c: Octets)
    ensures |c| <= k
  {
    if k < |b| then b[..k] else b
  }

  /** One end of a connection: the bytes it has written, and those that have come in. */
  class TcpBackend {
    var written: Octets
    var incoming: Octets

    constructor (incoming: Octets)
      ensures written == [] && this.incoming == incoming
    {
      written, this.incoming := [], incoming;
    }

    /** The connection takes room more bytes before it breaks. */
    method WriteMessage(data: Octets, room: nat) returns (r: WriteResult)
      modifies `written
      ensures r.ExceedsMTU? <==> |data| > MTU
      ensures r.Broken? <==> room < |Frame(data)|
      ensures written == old(written) + Cut(Frame(data), room)
    {
      if |data| > MTU {
        return ExceedsMTU;
      }
      if |data| == 0 {
        return Written;
      }
      var packet := PutUint16(|data|);
      packet := packet + data;
      var n := if room < |packet| then room else |packet|;
      written := written + packet[..n];
      if n != |data| + 2 {
        return Broken;
      }
      return Written;
    }

    /** io.ReadFull: all of n bytes, or an error that has used up what was there. */
    method ReadFull(n: nat) returns (p: Option<Octets>)
      modifies `incoming
      ensures n <= |old(incoming)| ==> p == Some(old(incoming)[..n]) && incoming == old(incoming)[n..]
      ensures n > |old(incoming)| ==> p == None && incoming == []
    {
      if n > |incoming| {
        p, incoming := None, [];
      } else {
        p, incoming := Some(incoming[..n]), incoming[n..];
      }
    }

    method ReadMessage() returns (p: Option<Octets>)
      modifies `incoming
      ensures match ReadOne(old(incoming))
              case None => p == None && incoming == []
              case Some(r) => p == Some(r.message) && incoming == r.rest
    {
      var lenBytes := ReadFull(2);
      if lenBytes.None? {
        return None;
      }
      var msgLen := Uint16(lenBytes.value);
      p := ReadFull(msgLen);
      ghost var s := old(incoming);
      assert 2 + msgLen <= |s| ==> s[2..][..msgLen] == s[2..2 + msgLen] && s[2..][msgLen..] == s[2 + msgLen..];
    }

    /** The read loop of a session: messages until the first error. */
    method ReadMessages() returns (messages: seq<Octets>)
      modifies `incoming
      ensures messages == ReadAll(old(incoming)) && incoming == []
    {
      messages := [];
      while true
        invariant messages + ReadAll(incoming) == ReadAll(old(incoming))
        decreases |incoming|
      {
        ghost var before := incoming;
        var p := ReadMessage();
        if p.None? {
          return;
        }
        assert ReadAll(before) == [p.value] + ReadAll(incoming);
        messages := messages + [p.value];
      }
    }
  }

  lemma {:induction false} StreamSnoc(messages: seq<Octets>, m: Octets)
    ensures Stream(messages + [m]) == Stream(messages) + Frame(m)
  {
    if messages == [] {
      assert messages + [m] == [m];
      assert Stream([m]) == Frame(m) + Stream([]);
    } else {
      assert (messages + [m])[1..] == messages[1..] + [m];
      StreamSnoc(messages[1..], m);
    }
  }

  lemma {:induction false} SendableStream(messages: seq<Octets>)
    ensures Stream(Sendable(messages)) == Stream(messages)
    ensures forall m :: m in Sendable(messages) ==> Carried(m)
  {
    if messages != [] {
      SendableStream(messages[1..]);
      if Carried(messages[0]) {
        assert Sendable(messages) == [messages[0]] + Sendable(messages[1..]);
        assert Sendable(messages)[1..] == Sendable(messages[1..]);
      } else {
        assert Sendable(messages) == Sendable(messages[1..]);
        assert Stream(messages) == Stream(messages[1..]);
      }
    }
  }

  lemma CutAppend(a: Octets, b: Octets, k: nat)
    ensures Cut(a + b, k) == Cut(a, k) + Cut(b, k - |Cut(a, k)|)
  {
  }

  /** Cutting the stream of any messages leaves the carried ones whose frames are whole, and all of
      them exactly if nothing is cut. */
  lemma CutTransfer(messages: seq<Octets>, k: nat)
    ensures ReadAll(Cut(Stream(messages), k)) <= Sendable(messages)
    ensures ReadAll(Cut(Stream(messages), k)) == Sendable(messages) <==> k >= |Stream(messages)|
    ensures k < |Stream(messages)| ==> |ReadAll(Cut(Stream(messages), k))| == WholeFrames(Sendable(messages), k)
  {
    var sent := Sendable(messages);
    SendableStream(messages);
    var n := if k < |Stream(sent)| then k else |Stream(sent)|;
    assert Cut(Stream(sent), k) == Stream(sent)[..n];
    CutStreamGivesPrefix(sent, n);
    WholeFramesFit(sent, n);
  }

  /** Both ends together: the messages written at one end, whatever was refused or skipped, are
      the ones read at the other, until the connection breaks after any number of bytes; and all
      of them arrive exactly if it lasts for the whole stream. */
  method Transfer(messages: seq<Octets>, lasts: nat) returns (received: seq<Octets>)
    ensures received <= Sendable(messages)
    ensures received == Sendable(messages) <==> lasts >= |Stream(messages)|
    ensures lasts < |Stream(messages)| ==> |received| == WholeFrames(Sendable(messages), lasts)
  {
    var sender := new TcpBackend([]);
    for i := 0 to |messages|
      invariant sender.written == Cut(Stream(messages[..i]), lasts)
    {
      CutAppend(Stream(messages[..i]), Frame(messages[i]), lasts);
      var _ := sender.WriteMessage(messages[i], lasts - |sender.written|);
      StreamSnoc(messages[..i], messages[i]);
      assert messages[..i] + [messages[i]] == messages[..i + 1];
    }
    assert messages[..|messages|] == messages;
    var receiver := new TcpBackend(sender.written);
    received := receiver.ReadMessages();
    CutTransfer(messages, lasts);
  }
}
