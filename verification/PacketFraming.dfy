/** Length-prefixed packets between tcp/ssl/client.c and tcp/ssl/server.c. */
module PacketFraming {
  import opened Bytes

  const MAX_PACKET_SIZE := 8192

  /** `htonl`: four bytes, the most significant first. */
  function Header(n: nat): (h: bytes)
    requires n < 0x1_0000_0000
    ensures |h| == 4
  {
    [n / 0x100_0000, n / 0x1_0000 % 256, n / 256 % 256, n % 256]
  }

  /** `ntohl`. */
  function HeaderValue(h: bytes): (n: nat)
    requires |h| >= 4
    ensures n < 0x1_0000_0000
  {
    var a: int, b: int, c: int, d: int := h[0], h[1], h[2], h[3];
    0x100_0000 * a + 0x1_0000 * b + 256 * c + d
  }

  lemma HeaderRoundTrip(n: nat, rest: bytes)
    requires n < 0x1_0000_0000
    ensures HeaderValue(Header(n) + rest) == n
  {
    assert n / 256 == 256 * (n / 0x1_0000) + n / 256 % 256;
    assert n / 0x1_0000 == 256 * (n / 0x100_0000) + n / 0x1_0000 % 256;
  }

  /** Network byte order: the bytes are the digits of the number to the base 256, the first on top. */
  lemma NetworkOrder(h: bytes)
    requires |h| == 4
    ensures HeaderValue(h) == ((h[0] as int * 256 + h[1] as int) * 256 + h[2] as int) * 256 + h[3] as int
    ensures forall n: nat :: n < 0x1_0000_0000 ==> (Header(n) == h <==> HeaderValue(h) == n)
  {
    var a: int, b: int, c: int, d: int := h[0], h[1], h[2], h[3];
    var v := HeaderValue(h);
    assert v / 0x100_0000 == a && v / 0x1_0000 == 256 * a + b && v / 256 == 0x1_0000 * a + 256 * b + c;
    assert Header(v) == h;
    forall n: nat | n < 0x1_0000_0000 ensures HeaderValue(Header(n)) == n {
      HeaderRoundTrip(n, []);
      assert Header(n) + [] == Header(n);
    }
  }

  /** A payload `send_packet` can be called with: its length is an unsigned 32-bit integer. */
  type Payload = p: bytes | |p| < 0x1_0000_0000

  function Frame(p: Payload): (f: bytes)
    ensures |f| == 4 + |p|
  {
    Header(|p|) + p
  }

  /** Everything a client that sends these payloads puts on the wire. */
  function Frames(ps: seq<Payload>): bytes {
    if ps == [] then [] else Frame(ps[0]) + Frames(ps[1..])
  }

  /** A length the server accepts. */
  predicate Acceptable(n: nat) { 1 <= n <= MAX_PACKET_SIZE }

  /** The packet at the front of the received bytes, if it is whole and its length is accepted. */
  function First(received: bytes): (packet: Option<bytes>)
    ensures packet.Some? ==> 4 + |packet.value| <= |received|
  {
    if |received| < 4 then None
    else
      var n := HeaderValue(received);
      if !Acceptable(n) || |received| < 4 + n then None else Some(received[4..4 + n])
  }

  /** The packets the server assembles from the bytes it has received before the connection ends. */
  function Packets(received: bytes): seq<bytes> {
    match First(received)
    case None => []
    case Some(packet) => [packet] + Packets(received[4 + |packet|..])
  }

  lemma HeaderAlone(received: bytes)
    requires |received| >= 4
    ensures HeaderValue(received[..4]) == HeaderValue(received)
  {
  }

  // ----- sending -----

  /** `(int)len`. */
  function AsInt(len: nat): int
    requires len < 0x1_0000_0000
  {
    if len < 0x8000_0000 then len else len - 0x1_0000_0000
  }

  class Wire {
    var sent: bytes

    constructor ()
      ensures sent == []
    {
      sent := [];
    }

    /** `send`: some first part of the data goes out; the result is its length or an error. */
    method Send(data: bytes) returns (n: int)
      modifies this
      ensures -1 <= n <= |data|
      ensures sent == old(sent) + data[..if n < 0 then 0 else n]
    {
      var k: int := *;
      if 0 <= k <= |data| {
        sent := sent + data[..k];
        n := k;
      } else {
        n := -1;
        assert data[..0] == [];
      }
    }

    /**
     * `send_packet`: success means the whole frame is out, failure only a first part of it (all of
     * an empty frame). From 2^31 bytes on the comparison with a negative int spoils this: the call
     * fails whatever is sent, except that with 2^32 - 1 bytes an error of `send` counts as success.
     */
    method SendPacket(data: Payload) returns (status: int)
      modifies this
      ensures status == 0 || status == -1
      ensures status == 0 ==>
                if |data| < 0x8000_0000 then sent == old(sent) + Frame(data)
                else |data| == 0xFFFF_FFFF && sent == old(sent) + Header(|data|)
      ensures status == -1 ==>
                exists k :: 0 <= k <= |Frame(data)| && sent == old(sent) + Frame(data)[..k]
                            && (k == |Frame(data)| ==> data == [] || |data| >= 0x8000_0000)
    {
      var n := Send(Header(|data|));
      if n != 4 {
        var k := if n < 0 then 0 else n;
        assert Header(|data|)[..k] == Frame(data)[..k];
        assert sent == old(sent) + Frame(data)[..k];
        return -1;
      }
      assert sent == old(sent) + Header(|data|);
      n := Send(data);
      if n != AsInt(|data|) {
        var k := if n < 0 then 0 else n;
        assert Frame(data)[..4 + k] == Header(|data|) + data[..k];
        assert sent == old(sent) + Frame(data)[..4 + k];
        return -1;
      }
      assert |data| < 0x8000_0000 ==> sent == old(sent) + Frame(data);
      return 0;
    }
  }

  // ----- receiving -----

  /** A connection on which `stream` arrives, in pieces nobody can foresee, and then the end or an error. */
  class Connection {
    const stream: bytes
    var at: nat

    constructor (stream: bytes)
      ensures this.stream == stream && at == 0
    {
      this.stream := stream;
      at := 0;
    }

    ghost predicate Valid()
      reads this
    {
      at <= |stream|
    }

    /** `recv` into `buf` from `offset` on, at most `len` bytes. */
    method Recv(buf: array<byte>, offset: nat, len: nat) returns (n: int)
      requires Valid() && len > 0 && offset + len <= buf.Length
      modifies this`at, buf
      ensures Valid() && n <= len
      ensures n <= 0 <==> old(at) == |stream|
      ensures at == old(at) + if n > 0 then n else 0
      ensures buf[..offset] == old(buf[..offset])
      ensures n > 0 ==> buf[offset..offset + n] == stream[old(at)..at]
    {
      if at == |stream| {
        n := *;
        if n > 0 { n := 0; }
        return;
      }
      var most := if len < |stream| - at then len else |stream| - at;
      n := *;
      if n < 1 || n > most { n := most; }
      var i := 0;
      while i < n
        invariant 0 <= i <= n && at == old(at) && buf[..offset] == old(buf[..offset])
        invariant buf[offset..offset + i] == stream[at..at + i]
      {
        buf[offset + i] := stream[at + i];
        assert buf[offset..offset + i + 1] == buf[offset..offset + i] + [stream[at + i]];
        i := i + 1;
      }
      at := at + n;
    }

    /** `recv_all`: all `len` bytes, or the end of the connection was met before them. */
    method RecvAll(buf: array<byte>, len: nat) returns (n: int)
      requires Valid() && 0 < len == buf.Length
      modifies this`at, buf
      ensures Valid()
      ensures old(at) + len <= |stream| ==> n == len && at == old(at) + len && buf[..] == stream[old(at)..at]
      ensures old(at) + len > |stream| ==> n <= 0 && at == |stream|
    {
      var total := 0;
      while total < len
        invariant 0 <= total <= len && Valid() && at == old(at) + total
        invariant buf[..total] == stream[old(at)..at]
      {
        var k := Recv(buf, total, len - total);
        if k <= 0 { return k; }
        assert buf[..total + k] == buf[..total] + buf[total..total + k];
        assert stream[old(at)..at] == stream[old(at)..at - k] + stream[at - k..at];
        total := total + k;
      }
      assert buf[..] == buf[..len];
      return total;
    }

    /** One turn of the packet loop: a length and that many bytes, unless something stops it. */
    method ReceivePacket() returns (packet: Option<bytes>)
      requires Valid()
      modifies this`at
      ensures Valid() && packet == First(stream[old(at)..])
      ensures packet.Some? ==> at == old(at) + 4 + |packet.value|
    {
      hide HeaderValue;
      ghost var rest := stream[at..];
      var lenNet := new byte[4];
      var n := RecvAll(lenNet, 4);
      if n <= 0 { return None; }
      assert lenNet[..] == rest[..4];
      HeaderAlone(rest);
      var len := HeaderValue(lenNet[..]);
      if len == 0 || len > MAX_PACKET_SIZE { return None; }
      var payload := new byte[len];
      n := RecvAll(payload, len);
      if n <= 0 { return None; }
      assert payload[..] == rest[4..4 + len];
      return Some(payload[..]);
    }

    /** The packet loop of `worker_thread`, up to what is done with each packet. */
    method ReceivePackets() returns (packets: seq<bytes>)
      requires Valid()
      modifies this`at
      ensures packets == Packets(stream[old(at)..])
    {
      hide First;
      packets := [];
      ghost var whole := Packets(stream[at..]);
      while true
        invariant Valid() && packets + Packets(stream[at..]) == whole
        decreases |stream| - at
      {
        ghost var rest := stream[at..];
        var packet := ReceivePacket();
        if packet == None { return; }
        assert stream[at..] == rest[4 + |packet.value|..];
        packets := packets + [packet.value];
      }
    }
  }

  // ----- sent and received -----

  /** How many of the frames lie wholly within the first `n` bytes, counting from the front. */
  function Contained(ps: seq<Payload>, n: nat): (k: nat)
    ensures k <= |ps|
  {
    if ps == [] || n < |Frame(ps[0])| then 0 else 1 + Contained(ps[1..], n - |Frame(ps[0])|)
  }

  /** `Contained` is the largest number of frames that fit. */
  lemma {:induction false} ContainedIsMost(ps: seq<Payload>, n: nat, k: nat)
    requires k <= |ps|
    ensures k <= Contained(ps, n) <==> |Frames(ps[..k])| <= n
  {
    if k > 0 {
      assert ps[..k][1..] == ps[1..][..k - 1];
      if n >= |Frame(ps[0])| { ContainedIsMost(ps[1..], n - |Frame(ps[0])|, k - 1); }
    }
  }

  /** How many payloads come before the first whose length the server refuses. */
  function AcceptedCount(ps: seq<Payload>): (k: nat)
    ensures k <= |ps|
    ensures k == |ps| <==> forall p :: p in ps ==> 1 <= |p| <= 8192
  {
    if ps == [] || !Acceptable(|ps[0]|) then 0 else 1 + AcceptedCount(ps[1..])
  }

  function Smaller(a: nat, b: nat): nat { if a < b then a else b }

  /** A first part of a concatenation that reaches past the first piece. */
  lemma PrefixSplits(a: bytes, b: bytes, n: nat)
    requires |a| <= n <= |a| + |b|
    ensures (a + b)[..n] == a + b[..n - |a|]
  {
  }

  /** What the server makes of the first `n` bytes of a frame and what follows it. */
  lemma FirstOfFrame(p: Payload, rest: bytes, n: nat)
    requires n <= |Frame(p) + rest|
    ensures First((Frame(p) + rest)[..n]) == if n < |Frame(p)| || !Acceptable(|p|) then None else Some(p)
  {
    hide Header, HeaderValue;
    var received := (Frame(p) + rest)[..n];
    var payload: bytes := p;
    if n >= 4 {
      assert Frame(p) + rest == Header(|payload|) + (payload + rest);
      PrefixSplits(Header(|payload|), payload + rest, n);
      HeaderRoundTrip(|payload|, (payload + rest)[..n - 4]);
      if n >= |Frame(p)| {
        PrefixSplits(Frame(p), rest, n);
        assert received[4..4 + |p|] == p;
      }
    }
  }

  /**
   * Whatever part of the sent bytes arrives, the server assembles exactly the packets wholly
   * inside it, in order, up to the first one whose length it refuses.
   */
  lemma {:induction false} ReceivedAreSent(ps: seq<Payload>, n: nat)
    requires n <= |Frames(ps)|
    ensures Packets(Frames(ps)[..n]) == ps[..Smaller(Contained(ps, n), AcceptedCount(ps))]
  {
    hide Packets, Frames, Contained, AcceptedCount, First, Frame, Acceptable;
    if ps == [] {
      NothingSent(n);
    } else {
      var f, rest := Frame(ps[0]), Frames(ps[1..]);
      FramesStep(ps, n);
      FirstOfFrame(ps[0], rest, n);
      PacketsStep((f + rest)[..n]);
      if n >= |f| && Acceptable(|ps[0]|) {
        PrefixSplits(f, rest, n);
        assert (f + rest)[..n][|f|..] == rest[..n - |f|];
        ReceivedAreSent(ps[1..], n - |f|);
        TakeMore(ps, Smaller(Contained(ps[1..], n - |f|), AcceptedCount(ps[1..])));
      }
    }
  }

  lemma NothingSent(n: nat)
    ensures n <= |Frames([])| ==> Packets(Frames([])[..n]) == [][..Smaller(Contained([], n), AcceptedCount([]))]
  {
  }

  lemma PacketsStep(received: bytes)
    ensures First(received) == None ==> Packets(received) == []
    ensures First(received).Some? ==>
              Packets(received) == [First(received).value] + Packets(received[4 + |First(received).value|..])
  {
    hide First;
  }

  /** One frame more: what is sent, and how many packets come out of it. */
  lemma FramesStep(ps: seq<Payload>, n: nat)
    requires ps != []
    ensures
      var f := Frame(ps[0]);
      && Frames(ps) == f + Frames(ps[1..]) && |f| == 4 + |ps[0]|
      && Smaller(Contained(ps, n), AcceptedCount(ps))
         == if n < |f| || !Acceptable(|ps[0]|) then 0
            else 1 + Smaller(Contained(ps[1..], n - |f|), AcceptedCount(ps[1..]))
  {
    hide Frame, Acceptable;
  }

  lemma TakeMore(ps: seq<Payload>, k: nat)
    requires ps != [] && k < |ps|
    ensures [ps[0]] + ps[1..][..k] == ps[..k + 1]
  {
  }

  /** All packets of a complete stream arrive exactly when every length is between 1 and 8192. */
  lemma AllArriveIff(ps: seq<Payload>)
    ensures Packets(Frames(ps)) == ps <==> forall p :: p in ps ==> Acceptable(|p|)
  {
    hide Packets, Frames;
    var n := |Frames(ps)|;
    ReceivedAreSent(ps, n);
    assert Frames(ps)[..n] == Frames(ps);
    assert ps[..|ps|] == ps;
    ContainedIsMost(ps, n, |ps|);
  }
}
