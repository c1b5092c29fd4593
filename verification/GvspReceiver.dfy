/** Putting frames together from GVSP packets (the loop of gvsp_thread in capture/src/camera.c). */
module GvspReceiver {
  import opened GvspPacket

  const MAX_FRAME_SIZE := 2048 * 2448 * 3 * 2
  const UINT32 := 0x1_0000_0000

  // ----- the specification -----

  /** What the callback gets. */
  datatype Frame = Frame(id: nat, data: seq<Byte>)

  /** What becomes of a packet; `Ignored` are the packets before the first frame and those of other content. */
  datatype Class = Error | Ignored | Leader | Block | Trailer

  ghost function LastId(ps: seq<Packet>): nat {
    if ps == [] then 0 else FrameId(ps[|ps| - 1])
  }

  /** Packet `i` begins a frame: its id differs from the one before it, and the first from 0. */
  ghost predicate Begins(ps: seq<Packet>, i: nat)
    requires i < |ps|
  {
    FrameId(ps[i]) != LastId(ps[..i])
  }

  ghost function Starts(ps: seq<Packet>): seq<nat> {
    if ps == [] then []
    else Starts(ps[..|ps| - 1]) + if Begins(ps, |ps| - 1) then [|ps| - 1] else []
  }

  ghost function ContentClass(p: Packet): Class {
    if IsError(p) then Error
    else if ContentType(p) == CONTENT_LEADER then Leader
    else if ContentType(p) == CONTENT_BLOCK then Block
    else if ContentType(p) == CONTENT_TRAILER then Trailer
    else Ignored
  }

  ghost function Piece(p: Packet): seq<Byte> {
    if ContentClass(p) == Block then Data(p) else []
  }

  /** What the bytes on the wire mean here: status 0x80 is an error whatever the packet holds; otherwise content 1 is a
      leader, 2 a trailer, 3 a block and anything else ignored. Only a block without error adds data, and it adds all
      of it. */
  lemma ClassOfHeader(h: Header, data: seq<Byte>)
    requires InRange(h) && |Encode(h) + data| >= EXTENDED_DATA
    ensures var p: Packet := Encode(h) + data;
            && ContentClass(p) == (if h.status == 0x80 then Error
                                   else if h.content == 1 then Leader
                                   else if h.content == 2 then Trailer
                                   else if h.content == 3 then Block
                                   else Ignored)
            && Piece(p) == if h.status != 0x80 && h.content == 3 then data else []
  {
    hide Encode, InRange, PacketType, ContentType, HasExtendedIds;
    AccessorsReadHeader(h, data);
    StatusAndContent(Encode(h) + data);
  }

  lemma StatusAndContent(p: Packet)
    ensures PacketType(p) == Decode(p).status && ContentType(p) == Decode(p).content
  {
    hide PacketType, ContentType, HasExtendedIds, PacketId, PacketInfo, FrameId, BigEndian;
  }

  /** The data of the blocks without error, in the order of arrival. */
  ghost function Payload(ps: seq<Packet>): seq<Byte> {
    if ps == [] then [] else Payload(ps[..|ps| - 1]) + Piece(ps[|ps| - 1])
  }

  /** The data of the frame under way. */
  ghost function Current(ps: seq<Packet>): seq<Byte> {
    var s := Starts(ps);
    if s == [] || s[|s| - 1] > |ps| then [] else Payload(ps[s[|s| - 1]..])
  }

  /** The frames that are complete: from each start but the last to the next one. */
  ghost predicate FramesAre(ps: seq<Packet>, frames: seq<Frame>) {
    var s := Starts(ps);
    && (if s == [] then frames == [] else |frames| == |s| - 1)
    && forall k :: 0 <= k < |frames| ==> FrameIs(ps, s[k], s[k + 1], frames[k])
  }

  ghost predicate FrameIs(ps: seq<Packet>, from: nat, to: nat, f: Frame) {
    from < to <= |ps| && f == Frame(FrameId(ps[from]), Payload(ps[from..to]))
  }

  ghost function Count(ps: seq<Packet>, c: Class): nat {
    if ps == [] then 0
    else Count(ps[..|ps| - 1], c)
         + if (if Starts(ps) == [] then Ignored else ContentClass(ps[|ps| - 1])) == c then 1 else 0
  }

  // ----- runs of equal ids -----

  ghost predicate StartAt(ps: seq<Packet>, s: seq<nat>, k: nat)
    requires k < |s|
  {
    s[k] < |ps| && Begins(ps, s[k]) && (k > 0 ==> s[k - 1] < s[k])
  }

  lemma StartsSnoc(ps: seq<Packet>, p: Packet)
    ensures Starts(ps + [p]) == Starts(ps) + if FrameId(p) != LastId(ps) then [|ps|] else []
  {
    assert (ps + [p])[..|ps|] == ps;
  }

  /** The starts are exactly the places where the id changes, in order. */
  lemma {:induction false} StartsAreTheChanges(ps: seq<Packet>)
    ensures forall k :: 0 <= k < |Starts(ps)| ==> StartAt(ps, Starts(ps), k)
    ensures forall i :: 0 <= i < |ps| && Begins(ps, i) ==> i in Starts(ps)
  {
    if ps != [] {
      var front := ps[..|ps| - 1];
      var s, t := Starts(front), Starts(ps);
      StartsAreTheChanges(front);
      forall i | 0 <= i < |front| ensures Begins(ps, i) <==> Begins(front, i) {
        assert ps[..i] == front[..i];
      }
      forall k | 0 <= k < |t| ensures StartAt(ps, t, k) {
        if k < |s| {
          assert StartAt(front, s, k);
        } else if k > 0 {
          assert StartAt(front, s, k - 1);
        }
      }
      forall i | 0 <= i < |ps| && Begins(ps, i) ensures i in t {
        if i < |front| {
          assert i in s;
        }
      }
    }
  }

  lemma {:induction false} SameIdUntilStart(ps: seq<Packet>, from: nat, i: nat)
    requires from <= i < |ps|
    requires forall j :: from < j <= i ==> j !in Starts(ps)
    ensures FrameId(ps[i]) == FrameId(ps[from])
    decreases i
  {
    if from < i {
      SameIdUntilStart(ps, from, i - 1);
      StartsAreTheChanges(ps);
      assert !Begins(ps, i);
      assert ps[..i][i - 1] == ps[i - 1];
    }
  }

  /** Between two starts all ids are equal, and the next start has another id: frames are maximal runs. Before the
      first start all ids are 0. */
  lemma RunsAreMaximal(ps: seq<Packet>, i: nat)
    requires i < |ps|
    ensures var s := Starts(ps);
            && (s == [] || i < s[0] ==> FrameId(ps[i]) == 0)
            && (forall k :: 0 <= k < |s| && s[k] <= i && (k == |s| - 1 || i < s[k + 1])
                  ==> FrameId(ps[i]) == FrameId(ps[s[k]]))
            && (i > 0 ==> (i in s <==> FrameId(ps[i]) != FrameId(ps[i - 1])))
  {
    hide Starts;
    var s := Starts(ps);
    StartsAreTheChanges(ps);
    Ascending(ps, s);
    if s == [] || i < s[0] {
      SameIdUntilStart(ps, 0, i);
      assert !Begins(ps, 0);
    }
    forall k | 0 <= k < |s| && s[k] <= i && (k == |s| - 1 || i < s[k + 1]) ensures FrameId(ps[i]) == FrameId(ps[s[k]]) {
      SameIdUntilStart(ps, s[k], i);
    }
    if i > 0 {
      assert ps[..i][i - 1] == ps[i - 1];
      if i in s {
        var k :| 0 <= k < |s| && s[k] == i;
        assert StartAt(ps, s, k);
      }
    }
  }

  lemma {:induction false} Ascending(ps: seq<Packet>, s: seq<nat>)
    requires forall k :: 0 <= k < |s| ==> StartAt(ps, s, k)
    ensures forall j, k :: 0 <= j < k < |s| ==> s[j] < s[k]
  {
    if s != [] {
      var front := s[..|s| - 1];
      forall k | 0 <= k < |front| ensures StartAt(ps, front, k) {
        assert StartAt(ps, s, k);
      }
      Ascending(ps, front);
      assert StartAt(ps, s, |s| - 1);
      assert forall j, k :: 0 <= j < k < |front| ==> front[j] < front[k];
    }
  }

  /** The frame under way has the id of the last packet. */
  lemma LastRun(ps: seq<Packet>)
    requires Starts(ps) != []
    ensures var at := Starts(ps)[|Starts(ps)| - 1]; at < |ps| && FrameId(ps[at]) == LastId(ps)
  {
    var s := Starts(ps);
    StartsAreTheChanges(ps);
    Ascending(ps, s);
    assert StartAt(ps, s, |s| - 1);
    SameIdUntilStart(ps, s[|s| - 1], |ps| - 1);
  }

  // ----- one packet more -----

  lemma LastIdSnoc(ps: seq<Packet>, p: Packet)
    ensures LastId(ps + [p]) == FrameId(p)
  { }

  lemma PayloadOne(p: Packet)
    ensures Payload([p]) == Piece(p)
  {
    hide Piece;
    var none: seq<Packet> := [];
    assert [p][..0] == none;
  }

  lemma PayloadSnoc(ps: seq<Packet>, p: Packet)
    ensures Payload(ps + [p]) == Payload(ps) + Piece(p)
  {
    hide Piece;
    assert (ps + [p])[..|ps|] == ps;
  }

  lemma CurrentFrom(ps: seq<Packet>, at: nat)
    requires Starts(ps) != [] && Starts(ps)[|Starts(ps)| - 1] == at <= |ps|
    ensures Current(ps) == Payload(ps[at..])
  {
    hide Starts, Payload;
  }

  lemma CurrentNone(ps: seq<Packet>)
    requires Starts(ps) == []
    ensures Current(ps) == []
  {
    hide Starts, Payload;
  }

  lemma CurrentSnoc(ps: seq<Packet>, p: Packet)
    ensures Current(ps + [p]) == if FrameId(p) != LastId(ps) then Piece(p)
                                 else if Starts(ps) != [] then Current(ps) + Piece(p) else []
  {
    hide Starts, Current, Payload, Piece, FrameId, LastId;
    var s, all := Starts(ps), ps + [p];
    StartsSnoc(ps, p);
    if FrameId(p) != LastId(ps) {
      CurrentFrom(all, |ps|);
      assert all[|ps|..] == [p];
      PayloadOne(p);
    } else if s != [] {
      LastRun(ps);
      var at := s[|s| - 1];
      CurrentFrom(ps, at);
      CurrentFrom(all, at);
      assert all[at..] == ps[at..] + [p];
      PayloadSnoc(ps[at..], p);
    } else {
      CurrentNone(all);
    }
  }

  lemma FramesSnoc(ps: seq<Packet>, p: Packet, frames: seq<Frame>)
    requires FramesAre(ps, frames)
    ensures FramesAre(ps + [p], frames + if FrameId(p) != LastId(ps) && Starts(ps) != [] then [Frame(LastId(ps),
        Current(ps))] else [])
  {
    hide Starts, Payload;
    StartsSnoc(ps, p);
    var s, all := Starts(ps), ps + [p];
    if s != [] {
      LastRun(ps);
      var at := s[|s| - 1];
      assert all[at..|ps|] == ps[at..];
      forall k | 0 <= k < |frames| ensures FrameIs(all, s[k], s[k + 1], frames[k]) {
        assert FrameIs(ps, s[k], s[k + 1], frames[k]);
        assert all[s[k]..s[k + 1]] == ps[s[k]..s[k + 1]];
      }
    }
  }

  lemma CountSnoc(ps: seq<Packet>, p: Packet, c: Class)
    ensures Count(ps + [p], c)
         == Count(ps, c) + if (if Starts(ps + [p]) == [] then Ignored else ContentClass(p)) == c then 1 else 0
  {
    hide Starts, ContentClass;
    assert (ps + [p])[..|ps|] == ps;
  }

  /** Every packet is counted once. */
  lemma {:induction false} EveryPacketCounted(ps: seq<Packet>)
    ensures |ps| == Count(ps, Error) + Count(ps, Ignored) + Count(ps, Leader) + Count(ps, Block) + Count(ps, Trailer)
  {
    hide Starts, ContentClass;
    if ps != [] {
      EveryPacketCounted(ps[..|ps| - 1]);
    }
  }

  ghost function OfClass(ps: seq<Packet>, c: Class): nat {
    if ps == [] then 0 else OfClass(ps[..|ps| - 1], c) + if ContentClass(ps[|ps| - 1]) == c then 1 else 0
  }

  /** What the counters count: before the first start every packet is ignored, from then on its class decides. */
  lemma {:induction false} CountsAre(ps: seq<Packet>, c: Class)
    ensures Starts(ps) == [] ==> Count(ps, c) == if c == Ignored then |ps| else 0
    ensures Starts(ps) != [] ==>
              var at := Starts(ps)[0];
              at <= |ps| && Count(ps, c) == OfClass(ps[at..], c) + if c == Ignored then at else 0
  {
    hide ContentClass, Starts;
    if ps == [] {
      NoStarts();
    } else {
      var front, p := ps[..|ps| - 1], ps[|ps| - 1];
      assert ps == front + [p];
      CountsAre(front, c);
      StartsSnoc(front, p);
      CountSnoc(front, p, c);
      if Starts(ps) != [] {
        var at := Starts(ps)[0];
        assert ps[at..][..|ps[at..]| - 1] == front[at..];
      }
    }
  }

  lemma NoStarts()
    ensures Starts([]) == []
  { }

  // ----- no byte is lost between frames -----

  ghost function AllData(frames: seq<Frame>): seq<Byte> {
    if frames == [] then [] else AllData(frames[..|frames| - 1]) + frames[|frames| - 1].data
  }

  lemma {:induction false} PayloadConcat(a: seq<Packet>, b: seq<Packet>)
    ensures Payload(a + b) == Payload(a) + Payload(b)
  {
    hide Piece;
    if b == [] {
      assert a + b == a;
    } else {
      assert (a + b)[..|a + b| - 1] == a + b[..|b| - 1];
      PayloadConcat(a, b[..|b| - 1]);
    }
  }

  lemma {:induction false} DataUpTo(ps: seq<Packet>, frames: seq<Frame>, n: nat)
    requires FramesAre(ps, frames) && Starts(ps) != [] && n <= |frames|
    ensures var s := Starts(ps); s[0] <= s[n] <= |ps| && AllData(frames[..n]) == Payload(ps[s[0]..s[n]])
  {
    hide Starts, Payload;
    var s := Starts(ps);
    if n == 0 {
      LastRun(ps);
      StartsAreTheChanges(ps);
      assert StartAt(ps, s, 0);
      assert Payload([]) == [] by { NoPayload(); }
      assert ps[s[0]..s[0]] == [];
    } else {
      DataUpTo(ps, frames, n - 1);
      assert FrameIs(ps, s[n - 1], s[n], frames[n - 1]);
      assert frames[..n][..n - 1] == frames[..n - 1];
      PayloadConcat(ps[s[0]..s[n - 1]], ps[s[n - 1]..s[n]]);
      assert ps[s[0]..s[n]] == ps[s[0]..s[n - 1]] + ps[s[n - 1]..s[n]];
    }
  }

  lemma NoPayload()
    ensures Payload([]) == []
  { }

  /** The data handed over and the data of the frame under way are, together and in order, the data of every block
      since the first start. */
  lemma NoByteLost(ps: seq<Packet>, frames: seq<Frame>)
    requires FramesAre(ps, frames) && Starts(ps) != []
    ensures Starts(ps)[0] <= |ps| && AllData(frames) + Current(ps) == Payload(ps[Starts(ps)[0]..])
  {
    hide Starts, Payload;
    var s := Starts(ps);
    DataUpTo(ps, frames, |frames|);
    assert frames[..|frames|] == frames;
    var at := s[|frames|];
    PayloadConcat(ps[s[0]..at], ps[at..]);
    assert ps[s[0]..] == ps[s[0]..at] + ps[at..];
  }

  // ----- the receive buffer -----

  /** A datagram overwrites the front of the buffer; what is behind it stays from earlier packets. */
  ghost function Received(was: Packet, d: seq<Byte>): (p: Packet)
    requires |d| <= |was|
    ensures |p| == |was|
  {
    d + was[|d|..]
  }

  ghost function Packets(buffer: Packet, ds: seq<seq<Byte>>): (ps: seq<Packet>)
    requires forall k :: 0 <= k < |ds| ==> |ds[k]| <= |buffer|
    ensures |ps| == |ds| && forall k :: 0 <= k < |ps| ==> |ps[k]| == |buffer|
  {
    if ds == [] then []
    else
      var before := Packets(buffer, ds[..|ds| - 1]);
      before + [Received(if before == [] then buffer else before[|before| - 1], ds[|ds| - 1])]
  }

  /** The data that a datagram itself brings: what is behind its header, if it is that long. */
  ghost function OwnData(d: seq<Byte>, start: nat): seq<Byte> {
    if start <= |d| then d[start..] else []
  }

  /** The code takes the size of the buffer for the size of the packet: the datagram's own data is followed by what is
      left in the buffer behind it. It is the datagram's own data alone if and only if nothing is left there, so any
      shorter datagram carries bytes of earlier ones. */
  lemma OwnDataIff(was: Packet, d: seq<Byte>)
    requires |d| <= |was|
    ensures var p := Received(was, d);
            var start := DataStart(p);
            var end := if start <= |d| then |d| else start;
            && Data(p) == OwnData(d, start) + was[end..]
            && (Data(p) == OwnData(d, start) <==> end == |was|)
  {
    hide HasExtendedIds;
    var p := Received(was, d);
    var start := DataStart(p);
    if start <= |d| {
      assert Data(p) == d[start..] + was[|d|..];
    } else {
      assert Data(p) == was[start..];
    }
  }

  /** The receive buffer after `i` datagrams. */
  ghost function Buffer(buffer: Packet, ps: seq<Packet>, i: nat): Packet
    requires i <= |ps|
  {
    if i == 0 then buffer else ps[i - 1]
  }

  lemma {:induction false} PacketAt(buffer: Packet, ds: seq<seq<Byte>>, i: nat)
    requires i < |ds| && forall k :: 0 <= k < |ds| ==> |ds[k]| <= |buffer|
    ensures var ps := Packets(buffer, ds); ps[i] == Received(Buffer(buffer, ps, i), ds[i])
  {
    hide Received;
    var front := ds[..|ds| - 1];
    if i < |front| {
      PacketAt(buffer, front, i);
    }
  }

  // ----- the code -----

  class Receiver {
    const packet: array<Byte>
    const frameBuffer: array<Byte>
    const hasAction: bool
    var isStarted: bool
    var realSize: nat
    var frameId: nat
    var nPackets: nat
    var lastValidPacket: nat
    var lastFrameId: nat
    var nReceivedPackets: nat
    var nErrorPackets: nat
    var nIgnoredPackets: nat
    /** The calls of new_frame_action. */
    var delivered: seq<Frame>
    ghost var seen: seq<Packet>
    ghost var frames: seq<Frame>

    ghost predicate Valid()
      reads this, frameBuffer
    {
      && packet.Length >= EXTENDED_DATA && frameBuffer.Length == 2048 * 2448 * 3 * 2 && packet != frameBuffer
      && realSize <= MAX_FRAME_SIZE
      && (isStarted <==> Starts(seen) != [])
      && lastFrameId == LastId(seen)
      && (isStarted ==> Assembling())
      && FramesAre(seen, frames)
      && delivered == (if hasAction then frames else [])
      && nReceivedPackets == |seen|
      && nErrorPackets == Count(seen, Error)
      && nIgnoredPackets == Count(seen, Ignored)
    }

    /** The frame under way. No packet is ever expected, so none can be a duplicate. */
    ghost predicate Assembling()
      requires frameBuffer.Length == MAX_FRAME_SIZE && realSize <= MAX_FRAME_SIZE
      reads this, frameBuffer
    {
      frameBuffer[..realSize] == Current(seen) && nPackets == 0 && lastValidPacket == 0xFFFF_FFFF
    }

    /** A buffer for one packet, with whatever malloc left in it. */
    constructor (initial: Packet, hasAction: bool)
      ensures Valid() && fresh(packet) && fresh(frameBuffer)
      ensures seen == [] && this.hasAction == hasAction && packet[..] == initial
    {
      packet := new Byte[|initial|](k requires 0 <= k < |initial| => initial[k]);
      frameBuffer := new Byte[MAX_FRAME_SIZE](_ => 0);
      this.hasAction := hasAction;
      isStarted, realSize, frameId, nPackets, lastValidPacket, lastFrameId := false, 0, 0, 0, 0, 0;
      nReceivedPackets, nErrorPackets, nIgnoredPackets := 0, 0, 0;
      delivered, seen, frames := [], [], [];
      new;
      assert packet[..] == initial;
    }

    /** The callback for the frame under way, then the frame data begins anew. */
    method SwitchFrame(id: nat)
      modifies this`realSize, this`frameId, this`lastValidPacket, this`isStarted, this`nPackets, this`lastFrameId,
               this`delivered
      requires frameBuffer.Length == MAX_FRAME_SIZE && realSize <= MAX_FRAME_SIZE
      ensures isStarted && realSize == 0 && nPackets == 0 && lastValidPacket == UINT32 - 1
      ensures frameId == lastFrameId == id
      ensures delivered == old(delivered) + if old(isStarted) && hasAction
                                            then [Frame(old(lastFrameId), old(frameBuffer[..realSize]))] else []
    {
      if isStarted {
        if hasAction {
          delivered := delivered + [Frame(lastFrameId, frameBuffer[..realSize])];
        }
      }
      realSize := 0;
      frameId := id;
      lastValidPacket := UINT32 - 1;
      isStarted := true;
      nPackets := 0;
      lastFrameId := frameId;
    }

    method CopyBlock(from: nat, size: nat)
      requires packet.Length >= from + size && frameBuffer.Length == MAX_FRAME_SIZE && packet != frameBuffer
      requires realSize + size <= MAX_FRAME_SIZE
      modifies this`realSize, frameBuffer
      ensures realSize == old(realSize) + size
      ensures frameBuffer[..realSize] == old(frameBuffer[..realSize]) + packet[from..from + size]
    {
      forall k | 0 <= k < size {
        frameBuffer[realSize + k] := packet[from + k];
      }
      realSize := realSize + size;
    }

    /** A packet of the frame under way. */
    method TakePacket()
      requires packet.Length >= EXTENDED_DATA && frameBuffer.Length == MAX_FRAME_SIZE && packet != frameBuffer
      requires nPackets == 0 && lastValidPacket == UINT32 - 1
      requires realSize + |Piece(packet[..])| <= MAX_FRAME_SIZE
      modifies this`realSize, this`lastValidPacket, this`nErrorPackets, this`nIgnoredPackets, frameBuffer
      ensures realSize == old(realSize) + |Piece(packet[..])|
      ensures frameBuffer[..realSize] == old(frameBuffer[..realSize]) + Piece(packet[..])
      ensures lastValidPacket == UINT32 - 1
      ensures nErrorPackets == old(nErrorPackets) + if ContentClass(packet[..]) == Error then 1 else 0
      ensures nIgnoredPackets == old(nIgnoredPackets) + if ContentClass(packet[..]) == Ignored then 1 else 0
    {
      hide IsError, ContentType, PacketId, HasExtendedIds;
      var p: Packet := packet[..];
      if IsError(p) {
        nErrorPackets := nErrorPackets + 1;
      } else if PacketId(p) < nPackets {
        assert false;
      } else {
        var i := (lastValidPacket + 1) % UINT32;
        if i < nPackets {
          assert false;
        }
        lastValidPacket := (i - 1) % UINT32;
        var contentType := ContentType(p);
        if contentType == CONTENT_LEADER {
        } else if contentType == CONTENT_BLOCK {
          var from, size := DataStart(p), DataSize(p, packet.Length);
          assert packet[from..from + size] == Data(p);
          CopyBlock(from, size);
        } else if contentType == CONTENT_TRAILER {
        } else {
          nIgnoredPackets := nIgnoredPackets + 1;
        }
      }
    }

    /** The packet in the buffer: switch to its frame if its id is new, then take it, or ignore it while no frame has
        begun. */
    method Assemble()
      requires packet.Length >= EXTENDED_DATA && frameBuffer.Length == MAX_FRAME_SIZE && packet != frameBuffer
      requires realSize <= MAX_FRAME_SIZE
      requires isStarted && FrameId(packet[..]) == lastFrameId ==>
                 nPackets == 0 && lastValidPacket == UINT32 - 1 && realSize + |Piece(packet[..])| <= MAX_FRAME_SIZE
      requires FrameId(packet[..]) != lastFrameId ==> |Piece(packet[..])| <= MAX_FRAME_SIZE
      modifies this`realSize, this`frameId, this`lastValidPacket, this`isStarted, this`nPackets, this`lastFrameId,
               this`delivered, this`nErrorPackets, this`nIgnoredPackets, frameBuffer
      ensures lastFrameId == FrameId(packet[..]) && realSize <= MAX_FRAME_SIZE
      ensures isStarted <==> old(isStarted) || lastFrameId != old(lastFrameId)
      ensures isStarted ==> nPackets == 0 && lastValidPacket == UINT32 - 1
      ensures lastFrameId != old(lastFrameId) ==> frameBuffer[..realSize] == Piece(packet[..])
      ensures isStarted && lastFrameId == old(lastFrameId) ==>
                frameBuffer[..realSize] == old(frameBuffer[..realSize]) + Piece(packet[..])
      ensures delivered == old(delivered)
                           + if lastFrameId != old(lastFrameId) && old(isStarted) && hasAction
                             then [Frame(old(lastFrameId), old(frameBuffer[..realSize]))] else []
      ensures var c := if isStarted then ContentClass(packet[..]) else Ignored;
              && nErrorPackets == old(nErrorPackets) + (if c == Error then 1 else 0)
              && nIgnoredPackets == old(nIgnoredPackets) + (if c == Ignored then 1 else 0)
    {
      hide Piece, ContentClass, FrameId;
      var id := FrameId(packet[..]);
      if id != lastFrameId {
        SwitchFrame(id);
        assert frameBuffer[..realSize] == [];
      }
      if isStarted {
        TakePacket();
      } else {
        nIgnoredPackets := nIgnoredPackets + 1;
      }
    }

    method Process()
      requires Valid() && |Current(seen + [packet[..]])| <= MAX_FRAME_SIZE
      modifies this, frameBuffer
      ensures Valid() && seen == old(seen) + [packet[..]]
    {
      hide Starts, Current, Payload, FramesAre, Piece, ContentClass, Count, FrameId, LastId;
      ghost var p: Packet := packet[..];
      StartsSnoc(seen, p);
      CurrentSnoc(seen, p);
      FramesSnoc(seen, p, frames);
      CountSnoc(seen, p, Error);
      CountSnoc(seen, p, Ignored);
      LastIdSnoc(seen, p);
      frames := frames + if FrameId(p) != LastId(seen) && Starts(seen) != [] then [Frame(LastId(seen), Current(seen))]
                         else [];
      nReceivedPackets := nReceivedPackets + 1;
      Assemble();
      seen := seen + [p];
    }

    /** One datagram. The frame buffer is not checked for room, so the data must fit. */
    method OnDatagram(d: seq<Byte>)
      requires Valid() && |d| <= packet.Length
      requires |Current(seen + [Received(packet[..], d)])| <= MAX_FRAME_SIZE
      modifies this, packet, frameBuffer
      ensures Valid()
      ensures packet[..] == Received(old(packet[..]), d) && seen == old(seen) + [packet[..]]
    {
      hide Current, Starts, FramesAre, Count, LastId;
      ghost var expected := Received(packet[..], d);
      forall k | 0 <= k < |d| {
        packet[k] := d[k];
      }
      assert packet[..] == expected;
      Process();
    }
  }

  /** No frame grows past the buffer: 2048 times 2448 pixels of six bytes. */
  ghost predicate FramesFit(ps: seq<Packet>) {
    forall n :: 0 <= n <= |ps| ==> |Current(ps[..n])| <= 2048 * 2448 * 3 * 2
  }

  /** A whole session, from the first datagram to the end of the stream: the callbacks are the complete frames, in
      order; the frame under way at the end is never handed over. */
  method Stream(ds: seq<seq<Byte>>, initial: Packet, hasAction: bool)
      returns (delivered: seq<Frame>, nReceived: nat, nError: nat, nIgnored: nat)
    requires forall k :: 0 <= k < |ds| ==> |ds[k]| <= |initial|
    requires FramesFit(Packets(initial, ds))
    ensures var ps := Packets(initial, ds);
            && (hasAction ==> FramesAre(ps, delivered))
            && (!hasAction ==> delivered == [])
            && nReceived == |ds| && nError == Count(ps, Error) && nIgnored == Count(ps, Ignored)
            && nReceived == nError + nIgnored + Count(ps, Leader) + Count(ps, Block) + Count(ps, Trailer)
  {
    hide Starts, Current, Payload, FramesAre, Count, Received;
    ghost var ps := Packets(initial, ds);
    var r := new Receiver(initial, hasAction);
    for i := 0 to |ds|
      invariant r.Valid() && fresh(r) && fresh(r.packet) && fresh(r.frameBuffer)
      invariant r.packet.Length == |initial| && r.hasAction == hasAction
      invariant r.seen == ps[..i] && r.packet[..] == Buffer(initial, ps, i)
    {
      PacketAt(initial, ds, i);
      assert ps[..i] + [ps[i]] == ps[..i + 1];
      r.OnDatagram(ds[i]);
    }
    assert ps[..|ds|] == ps;
    EveryPacketCounted(ps);
    delivered, nReceived, nError, nIgnored := r.delivered, r.nReceivedPackets, r.nErrorPackets, r.nIgnoredPackets;
  }
}
