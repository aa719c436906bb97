/** Messages off a stream socket, with descriptors riding on bytes (cpp/src/dsp.cpp:71-131). */
module Framing {
  import opened Wrappers

  // A byte and the descriptors that arrive with it.
  datatype Cell = Cell(byte: Byte, fds: seq<int>)

  datatype Msg = Msg(kind: int, bytes: seq<Byte>, fds: seq<int>)

  datatype Received =
    | Whole(msg: Msg)
    | Corrupt
    | ClosedWaiting | ClosedMid    // the peer is gone, between messages or inside one
    | Failed                       // a socket error
    | WouldBlock                   // a timeout the caller asked to be told of

  const HEADER := 8
  const LARGEST: int := 0x10_0000
  const MAX_FDS := 64

  function BytesOf(cells: seq<Cell>): (b: seq<Byte>)
    ensures |b| == |cells| && forall i | 0 <= i < |b| :: b[i] == cells[i].byte
  {
    seq(|cells|, i requires 0 <= i < |cells| => cells[i].byte)
  }

  function FdsOf(cells: seq<Cell>): seq<int> {
    if cells == [] then [] else cells[0].fds + FdsOf(cells[1..])
  }

  // Little-endian.
  function U32(b: seq<Byte>, at: nat): (v: nat)
    requires at + 4 <= |b|
    ensures v < 0x1_0000_0000
  {
    b[at] as int + 0x100 * b[at + 1] as int + 0x1_0000 * b[at + 2] as int + 0x100_0000 * b[at + 3] as int
  }

  // ---- the plain reading: the whole stream at once ----

  datatype Parsed = Parsed(result: Received, rest: seq<Cell>)

  function Parse(stream: seq<Cell>): (p: Parsed)
    ensures p.result.Whole? ==> |p.rest| < |stream|
  {
    if |stream| < HEADER then Parsed(ClosedWaiting, [])
    else
      var size := U32(BytesOf(stream[..HEADER]), 4);
      if size < HEADER || size > LARGEST then Parsed(Corrupt, stream[HEADER..])
      else if |stream| < size then Parsed(ClosedMid, [])
      else Parsed(Whole(Msg(U32(BytesOf(stream[..HEADER]), 0), BytesOf(stream[..size]), FdsOf(stream[..size]))), stream[size..])
  }

  // Bytes of the stream that are certainly the first message's.
  function Extent(stream: seq<Cell>): nat {
    if |stream| < HEADER then HEADER
    else
      var size := U32(BytesOf(stream[..HEADER]), 4);
      if size < HEADER || size > LARGEST then HEADER else size
  }

  // The first message, as far as the stream goes, carries no more descriptors than one read delivers.
  predicate Carried(stream: seq<Cell>) {
    |FdsOf(if |stream| < Extent(stream) then stream else stream[..Extent(stream)])| <= MAX_FDS
  }

  predicate AllCarried(stream: seq<Cell>)
    decreases |stream|
  {
    Carried(stream) && (Parse(stream).result.Whole? ==> AllCarried(Parse(stream).rest))
  }

  // Descriptors aside.
  function Bare(r: Received): Received { if r.Whole? then Whole(r.msg.(fds := [])) else r }

  function BareAll(all: All): All {
    All(seq(|all.msgs|, i requires 0 <= i < |all.msgs| => all.msgs[i].(fds := [])), all.end)
  }

  // What is left after reading some of the first message and nothing of the next.
  ghost predicate StoppedShort(stream: seq<Cell>, rest: seq<Cell>) {
    exists k :: 0 <= k <= |stream| && k < Extent(stream) && rest == stream[k..]
  }

  datatype All = All(msgs: seq<Msg>, end: Received)

  // Every message up to the first that does not come through.
  function ParseAll(stream: seq<Cell>): All
    decreases |stream|
  {
    var p := Parse(stream);
    if !p.result.Whole? then All([], p.result)
    else var more := ParseAll(p.rest); All([p.result.msg] + more.msgs, more.end)
  }

  // One read's control buffer holds so many descriptors; the kernel drops the rest.
  function Capped(fds: seq<int>): seq<int> { if |fds| <= MAX_FDS then fds else fds[..MAX_FDS] }

  lemma FirstFds(a: seq<Cell>, b: seq<Cell>)
    requires a != []
    ensures FdsOf(a) == a[0].fds + FdsOf(a[1..]) && FdsOf(a + b) == a[0].fds + FdsOf(a[1..] + b)
  {
    assert (a + b)[1..] == a[1..] + b;
  }

  lemma {:induction false} FdsJoin(a: seq<Cell>, b: seq<Cell>)
    ensures FdsOf(a + b) == FdsOf(a) + FdsOf(b)
  {
    if a == [] {
      assert a + b == b;
    } else {
      FdsJoin(a[1..], b);
      FirstFds(a, b);
      hide FdsOf;
      assert FdsOf(a + b) == a[0].fds + (FdsOf(a[1..]) + FdsOf(b)) == FdsOf(a) + FdsOf(b);
    }
  }

  // ---- the socket ----

  datatype Read = Got(bytes: seq<Byte>, fds: seq<int>) | End | Again | Broken

  class Socket {
    // what the peer has sent and will send before it closes
    var stream: seq<Cell>

    constructor (stream: seq<Cell>)
      ensures this.stream == stream
    {
      this.stream := stream;
    }

    // One recvmsg: the kernel returns as many bytes as it likes, at least one and at most want, with
    // their descriptors as far as the control buffer holds them; or a timeout or an error.
    method Recv(want: nat) returns (r: Read)
      requires want > 0
      modifies this
      ensures r.Got? ==> 0 < |r.bytes| <= want && |r.bytes| <= |old(stream)|
      ensures r.Got? ==> r.bytes == BytesOf(old(stream)[..|r.bytes|]) && r.fds == Capped(FdsOf(old(stream)[..|r.bytes|]))
      ensures stream == if r.Got? then old(stream)[|r.bytes|..] else old(stream)
      ensures r.End? ==> stream == []
    {
      var trouble: int :| 0 <= trouble < 3;
      if trouble == 1 { return Again; }
      if trouble == 2 { return Broken; }
      if stream == [] { return End; }
      var n: nat :| 0 < n <= want && n <= |stream|;
      r := Got(BytesOf(stream[..n]), Capped(FdsOf(stream[..n])));
      stream := stream[n..];
    }
  }

  // ---- the receiver ----

  lemma ReadJoins(stream: seq<Cell>, at: nat, n: nat)
    requires at + n <= |stream|
    ensures BytesOf(stream[..at + n]) == BytesOf(stream[..at]) + BytesOf(stream[at..][..n])
    ensures FdsOf(stream[..at + n]) == FdsOf(stream[..at]) + FdsOf(stream[at..][..n])
    ensures stream[at..][n..] == stream[at + n..]
  {
    assert stream[..at + n] == stream[..at] + stream[at..][..n];
    FdsJoin(stream[..at], stream[at..][..n]);
  }

  // A read inside a stretch with few descriptors loses none.
  lemma ReadIsWhole(all: seq<Cell>, at: nat, n: nat)
    requires at + n <= |all| && |FdsOf(all)| <= MAX_FDS
    ensures Capped(FdsOf(all[at..][..n])) == FdsOf(all[at..][..n])
  {
    var a, b, c := all[..at], all[at..][..n], all[at + n..];
    assert all == a + (b + c);
    FdsJoin(a, b + c);
    FdsJoin(b, c);
  }

  lemma FewerFds(all: seq<Cell>, n: nat)
    requires n <= |all|
    ensures |FdsOf(all[..n])| <= |FdsOf(all)|
  {
    assert all == all[..n] + all[n..];
    FdsJoin(all[..n], all[n..]);
  }

  // Fills a buffer of `want` bytes that already has `have`, keeping the descriptors.
  method Fill(sock: Socket, have: seq<Byte>, held: seq<int>, want: nat, ghost all: seq<Cell>, ghost few: bool)
    returns (bytes: seq<Byte>, fds: seq<int>, trouble: Read)
    requires |have| <= want && |have| <= |all| && sock.stream == all[|have|..]
    requires have == BytesOf(all[..|have|])
    requires few ==> held == FdsOf(all[..|have|]) && |FdsOf(if |all| < want then all else all[..want])| <= MAX_FDS
    modifies sock
    ensures |bytes| <= want && |bytes| <= |all| && sock.stream == all[|bytes|..]
    ensures bytes == BytesOf(all[..|bytes|]) && (few ==> fds == FdsOf(all[..|bytes|]))
    ensures trouble.Got? <==> |bytes| == want
    ensures trouble.End? ==> sock.stream == []
  {
    hide BytesOf, FdsOf, Capped;
    bytes, fds, trouble := have, held, Got([], []);
    ghost var span := if |all| < want then all else all[..want];
    while |bytes| < want
      invariant |bytes| <= want && |bytes| <= |all| && sock.stream == all[|bytes|..]
      invariant bytes == BytesOf(all[..|bytes|]) && (few ==> fds == FdsOf(all[..|bytes|]))
      invariant trouble.Got?
      decreases want - |bytes|
    {
      var r := sock.Recv(want - |bytes|);
      if !r.Got? { return bytes, fds, r; }
      ReadJoins(all, |bytes|, |r.bytes|);
      if few {
        ReadIsWhole(span, |bytes|, |r.bytes|);
        assert span[|bytes|..][..|r.bytes|] == all[|bytes|..][..|r.bytes|];
      }
      bytes, fds := bytes + r.bytes, fds + r.fds;
    }
  }

  // told: the caller wants timeouts reported.
  function Trouble(r: Read, told: bool, closed: Received): Received {
    match r
    case End => closed
    case Again => if told then WouldBlock else Failed
    case _ => Failed
  }

  /** However the kernel splits the stream, a receive that meets no timeout or error returns what
      parsing the whole stream returns and leaves exactly what that leaves, with all descriptors in
      order unless the message carries more than one read delivers; one that does stops inside the
      message, short of any byte of the next. */
  method RecvOneMsg(sock: Socket, told: bool) returns (r: Received)
    modifies sock
    ensures !r.Failed? && !r.WouldBlock? ==> sock.stream == Parse(old(sock.stream)).rest
    ensures !r.Failed? && !r.WouldBlock? ==> Bare(r) == Bare(Parse(old(sock.stream)).result)
    ensures !r.Failed? && !r.WouldBlock? && Carried(old(sock.stream)) ==> r == Parse(old(sock.stream)).result
    ensures r.Failed? || r.WouldBlock? ==> StoppedShort(old(sock.stream), sock.stream)
    ensures r.WouldBlock? ==> told
  {
    ghost var all := sock.stream;
    ghost var few := Carried(all);
    HeaderIsFirst(all);
    hide FdsOf, BytesOf;
    var hdr, fds, trouble := Fill(sock, [], [], HEADER, all, few);
    if !trouble.Got? {
      r := Trouble(trouble, told, ClosedWaiting);
      return;
    }
    var mtype, msize := U32(hdr, 0), U32(hdr, 4);
    if msize < HEADER || msize > LARGEST { return Corrupt; }
    var bytes: seq<Byte>;
    bytes, fds, trouble := Fill(sock, hdr, fds, msize, all, few);
    if !trouble.Got? {
      r := Trouble(trouble, told, ClosedMid);
      return;
    }
    r := Whole(Msg(mtype, bytes, fds));
  }

  lemma HeaderIsFirst(all: seq<Cell>)
    ensures FdsOf(all[..0]) == [] && BytesOf(all[..0]) == []
    ensures Carried(all) ==> |FdsOf(if |all| < HEADER then all else all[..HEADER])| <= MAX_FDS
  {
    if |all| >= HEADER {
      var first := if |all| < Extent(all) then all else all[..Extent(all)];
      FewerFds(first, HEADER);
      assert first[..HEADER] == all[..HEADER];
    }
  }

  /** Receiving until something other than a message comes gives the messages of the whole stream,
      in order; a timeout or an error on the way leaves the first of them. */
  method RecvAll(sock: Socket, told: bool) returns (msgs: seq<Msg>, end: Received)
    modifies sock
    ensures !end.Whole?
    ensures !end.Failed? && !end.WouldBlock? ==> BareAll(All(msgs, end)) == BareAll(ParseAll(old(sock.stream)))
    ensures !end.Failed? && !end.WouldBlock? && AllCarried(old(sock.stream)) ==> All(msgs, end) == ParseAll(old(sock.stream))
    ensures BareAll(All(msgs, end)).msgs <= BareAll(ParseAll(old(sock.stream))).msgs
    ensures AllCarried(old(sock.stream)) ==> msgs <= ParseAll(old(sock.stream)).msgs
  {
    hide Parse, Extent, Carried, BareAll, ParseAll, AllCarried, Bare;
    ghost var all, carried := ParseAll(sock.stream), AllCarried(sock.stream);
    msgs := [];
    NothingBare(all);
    while true
      invariant all.end == ParseAll(sock.stream).end
      invariant BareAll(all).msgs == BareAll(All(msgs, all.end)).msgs + BareAll(ParseAll(sock.stream)).msgs
      invariant carried ==> AllCarried(sock.stream) && all.msgs == msgs + ParseAll(sock.stream).msgs
      decreases |sock.stream|
    {
      ghost var before := sock.stream;
      end := RecvOneMsg(sock, told);
      if !end.Whole? {
        BareEnds(msgs, all.end, end);
        if !end.Failed? && !end.WouldBlock? {
          NothingLeft(before, end);
          BareNothing(all.end);
          BareEnds(all.msgs, all.end, end);
        }
        return;
      }
      Same(end, Parse(before).result);
      ParseNext(before);
      BareNext(before, end.msg, msgs, all.end);
      msgs := msgs + [end.msg];
    }
  }

  // One message off the stream.
  lemma ParseNext(stream: seq<Cell>)
    ensures AllCarried(stream) ==> Carried(stream)
    ensures Parse(stream).result.Whole? ==>
      var p := Parse(stream);
      && ParseAll(stream).end == ParseAll(p.rest).end && ParseAll(stream).msgs == [p.result.msg] + ParseAll(p.rest).msgs
      && (AllCarried(stream) ==> AllCarried(p.rest))
  {
    hide Parse, Carried;
  }

  lemma Same(a: Received, b: Received)
    requires Bare(a) == Bare(b)
    ensures a.Whole? <==> b.Whole?
    ensures !a.Whole? ==> a == b
  {
  }

  lemma NothingBare(all: All)
    ensures BareAll(all).msgs == BareAll(All([], all.end)).msgs + BareAll(all).msgs
  {
  }

  lemma BareNothing(end: Received)
    ensures BareAll(All([], end)).msgs == []
  {
  }

  lemma BareEnds(msgs: seq<Msg>, a: Received, b: Received)
    ensures BareAll(All(msgs, a)).msgs == BareAll(All(msgs, b)).msgs
    ensures BareAll(All(msgs, a)).end == a
  {
  }

  lemma NothingLeft(stream: seq<Cell>, end: Received)
    requires !end.Whole? && Bare(end) == Bare(Parse(stream).result)
    ensures ParseAll(stream) == All([], end)
  {
  }

  lemma BareNext(stream: seq<Cell>, msg: Msg, msgs: seq<Msg>, end: Received)
    requires Bare(Whole(msg)) == Bare(Parse(stream).result)
    ensures BareAll(All(msgs, end)).msgs + BareAll(ParseAll(stream)).msgs ==
      BareAll(All(msgs + [msg], end)).msgs + BareAll(ParseAll(Parse(stream).rest)).msgs
  {
    hide Parse;
    var p := Parse(stream);
    assert ParseAll(stream).msgs == [p.result.msg] + ParseAll(p.rest).msgs;
    assert BareAll(ParseAll(stream)).msgs == [msg.(fds := [])] + BareAll(ParseAll(p.rest)).msgs;
    assert BareAll(All(msgs + [msg], end)).msgs == BareAll(All(msgs, end)).msgs + [msg.(fds := [])];
  }

  // ---- what a sender puts on the stream ----

  // A message as it is sent: its own size in its header, descriptors on whichever bytes.
  predicate Framed(cells: seq<Cell>) {
    && HEADER <= |cells| <= LARGEST
    && U32(BytesOf(cells[..HEADER]), 4) == |cells|
  }

  function Sent(cells: seq<Cell>): Msg
    requires Framed(cells)
  {
    Msg(U32(BytesOf(cells[..HEADER]), 0), BytesOf(cells), FdsOf(cells))
  }

  function Stream(frames: seq<seq<Cell>>): seq<Cell> {
    if frames == [] then [] else frames[0] + Stream(frames[1..])
  }

  /** Framed messages sent one after another are received as exactly those messages, each with its
      own descriptors, and then the end of the stream. */
  lemma {:induction false} FramesReadBack(frames: seq<seq<Cell>>)
    requires forall i | 0 <= i < |frames| :: Framed(frames[i])
    ensures ParseAll(Stream(frames)).end == ClosedWaiting
    ensures |ParseAll(Stream(frames)).msgs| == |frames|
    ensures forall i | 0 <= i < |frames| :: ParseAll(Stream(frames)).msgs[i] == Sent(frames[i])
  {
    if frames != [] {
      hide Framed, Parse, Sent, FdsOf, BytesOf;
      var first, rest := frames[0], Stream(frames[1..]);
      FramesReadBack(frames[1..]);
      FirstFrame(first, rest);
    }
  }

  /** No descriptor is lost on the way if no message carries more than 64. */
  lemma {:induction false} FramesAreCarried(frames: seq<seq<Cell>>)
    requires forall i | 0 <= i < |frames| :: Framed(frames[i]) && |FdsOf(frames[i])| <= 64
    ensures AllCarried(Stream(frames))
  {
    if frames != [] {
      hide Framed, Parse, Sent, FdsOf, BytesOf, Carried;
      FramesAreCarried(frames[1..]);
      FirstFrame(frames[0], Stream(frames[1..]));
    } else {
      assert Stream(frames) == [];
    }
  }

  lemma FirstFrame(first: seq<Cell>, rest: seq<Cell>)
    requires Framed(first)
    ensures Parse(first + rest) == Parsed(Whole(Sent(first)), rest)
    ensures Carried(first + rest) <==> |FdsOf(first)| <= MAX_FDS
  {
    assert (first + rest)[..HEADER] == first[..HEADER];
    assert (first + rest)[..|first|] == first;
    assert (first + rest)[|first|..] == rest;
  }

  // ---- the same byte by byte ----

  // Four bytes from b[at] on, as put_u32 lays them: the lowest eight bits of v first.
  predicate LowFirst(cells: seq<Cell>, at: nat, v: nat)
    requires at + 4 <= |cells|
  {
    && cells[at].byte == v % 256 && cells[at + 1].byte == v / 256 % 256
    && cells[at + 2].byte == v / 65536 % 256 && cells[at + 3].byte == v / 16777216 % 256
  }

  // A message on the wire: its kind, its whole size, its payload.
  predicate Laid(cells: seq<Cell>, kind: nat, payload: seq<Byte>) {
    && |cells| == 8 + |payload| && LowFirst(cells, 0, kind) && LowFirst(cells, 4, |cells|)
    && forall i | 0 <= i < |payload| :: cells[8 + i].byte == payload[i]
  }

  lemma LowFirstReads(cells: seq<Cell>, at: nat, v: nat)
    requires at + 4 <= 8 <= |cells| && LowFirst(cells, at, v) && v < 0x1_0000_0000
    ensures U32(BytesOf(cells[..HEADER]), at) == v
  {
    Digits(v);
    var b := BytesOf(cells[..HEADER]);
    assert b[at] == cells[at].byte && b[at + 1] == cells[at + 1].byte && b[at + 2] == cells[at + 2].byte && b[at + 3] == cells[at + 3].byte;
    hide BytesOf;
  }

  lemma Digits(v: nat)
    requires v < 0x1_0000_0000
    ensures v % 256 + 256 * (v / 256 % 256) + 65536 * (v / 65536 % 256) + 16777216 * (v / 16777216 % 256) == v
  {
    var a := v / 256;
    var b := a / 256;
    var c := b / 256;
    Quotients(v);
    assert v == 256 * a + v % 256 && a == 256 * b + a % 256 && b == 256 * c + b % 256;
    assert c < 256;
  }

  lemma Quotients(v: nat)
    ensures v / 65536 == v / 256 / 256 && v / 16777216 == v / 256 / 256 / 256
  {
  }

  // Descriptors sent along with the first byte, as sendmsg does.
  lemma {:induction false} FdsUpFront(cells: seq<Cell>)
    requires cells != [] && forall i | 0 < i < |cells| :: cells[i].fds == []
    ensures FdsOf(cells) == cells[0].fds
  {
    if |cells| > 1 {
      assert cells[1..][0].fds == [];
      FdsUpFront(cells[1..]);
    }
  }

  /** Whatever messages a sender lays out, of any kind, payload and descriptors, one after another: the
      receiver gets exactly their kinds, bytes and descriptors, and then the end of the stream. */
  lemma SentIsReceived(frames: seq<seq<Cell>>, kinds: seq<nat>, payloads: seq<seq<Byte>>)
    requires |frames| == |kinds| == |payloads|
    requires forall i | 0 <= i < |frames| :: Laid(frames[i], kinds[i], payloads[i]) && kinds[i] < 0x1_0000_0000 && |frames[i]| <= 0x10_0000
    ensures var all := ParseAll(Stream(frames));
      && all.end == ClosedWaiting && |all.msgs| == |frames|
      && (forall i | 0 <= i < |frames| ::
            var m := all.msgs[i];
            && m.kind == kinds[i] && |m.bytes| == 8 + |payloads[i]| && m.bytes[8..] == payloads[i]
            && (frames[i] != [] && (forall j | 0 < j < |frames[i]| :: frames[i][j].fds == []) ==> m.fds == frames[i][0].fds))
  {
    hide LowFirst, Parse, FdsOf, U32;
    forall i | 0 <= i < |frames| ensures Framed(frames[i]) && U32(BytesOf(frames[i][..HEADER]), 0) == kinds[i] {
      LowFirstReads(frames[i], 0, kinds[i]);
      LowFirstReads(frames[i], 4, |frames[i]|);
    }
    FramesReadBack(frames);
    forall i | 0 <= i < |frames| && frames[i] != [] && (forall j | 0 < j < |frames[i]| :: frames[i][j].fds == []) ensures FdsOf(frames[i]) == frames[i][0].fds {
      FdsUpFront(frames[i]);
    }
    forall i | 0 <= i < |frames| ensures BytesOf(frames[i])[8..] == payloads[i] {}
  }

  /** What is not a message: a stream that ends before a header or before the size it names; a size below
      the header's own or above 1 MiB, of which only the header is read. */
  lemma NotAMessage(stream: seq<Cell>, size: nat)
    ensures |stream| < 8 ==> Parse(stream) == Parsed(ClosedWaiting, [])
    ensures |stream| >= 8 && size < 0x1_0000_0000 && LowFirst(stream, 4, size) ==>
      && (size < 8 || size > 0x10_0000 ==> Parse(stream) == Parsed(Corrupt, stream[8..]))
      && (8 <= size <= 0x10_0000 && |stream| < size ==> Parse(stream) == Parsed(ClosedMid, []))
  {
    if |stream| >= 8 && size < 0x1_0000_0000 && LowFirst(stream, 4, size) {
      LowFirstReads(stream, 4, size);
      hide U32, BytesOf, FdsOf;
    }
  }
}
