/** The client's frame accumulation loop (`read_server_address_frame_async` and
    `read_memory_area_read_response_async`) as a pure state transition: one call of
    `Step` is one turn of the loop, with the socket read passed in as a `Delivery`
    and the frame reader passed in as a parser. */
module StreamReader {
  import opened Num
  import opened Wrappers
  import opened TcpProtocol
  import FinsErrors
  import MachineAddresses
  import ServerAddressFrames

  /** The fixed-capacity read buffer and `read_position`, the number of bytes in use. */
  datatype ReadState = ReadState(buffer: seq<byte>, filled: nat) {
    predicate Valid() {
      filled <= |buffer|
    }

    /** The bytes received but not yet consumed by a frame. */
    function Pending(): seq<byte>
      requires Valid()
    {
      buffer[..filled]
    }
  }

  /** What one `reader.read(&mut buffer[filled..])` returned. */
  datatype Delivery = Received(data: seq<byte>) | ReadFailed(kind: FinsErrors.IoErrorKind)

  datatype StepOutcome<T> =
    | NeedMore(next: ReadState)
    | Complete(frame: T, next: ReadState)
    | Failed(error: Error)
      /** The `panic!("Frame does not fit in read buffer!")` before a read. */
    | BufferFull

  /** What the success branch does with the bytes after the frame: the Rust client moves
      them to the front and then sets `read_position` to 0 (`ResetToZero`); the
      evident intent is to keep them (`KeepRemainder`). */
  datatype Compaction = ResetToZero | KeepRemainder

  /** A frame reader run on a cursor over the pending bytes. */
  type Parser<T> = seq<byte> -> Result<Parsed<T>, Error>

  /** A cursor never moves past the end of its slice. */
  ghost predicate ConsumesWithin<T>(parse: Parser<T>) {
    forall s :: parse(s).Success? ==> parse(s).value.consumed <= |s|
  }

  /** The read writes `data` into `buffer[at..]` and touches nothing else. */
  function Fill(buffer: seq<byte>, at: nat, data: seq<byte>): (r: seq<byte>)
    requires at + |data| <= |buffer|
    ensures |r| == |buffer|
    ensures r[..at] == buffer[..at]
    ensures r[at..at + |data|] == data
    ensures r[at + |data|..] == buffer[at + |data|..]
  {
    var r := buffer[..at] + data + buffer[at + |data|..];
    assert r[at..at + |data|] == data;
    r
  }

  /** `copy_within(from..to, 0)`: the range moves to the front, the rest stays. */
  function CopyToFront(buffer: seq<byte>, from: nat, to: nat): (r: seq<byte>)
    requires from <= to <= |buffer|
    ensures |r| == |buffer|
    ensures r[..to - from] == buffer[from..to]
    ensures r[to - from..] == buffer[to - from..]
  {
    buffer[from..to] + buffer[to - from..]
  }

  /** The pending bytes after `data` has been written behind them. */
  lemma FilledPending(st: ReadState, data: seq<byte>)
    requires st.Valid() && st.filled + |data| <= |st.buffer|
    ensures Fill(st.buffer, st.filled, data)[..st.filled + |data|] == st.Pending() + data
  {
    var b := Fill(st.buffer, st.filled, data);
    assert b[..st.filled + |data|] == b[..st.filled] + b[st.filled..st.filled + |data|];
  }

  /** One turn of the loop. A full buffer fails before reading; a failed or empty
      read ends the loop; otherwise the parser restarts at offset 0 over all pending
      bytes, and a short read of the parser means "read more". */
  function Step<T>(st: ReadState, delivery: Delivery, parse: Parser<T>, mode: Compaction): (r: StepOutcome<T>)
    requires st.Valid() && ConsumesWithin(parse)
    requires st.filled < |st.buffer| && delivery.Received? ==> st.filled + |delivery.data| <= |st.buffer|
    ensures r.BufferFull? <==> st.filled == |st.buffer|
    ensures st.filled < |st.buffer| && delivery.ReadFailed? ==> r == Failed(Io(delivery.kind))
    ensures st.filled < |st.buffer| && delivery == Received([]) ==> r == Failed(Io(FinsErrors.UnexpectedEof))
    ensures r.NeedMore? || r.Complete? ==>
              delivery.Received? && |delivery.data| > 0 && r.next.Valid() && |r.next.buffer| == |st.buffer|
    ensures r.NeedMore? <==>
              st.filled < |st.buffer| && delivery.Received? && |delivery.data| > 0
              && parse(st.Pending() + delivery.data) == Failure(Io(FinsErrors.UnexpectedEof))
    ensures r.NeedMore? ==> r.next.Pending() == st.Pending() + delivery.data
    ensures st.filled < |st.buffer| && delivery.Received? && |delivery.data| > 0
            && parse(st.Pending() + delivery.data).Failure?
            && parse(st.Pending() + delivery.data) != Failure(Io(FinsErrors.UnexpectedEof)) ==>
              r == Failed(parse(st.Pending() + delivery.data).error)
    ensures r.Complete? <==>
              st.filled < |st.buffer| && delivery.Received? && |delivery.data| > 0
              && parse(st.Pending() + delivery.data).Success?
    ensures r.Complete? ==>
              var bytes := st.Pending() + delivery.data;
              var p := parse(bytes).value;
              r.frame == p.value
              && r.next.buffer[..|bytes| - p.consumed] == bytes[p.consumed..]
              && (mode == ResetToZero ==> r.next.filled == 0)
              && (mode == KeepRemainder ==> r.next.Pending() == bytes[p.consumed..])
  {
    if st.filled == |st.buffer| then
      BufferFull
    else
      match delivery
      case ReadFailed(kind) => Failed(Io(kind))
      case Received(data) =>
        if |data| == 0 then
          Failed(Io(FinsErrors.UnexpectedEof))
        else
          var buffer := Fill(st.buffer, st.filled, data);
          var filled := st.filled + |data|;
          FilledPending(st, data);
          match parse(buffer[..filled])
          case Success(p) =>
            var moved := CopyToFront(buffer, p.consumed, filled);
            var next := if mode == ResetToZero then 0 else filled - p.consumed;
            Complete(p.value, ReadState(moved, next))
          case Failure(e) =>
            if e == Io(FinsErrors.UnexpectedEof) then NeedMore(ReadState(buffer, filled))
            else Failed(e)
  }

  function Flatten(chunks: seq<seq<byte>>): (s: seq<byte>)
    ensures |chunks| == 0 ==> s == []
  {
    if |chunks| == 0 then [] else chunks[0] + Flatten(chunks[1..])
  }

  /** Every read the loop performs fits the space left behind the pending bytes, as
      `read(&mut buffer[filled..])` can return no more than that slice holds. Reads
      after a turn that ends the loop are never performed and are unconstrained, and
      so is every read once the buffer is full (that turn panics before reading). */
  ghost predicate ReadsFit<T>(st: ReadState, chunks: seq<seq<byte>>, parse: Parser<T>, mode: Compaction)
    requires st.Valid() && ConsumesWithin(parse)
    decreases |chunks|
  {
    |chunks| == 0 || st.filled == |st.buffer|
    || (st.filled + |chunks[0]| <= |st.buffer|
        && var o := Step(st, Received(chunks[0]), parse, mode);
           o.NeedMore? ==> ReadsFit(o.next, chunks[1..], parse, mode))
  }

  /** Feeds the reads in order until a turn of the loop ends it; `NeedMore` means
      the reads ran out first, with all of them still pending. */
  function Run<T>(st: ReadState, chunks: seq<seq<byte>>, parse: Parser<T>, mode: Compaction): (r: StepOutcome<T>)
    requires st.Valid() && ConsumesWithin(parse)
    requires ReadsFit(st, chunks, parse, mode)
    ensures |chunks| == 0 ==> r == NeedMore(st)
    ensures r.NeedMore? || r.Complete? ==> r.next.Valid() && |r.next.buffer| == |st.buffer|
    ensures r.NeedMore? ==> r.next.Pending() == st.Pending() + Flatten(chunks)
    decreases |chunks|
  {
    if |chunks| == 0 then
      NeedMore(st)
    else
      var o := Step(st, Received(chunks[0]), parse, mode);
      if o.NeedMore? then Run(o.next, chunks[1..], parse, mode) else o
  }

  function ReadFromServerAddress(s: seq<byte>): Result<Parsed<ServerAddressFrames.ServerAddressFrame>, Error> {
    ServerAddressFrames.ReadFrom(s)
  }

  lemma ServerAddressConsumesWithin()
    ensures ConsumesWithin(ReadFromServerAddress)
  {
    forall s | ReadFromServerAddress(s).Success?
      ensures ReadFromServerAddress(s).value.consumed <= |s|
    {
    }
  }

  /** A turn whose parse succeeds returns that frame. */
  lemma StepCompletes<T>(st: ReadState, data: seq<byte>, parse: Parser<T>, mode: Compaction, v: T, n: nat)
    requires st.Valid() && ConsumesWithin(parse) && |data| > 0 && st.filled + |data| <= |st.buffer|
    requires parse(st.Pending() + data) == Success(Parsed(v, n))
    ensures n <= |st.Pending() + data|
    ensures var o := Step(st, Received(data), parse, mode);
            o.Complete? && o.frame == v && o.next.Valid() && |o.next.buffer| == |st.buffer|
            && (mode == ResetToZero ==> o.next.Pending() == [])
            && (mode == KeepRemainder ==> o.next.Pending() == (st.Pending() + data)[n..])
  {
  }

  /** A turn whose parse runs out of bytes keeps everything and asks for more. */
  lemma StepNeedsMore<T>(st: ReadState, data: seq<byte>, parse: Parser<T>, mode: Compaction)
    requires st.Valid() && ConsumesWithin(parse) && |data| > 0 && st.filled + |data| <= |st.buffer|
    requires parse(st.Pending() + data) == Failure(Io(FinsErrors.UnexpectedEof))
    ensures var o := Step(st, Received(data), parse, mode);
            o.NeedMore? && o.next.Valid() && |o.next.buffer| == |st.buffer|
            && o.next.filled == st.filled + |data| && o.next.Pending() == st.Pending() + data
  {
  }

  /** However the bytes of one frame are split into non-empty reads, the loop asks
      for more until the last byte is in and then returns the frame. This holds for
      any frame reader that reports every proper prefix of the frame as a short read.
      `done` bytes of the frame are already pending. */
  lemma {:induction false} FeedFrame<T>(
    parse: Parser<T>, w: seq<byte>, v: T, st: ReadState, done: nat, chunks: seq<seq<byte>>, mode: Compaction)
    requires ConsumesWithin(parse)
    requires forall k :: 0 <= k < |w| ==> parse(w[..k]) == Failure(Io(FinsErrors.UnexpectedEof))
    requires parse(w) == Success(Parsed(v, |w|))
    requires st.Valid() && |w| <= |st.buffer| && done < |w| && st.filled == done
    requires st.Pending() == w[..done] && Flatten(chunks) == w[done..]
    requires forall i :: 0 <= i < |chunks| ==> |chunks[i]| > 0
    ensures ReadsFit(st, chunks, parse, mode)
    ensures Run(st, chunks, parse, mode).Complete? && Run(st, chunks, parse, mode).frame == v
    decreases |chunks|
  {
    var c := chunks[0];
    assert Flatten(chunks) == c + Flatten(chunks[1..]);
    var now := done + |c|;
    assert st.Pending() + c == w[..now] by {
      assert w[done..][..|c|] == c;
    }
    if now < |w| {
      StepNeedsMore(st, c, parse, mode);
      var o := Step(st, Received(c), parse, mode);
      assert Flatten(chunks[1..]) == w[now..] by {
        assert w[done..][|c|..] == w[now..];
      }
      FeedFrame(parse, w, v, o.next, now, chunks[1..], mode);
    } else {
      assert w[..now] == w;
      StepCompletes(st, c, parse, mode, v, |w|);
    }
  }

  /** Reads that fill the buffer while the frame reader still wants more end in the
      `panic!`: the turn after the buffer is full reads nothing and fails. `w` is
      everything pending once the reads are in, exactly a buffer's worth. */
  lemma {:induction false} FilledBufferPanics<T>(
    parse: Parser<T>, w: seq<byte>, st: ReadState, chunks: seq<seq<byte>>, more: seq<byte>, mode: Compaction)
    requires st.Valid() && ConsumesWithin(parse)
    requires |w| == |st.buffer| && st.Pending() + Flatten(chunks) == w
    requires forall k :: st.filled < k <= |w| ==> parse(w[..k]) == Failure(Io(FinsErrors.UnexpectedEof))
    requires forall i :: 0 <= i < |chunks| ==> |chunks[i]| > 0
    ensures ReadsFit(st, chunks + [more], parse, mode)
    ensures Run(st, chunks + [more], parse, mode) == BufferFull
    decreases |chunks|
  {
    var all := chunks + [more];
    if |chunks| == 0 {
      assert st.filled == |st.buffer|;
      assert all[1..] == [];
    } else {
      var c := chunks[0];
      assert all[0] == c && all[1..] == chunks[1..] + [more];
      assert Flatten(chunks) == c + Flatten(chunks[1..]);
      var now := st.filled + |c|;
      assert st.Pending() + c == w[..now];
      StepNeedsMore(st, c, parse, mode);
      var o := Step(st, Received(c), parse, mode);
      assert o.next.Pending() + Flatten(chunks[1..]) == w;
      FilledBufferPanics(parse, w, o.next, chunks[1..], more, mode);
    }
  }

  /** The frame reader of the handshake answer reports every proper prefix of a
      frame as a short read and the whole frame as that frame. */
  lemma ServerAddressParserShape(f: ServerAddressFrames.ServerAddressFrame)
    ensures var w := ServerAddressFrames.WriteTo(f);
            (forall k :: 0 <= k < |w| ==> ReadFromServerAddress(w[..k]) == Failure(Io(FinsErrors.UnexpectedEof)))
            && ReadFromServerAddress(w) == Success(Parsed(f, |w|))
  {
    var w := ServerAddressFrames.WriteTo(f);
    forall k | 0 <= k < |w|
      ensures ReadFromServerAddress(w[..k]) == Failure(Io(FinsErrors.UnexpectedEof))
    {
      ServerAddressFrames.ReadPrefix(f, k);
    }
    assert w == w + [];
    ServerAddressFrames.ReadWritten(f, []);
  }

  /** However a server address frame is split into reads, a fresh buffer of at least
      24 bytes returns it after the read that brings its last byte. */
  lemma FeedServerAddressFrame(
    f: ServerAddressFrames.ServerAddressFrame, buffer: seq<byte>, chunks: seq<seq<byte>>, mode: Compaction)
    requires ServerAddressFrames.FrameSize <= |buffer|
    requires Flatten(chunks) == ServerAddressFrames.WriteTo(f)
    requires forall i :: 0 <= i < |chunks| ==> |chunks[i]| > 0
    ensures ConsumesWithin(ReadFromServerAddress) && ReadsFit(ReadState(buffer, 0), chunks, ReadFromServerAddress, mode)
            && Run(ReadState(buffer, 0), chunks, ReadFromServerAddress, mode).Complete?
            && Run(ReadState(buffer, 0), chunks, ReadFromServerAddress, mode).frame == f
  {
    ServerAddressConsumesWithin();
    ServerAddressParserShape(f);
    var w := ServerAddressFrames.WriteTo(f);
    assert ReadState(buffer, 0).Pending() == w[..0];
    assert w[0..] == w;
    FeedFrame(ReadFromServerAddress, w, f, ReadState(buffer, 0), 0, chunks, mode);
  }

  /** A frame longer than the buffer: once the reads have filled the buffer with its
      start, the next turn panics. */
  lemma PrefixFillsBuffer<T>(
    parse: Parser<T>, wf: seq<byte>, buffer: seq<byte>, chunks: seq<seq<byte>>, more: seq<byte>, mode: Compaction)
    requires ConsumesWithin(parse)
    requires forall k :: 0 <= k < |wf| ==> parse(wf[..k]) == Failure(Io(FinsErrors.UnexpectedEof))
    requires |buffer| < |wf| && Flatten(chunks) == wf[..|buffer|]
    requires forall i :: 0 <= i < |chunks| ==> |chunks[i]| > 0
    ensures ReadsFit(ReadState(buffer, 0), chunks + [more], parse, mode)
    ensures Run(ReadState(buffer, 0), chunks + [more], parse, mode) == BufferFull
  {
    var w := wf[..|buffer|];
    forall k | 0 < k <= |w|
      ensures parse(w[..k]) == Failure(Io(FinsErrors.UnexpectedEof))
    {
      assert w[..k] == wf[..k];
    }
    assert ReadState(buffer, 0).Pending() + Flatten(chunks) == w;
    FilledBufferPanics(parse, w, ReadState(buffer, 0), chunks, more, mode);
  }

  /** A buffer smaller than a server address frame, filled by the start of one,
      panics on the next turn: the frame never fits. */
  lemma ServerFrameOverflowsSmallBuffer(
    f: ServerAddressFrames.ServerAddressFrame, buffer: seq<byte>, chunks: seq<seq<byte>>, more: seq<byte>,
    mode: Compaction)
    requires |buffer| < ServerAddressFrames.FrameSize
    requires Flatten(chunks) == ServerAddressFrames.WriteTo(f)[..|buffer|]
    requires forall i :: 0 <= i < |chunks| ==> |chunks[i]| > 0
    ensures ConsumesWithin(ReadFromServerAddress)
            && ReadsFit(ReadState(buffer, 0), chunks + [more], ReadFromServerAddress, mode)
            && Run(ReadState(buffer, 0), chunks + [more], ReadFromServerAddress, mode) == BufferFull
  {
    ServerAddressConsumesWithin();
    ServerAddressParserShape(f);
    PrefixFillsBuffer(ReadFromServerAddress, ServerAddressFrames.WriteTo(f), buffer, chunks, more, mode);
  }

  /** Two server address frames arriving in one read: the first is returned, and
      what stays pending depends only on the compaction. */
  lemma TwoFramesInOneRead(
    f1: ServerAddressFrames.ServerAddressFrame, f2: ServerAddressFrames.ServerAddressFrame,
    buffer: seq<byte>, mode: Compaction)
    requires 2 * ServerAddressFrames.FrameSize <= |buffer|
    ensures ConsumesWithin(ReadFromServerAddress) &&
            var first := Step(ReadState(buffer, 0), Received(ServerAddressFrames.WriteTo(f1) + ServerAddressFrames.WriteTo(f2)),
                              ReadFromServerAddress, mode);
            first.Complete? && first.frame == f1 && first.next.Valid() && |first.next.buffer| == |buffer|
            && (mode == ResetToZero ==> first.next.Pending() == [])
            && (mode == KeepRemainder ==> first.next.Pending() == ServerAddressFrames.WriteTo(f2))
  {
    ServerAddressConsumesWithin();
    var w1, w2 := ServerAddressFrames.WriteTo(f1), ServerAddressFrames.WriteTo(f2);
    ServerAddressFrames.ReadWritten(f1, w2);
    FrontFrameOfRead(buffer, w1, w2, ReadFromServerAddress, mode, f1);
  }

  /** A read into an empty buffer whose bytes start with a complete frame `w1`:
      the frame is returned and `w2`, the rest of the read, is what stays pending
      when the remainder is kept. */
  lemma FrontFrameOfRead<T>(buffer: seq<byte>, w1: seq<byte>, w2: seq<byte>, parse: Parser<T>, mode: Compaction, v: T)
    requires ConsumesWithin(parse) && |w1| > 0 && |w1 + w2| <= |buffer|
    requires parse(w1 + w2) == Success(Parsed(v, |w1|))
    ensures var first := Step(ReadState(buffer, 0), Received(w1 + w2), parse, mode);
            first.Complete? && first.frame == v && first.next.Valid() && |first.next.buffer| == |buffer|
            && (mode == ResetToZero ==> first.next.Pending() == [])
            && (mode == KeepRemainder ==> first.next.Pending() == w2)
  {
    var st := ReadState(buffer, 0);
    assert st.Pending() + (w1 + w2) == w1 + w2;
    StepCompletes(st, w1 + w2, parse, mode, v, |w1|);
    assert (w1 + w2)[|w1|..] == w2;
  }

  /** A read that completes a whole server address frame at the front of the pending
      bytes returns that frame. */
  lemma PendingFrameCompletes(
    st: ReadState, data: seq<byte>, f: ServerAddressFrames.ServerAddressFrame, rest: seq<byte>, mode: Compaction)
    requires st.Valid() && |data| > 0 && st.filled + |data| <= |st.buffer|
    requires st.Pending() + data == ServerAddressFrames.WriteTo(f) + rest
    ensures ConsumesWithin(ReadFromServerAddress) &&
            var o := Step(st, Received(data), ReadFromServerAddress, mode);
            o.Complete? && o.frame == f
  {
    ServerAddressConsumesWithin();
    ServerAddressFrames.ReadWritten(f, rest);
    StepCompletes(st, data, ReadFromServerAddress, mode, f, ServerAddressFrames.FrameSize);
  }

  /** A whole server address frame read into an empty buffer is returned. */
  lemma EmptyBufferFrameCompletes(st: ReadState, f: ServerAddressFrames.ServerAddressFrame, mode: Compaction)
    requires st.Valid() && st.filled == 0 && ServerAddressFrames.FrameSize <= |st.buffer|
    ensures ConsumesWithin(ReadFromServerAddress) &&
            var o := Step(st, Received(ServerAddressFrames.WriteTo(f)), ReadFromServerAddress, mode);
            o.Complete? && o.frame == f
  {
    var w := ServerAddressFrames.WriteTo(f);
    assert st.Pending() + w == w + [];
    PendingFrameCompletes(st, w, f, [], mode);
  }

  /** Everything after the first frame of a read, as the Rust client leaves it: the next
      turn starts from an empty buffer, so a second frame that arrived in the same
      read is lost, and the frame after it is returned in its place. */
  lemma PipelinedFrameDropped(
    f1: ServerAddressFrames.ServerAddressFrame, f2: ServerAddressFrames.ServerAddressFrame,
    f3: ServerAddressFrames.ServerAddressFrame, buffer: seq<byte>)
    requires 2 * ServerAddressFrames.FrameSize <= |buffer|
    ensures ConsumesWithin(ReadFromServerAddress) &&
            var first := Step(ReadState(buffer, 0), Received(ServerAddressFrames.WriteTo(f1) + ServerAddressFrames.WriteTo(f2)),
                              ReadFromServerAddress, ResetToZero);
            first.Complete? && first.frame == f1 && first.next.Valid() && first.next.filled == 0
            && |first.next.buffer| == |buffer|
            && var second := Step(first.next, Received(ServerAddressFrames.WriteTo(f3)), ReadFromServerAddress, ResetToZero);
               second.Complete? && second.frame == f3
  {
    TwoFramesInOneRead(f1, f2, buffer, ResetToZero);
    var first := Step(ReadState(buffer, 0), Received(ServerAddressFrames.WriteTo(f1) + ServerAddressFrames.WriteTo(f2)),
                      ReadFromServerAddress, ResetToZero);
    EmptyBufferFrameCompletes(first.next, f3, ResetToZero);
  }

  /** The corrected success branch keeps the remainder pending: the second frame of
      the read is the one the next turn returns, provided the next read delivers at
      least one byte. */
  lemma PipelinedFrameKept(
    f1: ServerAddressFrames.ServerAddressFrame, f2: ServerAddressFrames.ServerAddressFrame,
    more: seq<byte>, buffer: seq<byte>)
    requires 2 * ServerAddressFrames.FrameSize + |more| <= |buffer| && |more| > 0
    ensures ConsumesWithin(ReadFromServerAddress) &&
            var first := Step(ReadState(buffer, 0), Received(ServerAddressFrames.WriteTo(f1) + ServerAddressFrames.WriteTo(f2)),
                              ReadFromServerAddress, KeepRemainder);
            first.Complete? && first.frame == f1 && first.next.Pending() == ServerAddressFrames.WriteTo(f2)
            && first.next.Valid() && |first.next.buffer| == |buffer|
            && var second := Step(first.next, Received(more), ReadFromServerAddress, KeepRemainder);
               second.Complete? && second.frame == f2
  {
    TwoFramesInOneRead(f1, f2, buffer, KeepRemainder);
    var first := Step(ReadState(buffer, 0), Received(ServerAddressFrames.WriteTo(f1) + ServerAddressFrames.WriteTo(f2)),
                      ReadFromServerAddress, KeepRemainder);
    PendingFrameCompletes(first.next, more, f2, more, KeepRemainder);
  }

  /** Keeping the remainder is not the whole correction: the loop still reads before
      it parses, so when the stream ends after a read that carried two frames, the
      second frame is pending in full and the next call fails with `UnexpectedEof`. */
  lemma KeptFrameLostAtEndOfStream(
    f1: ServerAddressFrames.ServerAddressFrame, f2: ServerAddressFrames.ServerAddressFrame, buffer: seq<byte>)
    requires 2 * ServerAddressFrames.FrameSize <= |buffer|
    ensures ConsumesWithin(ReadFromServerAddress) &&
            var first := Step(ReadState(buffer, 0), Received(ServerAddressFrames.WriteTo(f1) + ServerAddressFrames.WriteTo(f2)),
                              ReadFromServerAddress, KeepRemainder);
            first.Complete? && first.next.Valid() && first.next.Pending() == ServerAddressFrames.WriteTo(f2)
            && first.next.filled < |first.next.buffer|
            && Step(first.next, Received([]), ReadFromServerAddress, KeepRemainder) == Failed(Io(FinsErrors.UnexpectedEof))
  {
    TwoFramesInOneRead(f1, f2, buffer, KeepRemainder);
  }

  /** A buffer smaller than a frame can never deliver one: the loop reads until the
      buffer is full and then panics. */
  lemma SmallBufferNeverCompletes(st: ReadState, delivery: Delivery)
    requires st.Valid() && |st.buffer| < ServerAddressFrames.FrameSize
    requires st.filled < |st.buffer| && delivery.Received? ==> st.filled + |delivery.data| <= |st.buffer|
    ensures ConsumesWithin(ReadFromServerAddress) &&
            !Step(st, delivery, ReadFromServerAddress, ResetToZero).Complete?
            && !Step(st, delivery, ReadFromServerAddress, KeepRemainder).Complete?
  {
    ServerAddressConsumesWithin();
  }

  /** The part of a memory area read response the client looks at. */
  datatype MemoryAreaReadResponse =
    MemoryAreaReadResponse(srcAddr: MachineAddresses.MachineAddress,
                           dstAddr: MachineAddresses.MachineAddress,
                           bytes: seq<byte>)

  predicate Addressed(r: MemoryAreaReadResponse, clientNode: byte, serverNode: byte) {
    r.srcAddr.node == serverNode && r.dstAddr.node == clientNode
  }

  /** The `assert_eq!` pair run on each pipelined response in order: the index of the
      first response that came from another node or was meant for another node (the
      one that panics), or `None` when every response passes. */
  method CheckPipelinedResponses(responses: seq<MemoryAreaReadResponse>, clientNode: byte, serverNode: byte)
    returns (firstMismatch: Option<nat>)
    ensures firstMismatch.None? <==>
              forall i :: 0 <= i < |responses| ==> Addressed(responses[i], clientNode, serverNode)
    ensures firstMismatch.Some? ==>
              firstMismatch.value < |responses|
              && !Addressed(responses[firstMismatch.value], clientNode, serverNode)
              && forall i :: 0 <= i < firstMismatch.value ==> Addressed(responses[i], clientNode, serverNode)
  {
    var k := 0;
    while k < |responses|
      invariant k <= |responses|
      invariant forall i :: 0 <= i < k ==> Addressed(responses[i], clientNode, serverNode)
    {
      if responses[k].srcAddr.node != serverNode || responses[k].dstAddr.node != clientNode {
        return Some(k);
      }
      k := k + 1;
    }
    return None;
  }
}
