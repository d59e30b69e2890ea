/** Whole sessions of `ReadSome` calls: independence of chunking, unique decoding, and the exact
    capacity of the window. */
module Delivery {
  import opened Wire
  import opened Framing
  import opened Instructions
  import opened Buffering

  /** The head of a stream is decided within one message, or the stream ends before that. */
  predicate HeadFits(w: seq<byte>) {
    |w| < MAX_MESSAGE || NextFrame(w[..MAX_MESSAGE]).Decided()
  }

  predicate AllHeadsFit(w: seq<byte>)
    decreases |w|
  {
    HeadFits(w) && match NextFrame(w)
                   case Frame(n) => AllHeadsFit(w[n..])
                   case _ => true
  }

  /** Progress: with a fitting head the read window is never empty, so no call spins. */
  lemma NeverStalls(b: Buf)
    requires b.Valid() && b.InSync() && HeadFits(b.Ahead())
    ensures ReadLoop(b).out != Stalled
  {
    ReadLoopFaithful(b);
    var r := ReadLoop(b);
    var w := b.Ahead();
    if r.out == Stalled {
      var l := r.buf.live;
      assert l[..MAX_MESSAGE] == w[..MAX_MESSAGE];
      assert l[..MAX_MESSAGE] + l[MAX_MESSAGE..] == l;
      PrefixStability(l[..MAX_MESSAGE], l[MAX_MESSAGE..], 0);
    }
  }

  /** One call answers what the simple framer says about the bytes ahead, or else reports the
      failure that ends them. */
  lemma OneCall(b: Buf)
    requires b.Valid() && b.InSync() && !b.closed && HeadFits(b.Ahead())
    ensures ReadSome(b).out ==
              if NextFrame(b.Ahead()).Decided() then Prescribed(b.Ahead())
              else ReadFailed(Classify(LeadCause(b.events)))
  {
    ReadLoopFaithful(b);
    NeverStalls(b);
  }

  /** While a call works towards an instruction of at most one message, `elementLength` stays below
      MAX_MESSAGE at every byte of every scan of the window, however the bytes have arrived so far. */
  lemma ElementLengthsStayBelow(b: Buf)
    requires b.Valid() && b.InSync() && NextFrame(b.Ahead()).Frame? && HeadFits(b.Ahead())
    ensures LengthsBelow(b.live, b.parseStart, b.parseStart, 0, MAX_MESSAGE)
  {
    hide ScanAt, LengthsBelow;
    var w := b.Ahead();
    InSyncScan(b, Lead(b.events));
    FrameBoundsLengths(b.live, Lead(b.events), b.parseStart, b.parseStart, 0);
    FrameFits(w);
    LengthsBelowMore(b.live, b.parseStart, b.parseStart, 0, NextFrame(w).end, MAX_MESSAGE);
  }

  lemma FrameFits(w: seq<byte>)
    requires HeadFits(w) && NextFrame(w).Frame?
    ensures NextFrame(w).end <= MAX_MESSAGE
  {
    if |w| >= MAX_MESSAGE {
      assert w[..MAX_MESSAGE] + w[MAX_MESSAGE..] == w;
      PrefixStability(w[..MAX_MESSAGE], w[MAX_MESSAGE..], 0);
    }
  }

  /** The outcomes of successive calls, up to and including the first that returns no frame. */
  function Drain(b: Buf): seq<Outcome>
    requires b.Valid()
    decreases |b.Remaining()|
  {
    var r := ReadSome(b);
    ValidAfter(b);
    if r.out.Got? && r.out.frame != [] then [r.out] + Drain(r.buf) else [r.out]
  }

  lemma ValidAfter(b: Buf)
    requires b.Valid()
    ensures var r := ReadSome(b);
            && r.buf.Valid() && r.buf.closed == b.closed
            && Handed(r.out) + r.buf.Remaining() == b.Remaining()
            && (r.out.Got? ==> !b.closed && r.out.frame != [] && |r.buf.Remaining()| < |b.Remaining()|)
  {
    if !b.closed {
      Conservation(b);
    }
  }

  /** The same session as the simple framer sees it: it knows the bytes and how they end, but not how
      they were cut into reads. */
  function Expected(w: seq<byte>, cause: Cause): seq<Outcome>
    decreases |w|
  {
    match NextFrame(w)
    case Frame(n) => [Got(w[..n])] + Expected(w[n..], cause)
    case NeedMore(_) => [ReadFailed(Classify(cause))]
    case BadLength(_, _) => [Prescribed(w)]
    case BadTerminator(_) => [Prescribed(w)]
  }

  /** Chunking independence: the k-th call returns the same frame, or the session fails with the same
      error at the same call, for every way the transport splits the stream into reads. */
  lemma {:induction false} ChunkingIndependence(b: Buf)
    requires b.Valid() && b.InSync() && !b.closed && AllHeadsFit(b.Ahead())
    ensures Drain(b) == Expected(b.Ahead(), LeadCause(b.events))
    decreases |b.Remaining()|
  {
    OneCall(b);
    ReadLoopFaithful(b);
    ValidAfter(b);
    var r := ReadSome(b);
    var w := b.Ahead();
    if r.out.Got? {
      var n := NextFrame(w).end;
      assert w[..n] + w[n..] == w;
      assert r.buf.Ahead() == w[n..];
      ChunkingIndependence(r.buf);
    }
  }

  /** What one call of a session with fitting heads does. */
  lemma SessionStep(b: Buf)
    requires b.Valid() && b.InSync() && !b.closed && AllHeadsFit(b.Ahead())
    ensures var r := ReadSome(b);
            && r.buf.Valid() && !r.buf.closed && (r.out.Got? <==> NextFrame(b.Ahead()).Frame?)
            && (r.out.Got? ==>
                  && |r.buf.Remaining()| < |b.Remaining()| && r.buf.InSync() && AllHeadsFit(r.buf.Ahead())
                  && r.out.frame == b.Ahead()[..NextFrame(b.Ahead()).end]
                  && r.buf.Ahead() == b.Ahead()[NextFrame(b.Ahead()).end..]
                  && (r.buf.live != [] ==> r.buf.Ahead() != []))
  {
    hide ReadLoop, ScanAt;
    OneCall(b);
    ReadLoopFaithful(b);
    ValidAfter(b);
    var w := b.Ahead();
    if NextFrame(w).Frame? {
      var n := NextFrame(w).end;
      assert (w[..n] + ReadSome(b).buf.Ahead())[n..] == ReadSome(b).buf.Ahead();
    }
  }

  // ---------- Lists of instructions through the stream ----------

  function Gots(fs: seq<seq<byte>>): (os: seq<Outcome>)
    ensures |os| == |fs| && forall k :: 0 <= k < |fs| ==> os[k] == Got(fs[k])
  {
    seq(|fs|, k requires 0 <= k < |fs| => Got(fs[k]))
  }

  /** The prescribed session is the frames of the stream and then one outcome without a frame. */
  lemma {:induction false} ExpectedFrames(w: seq<byte>, cause: Cause) returns (last: Outcome)
    ensures !last.Got? && Expected(w, cause) == Gots(Frames(w)) + [last]
    decreases |w|
  {
    if NextFrame(w).Frame? {
      var n := NextFrame(w).end;
      last := ExpectedFrames(w[n..], cause);
      assert Gots(Frames(w)) == [Got(w[..n])] + Gots(Frames(w[n..]));
      Associative([Got(w[..n])], Gots(Frames(w[n..])), [last]);
    } else {
      last := Expected(w, cause)[0];
      assert Gots(Frames(w)) == [];
    }
  }

  /** What is left of a stream behind its complete frames. */
  function Leftover(w: seq<byte>): seq<byte>
    decreases |w|
  {
    match NextFrame(w)
    case Frame(n) => Leftover(w[n..])
    case _ => w
  }

  lemma {:induction false} LeftoverEnds(w: seq<byte>)
    ensures !NextFrame(Leftover(w)).Frame? && w == Concat(Frames(w)) + Leftover(w)
    decreases |w|
  {
    hide ScanAt;
    if NextFrame(w).Frame? {
      var n := NextFrame(w).end;
      LeftoverEnds(w[n..]);
      assert Leftover(w) == Leftover(w[n..]);
      FramesHead(w, n);
      hide *;
      assert w == w[..n] + w[n..];
      Associative(w[..n], Concat(Frames(w[n..])), Leftover(w[n..]));
    } else {
      NoFrames(w);
      assert Concat([]) == [];
    }
  }

  lemma {:induction false} LeftoverExpected(w: seq<byte>, cause: Cause)
    ensures |Expected(Leftover(w), cause)| == 1
    ensures Expected(w, cause) == Gots(Frames(w)) + Expected(Leftover(w), cause)
    decreases |w|
  {
    hide ScanAt;
    if NextFrame(w).Frame? {
      var n := NextFrame(w).end;
      LeftoverExpected(w[n..], cause);
      assert Leftover(w) == Leftover(w[n..]);
      assert Expected(w, cause) == [Got(w[..n])] + Expected(w[n..], cause);
      FramesHead(w, n);
      hide Expected, Frames, Leftover, Prescribed;
      assert Gots(Frames(w)) == [Got(w[..n])] + Gots(Frames(w[n..]));
      Associative([Got(w[..n])], Gots(Frames(w[n..])), Expected(Leftover(w[n..]), cause));
    } else {
      NoFrames(w);
      assert Gots([]) == [];
    }
  }

  /** How a session ends, in every chunking: after the frames of the stream, the call that returns no
      frame reports exactly what is wrong with the rest of the bytes, or with the connection if the
      rest could still be completed. */
  lemma SessionEnds(b: Buf)
    requires b.Valid() && b.InSync() && !b.closed && AllHeadsFit(b.Ahead())
    ensures var w, cause, d := b.Ahead(), LeadCause(b.events), Drain(b);
            var rest, last := Leftover(w), d[|d| - 1];
            && d == Gots(Frames(w)) + [last] && w == Concat(Frames(w)) + rest
            && (last == ReadFailed(UpstreamTimeout) <==> NextFrame(rest).NeedMore? && cause == NetTimeout)
            && (last == ReadFailed(ConnectionClosed) <==> NextFrame(rest).NeedMore? && cause == NetError)
            && (last == ReadFailed(ServerError) <==> NextFrame(rest).NeedMore? && cause == NotNet)
            && (forall c :: last == Rejected(NonNumericLength(c)) <==> SpoiltLength(rest, c))
            && (last == Rejected(WrongTerminator) <==> SpoiltTerminator(rest))
  {
    hide ScanAt, Drain, Frames, Leftover, SpoiltLength, SpoiltTerminator, LeadCause;
    ChunkingIndependence(b);
    LeftoverEnds(b.Ahead());
    LeftoverExpected(b.Ahead(), LeadCause(b.events));
    forall c: byte
      ensures NextFrame(Leftover(b.Ahead())).BadLength? && NextFrame(Leftover(b.Ahead())).found == c
              <==> SpoiltLength(Leftover(b.Ahead()), c)
    {
      RejectionMeans(Leftover(b.Ahead()), c);
    }
    RejectionMeans(Leftover(b.Ahead()), DOT);
  }

  lemma {:induction false} ExpectedOfFrames(fs: seq<seq<byte>>, cause: Cause)
    requires forall k :: 0 <= k < |fs| ==> IsFrame(fs[k]) && |fs[k]| <= MAX_MESSAGE
    ensures AllHeadsFit(Concat(fs))
    ensures Expected(Concat(fs), cause) == Gots(fs) + [ReadFailed(Classify(cause))]
  {
    if fs == [] {
      assert Gots(fs) == [];
    } else {
      hide IsFrame, ScanAt;
      var x, rest := fs[0], Concat(fs[1..]);
      ExpectedOfFrames(fs[1..], cause);
      ExpectedFirst(x, rest, cause);
      assert Gots(fs) == [Got(x)] + Gots(fs[1..]);
      Associative([Got(x)], Gots(fs[1..]), [ReadFailed(Classify(cause))]);
    }
  }

  lemma ExpectedFirst(x: seq<byte>, rest: seq<byte>, cause: Cause)
    requires IsFrame(x) && |x| <= MAX_MESSAGE && AllHeadsFit(rest)
    ensures AllHeadsFit(x + rest) && Expected(x + rest, cause) == [Got(x)] + Expected(rest, cause)
  {
    var w := x + rest;
    assert w[..|x|] == x && w[|x|..] == rest;
    FrameIffGrammar(w, |x|);
    ShortHeadFits(w, x);
    hide IsFrame, ScanAt, HeadFits;
  }

  lemma ShortHeadFits(w: seq<byte>, x: seq<byte>)
    requires IsFrame(x) && |x| <= MAX_MESSAGE && x <= w
    ensures HeadFits(w)
  {
    if |w| >= MAX_MESSAGE {
      var h := w[..MAX_MESSAGE];
      assert h[..|x|] == w[..|x|] == x;
      FrameIffGrammar(h, |x|);
    }
  }

  /** Unique decoding of a stream: for any instructions, with arbitrary bytes inside, that each encode
      to at most one message, the calls give back exactly the encodings, in order, and then the
      failure; and parsing each frame gives back exactly the instructions. */
  lemma InstructionsComeBack(xs: seq<Ins>, events: seq<Event>)
    requires Lead(events) == EncodeAll(xs)
    requires forall k :: 0 <= k < |xs| ==> |Encode(xs[k])| <= MAX_MESSAGE
    ensures Drain(Init(events)) == Gots(EncodeEach(xs)) + [ReadFailed(Classify(LeadCause(events)))]
    ensures forall k :: 0 <= k < |xs| ==> ParseSpec(EncodeEach(xs)[k]) == Parsed(xs[k])
  {
    var b := Init(events);
    StartsInSync(events);
    hide Drain, Expected, ParseSpec, Encode, Lead, LeadCause, AllHeadsFit, Heads;
    ExpectedOfFrames(EncodeEach(xs), LeadCause(events));
    ChunkingIndependence(b);
    forall k | 0 <= k < |xs| ensures ParseSpec(EncodeEach(xs)[k]) == Parsed(xs[k]) {
      ParseOne(xs[k]);
    }
  }

  lemma StartsInSync(events: seq<Event>)
    ensures Init(events).InSync() && Init(events).Ahead() == Lead(events)
  {
    assert Init(events).live[..0] == Heads([]);
  }

  lemma ParseOne(i: Ins)
    requires |Encode(i)| <= MAX_MESSAGE
    ensures ParseSpec(Encode(i)) == Parsed(i)
  {
    RoundTrip(i, []);
    assert Encode(i) + [] == Encode(i);
  }

  // ---------- The capacity bound is exact ----------

  /** The buffer after k calls. */
  function AfterCalls(b: Buf, k: nat): (c: Buf)
    requires b.Valid()
    ensures c.Valid()
    decreases k
  {
    ValidAfter(b);
    if k == 0 then b else AfterCalls(ReadSome(b).buf, k - 1)
  }

  predicate AllGot(b: Buf, k: nat)
    requires b.Valid()
    decreases k
  {
    ValidAfter(b);
    k == 0 || (ReadSome(b).out.Got? && AllGot(ReadSome(b).buf, k - 1))
  }

  /** Wherever in whatever session the bytes of x come next, and however they arrive, the next call
      returns x. */
  ghost predicate AlwaysDelivered(x: seq<byte>) {
    forall events: seq<Event>, k: nat ::
      AllGot(Init(events), k) && x <= AfterCalls(Init(events), k).Ahead()
      ==> ReadSome(AfterCalls(Init(events), k)).out == Got(x)
  }

  lemma {:induction false} SyncAfterCalls(b: Buf, k: nat)
    requires b.Valid() && b.InSync() && !b.closed && AllGot(b, k)
    ensures AfterCalls(b, k).InSync() && !AfterCalls(b, k).closed
    decreases k
  {
    if k > 0 {
      ReadLoopFaithful(b);
      ValidAfter(b);
      SyncAfterCalls(ReadSome(b).buf, k - 1);
    }
  }

  lemma ShortIsAlwaysDelivered(x: seq<byte>)
    requires IsFrame(x) && |x| <= MAX_MESSAGE
    ensures AlwaysDelivered(x)
  {
    forall events: seq<Event>, k: nat
      | AllGot(Init(events), k) && x <= AfterCalls(Init(events), k).Ahead()
      ensures ReadSome(AfterCalls(Init(events), k)).out == Got(x)
    {
      assert Init(events).live[..0] == Heads([]);
      SyncAfterCalls(Init(events), k);
      var b := AfterCalls(Init(events), k);
      ShortHeadFits(b.Ahead(), x);
      assert b.Ahead()[..|x|] == x;
      FrameIffGrammar(b.Ahead(), |x|);
      OneCall(b);
    }
  }

  /** An instruction of exactly one full message. */
  function FullMessage(): (x: seq<byte>)
    ensures IsFrame(x) && |x| == MAX_MESSAGE
  {
    var f := Field([56, 49, 56, 54], Filler(8186));
    assert Value([56]) == 8;
    assert [56, 49][..1] == [56] && Value([56, 49]) == 81;
    assert [56, 49, 56][..2] == [56, 49] && Value([56, 49, 56]) == 818;
    assert f.digits[..3] == [56, 49, 56] && Value(f.digits) == 8186;
    RenderOne(f);
    assert AllWellFormed([f]);
    Render([f])
  }

  /** Two full messages and then a longer one, all available at once. */
  function Flood(x: seq<byte>): seq<Event> {
    [Data(FullMessage() + FullMessage() + x)]
  }

  lemma FloodFill(x: seq<byte>)
    requires |x| > MAX_MESSAGE
    ensures var b := Init(Flood(x));
            && Scan(b.live, 0) == NeedMore(0) && Compact(b) == b && Room(b) == CAPACITY
            && Fill(b).start == 0 && Fill(b).parseStart == 0 && !Fill(b).closed
            && Fill(b).live == FullMessage() + (FullMessage() + x[..MAX_MESSAGE])
  {
    var b := Init(Flood(x));
    var m := FullMessage();
    var all := m + m + x;
    assert b.events[0] == Data(all);
    assert all[..CAPACITY] == m + (m + x[..MAX_MESSAGE]);
    assert [] + all[..CAPACITY] == all[..CAPACITY];
  }

  lemma TakeFrame(b: Buf, x: seq<byte>, rest: seq<byte>)
    requires b.Valid() && b.parseStart == 0 && IsFrame(x) && b.live == x + rest
    ensures ReadLoop(b).out == Got(x)
    ensures ReadLoop(b).buf == b.(start := b.start + |x|, live := rest, parseStart := 0)
  {
    assert b.live[..|x|] == x && b.live[|x|..] == rest;
    FrameIffGrammar(b.live, |x|);
  }

  lemma OneEvent(x: seq<byte>)
    ensures Init([Data(x)]).Ahead() == x
  {
    assert [Data(x)][1..] == [];
    assert Lead([Data(x)]) == x + Lead([]) == x;
    assert [] + x == x;
  }

  lemma FloodFirst(x: seq<byte>) returns (b1: Buf)
    requires |x| > MAX_MESSAGE
    ensures ReadLoop(Init(Flood(x))) == Result(Got(FullMessage()), b1)
    ensures b1.Valid() && b1.start == MAX_MESSAGE && b1.parseStart == 0 && !b1.closed
    ensures b1.live == FullMessage() + x[..MAX_MESSAGE] && b1.InSync()
    ensures Init(Flood(x)).InSync() && Init(Flood(x)).Ahead() == FullMessage() + FullMessage() + x
  {
    var b0 := Init(Flood(x));
    var m := FullMessage();
    FloodFill(x);
    TakeFrame(Fill(b0), m, m + x[..MAX_MESSAGE]);
    b1 := ReadLoop(b0).buf;
    assert b1.live[..0] == Heads([]) == b0.live[..0];
    OneEvent(m + m + x);
  }

  /** Behind two full messages the window for a longer instruction fills up undecided: no room is left
      to read, none is reclaimed, and the call spins. */
  lemma LongStalls(x: seq<byte>)
    requires IsFrame(x) && |x| > MAX_MESSAGE
    ensures AllGot(Init(Flood(x)), 2)
    ensures x <= AfterCalls(Init(Flood(x)), 2).Ahead()
    ensures ReadSome(AfterCalls(Init(Flood(x)), 2)).out == Stalled
  {
    var m := FullMessage();
    var b0 := Init(Flood(x));
    var b1 := FloodFirst(x);
    TakeFrame(b1, m, x[..MAX_MESSAGE]);
    var b2 := ReadLoop(b1).buf;
    TwoCalls(b0, b1, b2);
    FloodRest(b0, b1, b2, x);
    ProperPrefixUndecided(x, MAX_MESSAGE);
    assert Room(Compact(b2)) == 0;
  }

  lemma TwoCalls(b0: Buf, b1: Buf, b2: Buf)
    requires b0.Valid() && b1.Valid() && b2.Valid()
    requires ReadSome(b0).out.Got? && ReadSome(b0).buf == b1
    requires ReadSome(b1).out.Got? && ReadSome(b1).buf == b2
    ensures AllGot(b0, 2) && AfterCalls(b0, 2) == b2
  {
    assert AllGot(b2, 0) && AfterCalls(b2, 0) == b2;
    assert AllGot(b1, 1) && AfterCalls(b1, 1) == b2;
  }

  lemma FloodRest(b0: Buf, b1: Buf, b2: Buf, x: seq<byte>)
    requires b0.Valid() && b1.Valid() && !b0.closed && !b1.closed && b0.InSync() && b1.InSync()
    requires ReadSome(b0) == Result(Got(FullMessage()), b1) && ReadSome(b1) == Result(Got(FullMessage()), b2)
    requires b0.Ahead() == FullMessage() + FullMessage() + x
    ensures b2.Ahead() == x
  {
    ReadLoopFaithful(b0);
    ReadLoopFaithful(b1);
    var m := FullMessage();
    Associative(m, m, x);
    assert b1.Ahead() == b0.Ahead()[|m|..] == m + x;
    assert b2.Ahead() == b1.Ahead()[|m|..] == x;
  }

  /** The bound of one message is exact: an instruction is delivered in every session and under every
      chunking if and only if it is at most MAX_MESSAGE bytes long. */
  lemma CapacityIsExact(x: seq<byte>)
    requires IsFrame(x)
    ensures AlwaysDelivered(x) <==> |x| <= MAX_MESSAGE
  {
    if |x| <= MAX_MESSAGE {
      ShortIsAlwaysDelivered(x);
    } else {
      LongStalls(x);
      assert ReadSome(AfterCalls(Init(Flood(x)), 2)).out != Got(x);
    }
  }
}
