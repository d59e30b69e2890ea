/** `guacdToWs`: instructions from guacd, batched into WebSocket messages. */
module WebSocketPump {
  import opened Wire
  import opened Framing
  import opened Instructions
  import opened Buffering
  import opened Delivery
  import opened Streams

  /** Why the pump stops: a read that returned no instruction, or a message the socket refused. */
  datatype End = ReadEnded(out: Outcome) | WriteFailed

  /** `read`: the instructions taken from guacd; `batches`: the instructions of each message sent;
      `pending`: what was buffered and not sent when the pump stopped. */
  datatype Pumped = Pumped(read: seq<seq<byte>>, batches: seq<seq<seq<byte>>>, pending: seq<seq<byte>>, end: End)

  predicate Internal(x: seq<byte>) {
    INTERNAL_PREFIX <= x
  }

  /** The pump on values; the socket takes `accepts` more messages before it fails. */
  function Pump(b: Buf, pending: seq<seq<byte>>, accepts: nat): Pumped
    requires b.Valid()
    decreases |b.Remaining()|
  {
    ValidAfter(b);
    var r := ReadSome(b);
    if !r.out.Got? then Pumped([], [], pending, ReadEnded(r.out))
    else
      var x := r.out.frame;
      if Internal(x) then
        var p := Pump(r.buf, pending, accepts);
        p.(read := [x] + p.read)
      else if r.buf.live != [] && |Concat(pending + [x])| < MAX_MESSAGE then
        var p := Pump(r.buf, pending + [x], accepts);
        p.(read := [x] + p.read)
      else if accepts == 0 then Pumped([x], [], pending + [x], WriteFailed)
      else
        var p := Pump(r.buf, [], accepts - 1);
        p.(read := [x] + p.read, batches := [pending + [x]] + p.batches)
  }

  /** One step of the pump, for proofs that hide its definition. */
  lemma PumpStep(b: Buf, pending: seq<seq<byte>>, accepts: nat)
    requires b.Valid()
    ensures var r := ReadSome(b);
            var p := Pump(b, pending, accepts);
            && r.buf.Valid()
            && (!r.out.Got? ==> p == Pumped([], [], pending, ReadEnded(r.out)))
            && (r.out.Got? ==>
                  var x := r.out.frame;
                  && |r.buf.Remaining()| < |b.Remaining()| && x + r.buf.Remaining() == b.Remaining()
                  && if Internal(x) then Reads(p, x, Pump(r.buf, pending, accepts))
                     else if r.buf.live != [] && |Concat(pending + [x])| < MAX_MESSAGE
                       then Reads(p, x, Pump(r.buf, pending + [x], accepts))
                     else if accepts == 0 then p == Pumped([x], [], pending + [x], WriteFailed)
                     else Sends(p, x, pending + [x], Pump(r.buf, [], accepts - 1)))
  {
    ValidAfter(b);
  }

  predicate Reads(p: Pumped, x: seq<byte>, rest: Pumped) {
    p == rest.(read := [x] + rest.read)
  }

  predicate Sends(p: Pumped, x: seq<byte>, batch: seq<seq<byte>>, rest: Pumped) {
    p == rest.(read := [x] + rest.read, batches := [batch] + rest.batches)
  }

  function Messages(batches: seq<seq<seq<byte>>>): (ms: seq<seq<byte>>)
    ensures |ms| == |batches| && forall k :: 0 <= k < |ms| ==> ms[k] == Concat(batches[k])
  {
    seq(|batches|, k requires 0 <= k < |batches| => Concat(batches[k]))
  }

  /** The WebSocket connection: takes `accepts` messages, then fails. */
  class MessageWriter {
    var messages: seq<seq<byte>>
    var accepts: nat

    constructor (accepts: nat)
      ensures messages == [] && this.accepts == accepts
    {
      messages := [];
      this.accepts := accepts;
    }

    method WriteMessage(data: seq<byte>) returns (ok: bool)
      modifies this
      ensures ok == (old(accepts) > 0)
      ensures messages == if ok then old(messages) + [data] else old(messages)
      ensures accepts == if ok then old(accepts) - 1 else old(accepts)
    {
      ok := accepts > 0;
      if ok {
        messages := messages + [data];
        accepts := accepts - 1;
      }
    }
  }

  /** What has happened so far, followed by what is still to come. */
  function Resume(read: seq<seq<byte>>, batches: seq<seq<seq<byte>>>, rest: Pumped): Pumped {
    rest.(read := read + rest.read, batches := batches + rest.batches)
  }

  method GuacdToWs(ws: MessageWriter, guacd: Stream) returns (buf: seq<byte>, end: End)
    requires guacd.Valid()
    modifies ws, guacd`start, guacd`len, guacd`parseStart, guacd.reset, guacd.conn`events
    ensures guacd.Valid()
    ensures var p := Pump(old(guacd.View()), [], old(ws.accepts));
            && ws.messages == old(ws.messages) + Messages(p.batches)
            && buf == Concat(p.pending) && end == p.end
  {
    hide *;
    buf := [];
    ghost var read: seq<seq<byte>>, batches: seq<seq<seq<byte>>>, pending: seq<seq<byte>> := [], [], [];
    ghost var all := Pump(guacd.View(), [], ws.accepts);
    ResumeNothing(all);
    while true
      invariant guacd.Valid()
      invariant buf == Concat(pending)
      invariant ws.messages == old(ws.messages) + Messages(batches)
      invariant all == Resume(read, batches, Pump(guacd.View(), pending, ws.accepts))
      decreases |guacd.View().Remaining()|
    {
      ghost var here := Pump(guacd.View(), pending, ws.accepts);
      PumpStep(guacd.View(), pending, ws.accepts);
      var ins := guacd.ReadSome();
      if !ins.Got? {
        ResumeDone(read, batches, here);
        return buf, ReadEnded(ins);
      }
      if Internal(ins.frame) {
        ResumeRead(read, batches, here, ins.frame, Pump(guacd.View(), pending, ws.accepts));
        read := read + [ins.frame];
        continue;
      }
      ConcatSnoc(pending, ins.frame);
      buf := buf + ins.frame;
      pending := pending + [ins.frame];
      var available := guacd.Available();
      if !available || |buf| >= MAX_MESSAGE {
        var ok := ws.WriteMessage(buf);
        if !ok {
          ResumeDone(read, batches, here);
          return buf, WriteFailed;
        }
        MessagesSnoc(batches, pending);
        Associative(old(ws.messages), Messages(batches), [buf]);
        ResumeSent(read, batches, here, ins.frame, pending, Pump(guacd.View(), [], ws.accepts));
        batches := batches + [pending];
        buf, pending := [], [];
      } else {
        ResumeRead(read, batches, here, ins.frame, Pump(guacd.View(), pending, ws.accepts));
      }
      read := read + [ins.frame];
    }
  }

  lemma MessagesSnoc(batches: seq<seq<seq<byte>>>, batch: seq<seq<byte>>)
    ensures Messages(batches + [batch]) == Messages(batches) + [Concat(batch)]
  {
  }

  lemma ResumeNothing(p: Pumped)
    ensures Resume([], [], p) == p && Messages([]) == [] && Concat([]) == []
  {
    assert [] + p.read == p.read && [] + p.batches == p.batches;
  }

  lemma ResumeDone(read: seq<seq<byte>>, batches: seq<seq<seq<byte>>>, p: Pumped)
    requires p.batches == []
    ensures var q := Resume(read, batches, p);
            q.batches == batches && q.pending == p.pending && q.end == p.end
  {
  }

  lemma ResumeRead(read: seq<seq<byte>>, batches: seq<seq<seq<byte>>>, p: Pumped, x: seq<byte>, rest: Pumped)
    requires Reads(p, x, rest)
    ensures Resume(read, batches, p) == Resume(read + [x], batches, rest)
  {
    Associative(read, [x], rest.read);
  }

  lemma ResumeSent(read: seq<seq<byte>>, batches: seq<seq<seq<byte>>>, p: Pumped, x: seq<byte>, batch: seq<seq<byte>>,
                   rest: Pumped)
    requires Sends(p, x, batch, rest)
    ensures Resume(read, batches, p) == Resume(read + [x], batches + [batch], rest)
  {
    Associative(read, [x], rest.read);
    Associative(batches, [batch], rest.batches);
  }

  // ---------- What a run of the pump amounts to ----------

  /** The instructions that are meant for the client. */
  function Forwarded(read: seq<seq<byte>>): seq<seq<byte>> {
    if read == [] then []
    else (if Internal(read[0]) then [] else [read[0]]) + Forwarded(read[1..])
  }

  function Flat(batches: seq<seq<seq<byte>>>): seq<seq<byte>> {
    if batches == [] then [] else batches[0] + Flat(batches[1..])
  }

  /** Messages are cut at instruction boundaries only, and lose, repeat and reorder nothing: the
      instructions of the messages, then those still pending, are exactly the instructions read
      without the internal ones. */
  lemma {:induction false} PumpConserves(b: Buf, pending: seq<seq<byte>>, accepts: nat)
    requires b.Valid()
    ensures var p := Pump(b, pending, accepts);
            Flat(p.batches) + p.pending == pending + Forwarded(p.read)
    decreases |b.Remaining()|
  {
    hide ReadSome, Pump;
    PumpStep(b, pending, accepts);
    var r := ReadSome(b);
    if r.out.Got? {
      var x := r.out.frame;
      if Internal(x) {
        PumpConserves(r.buf, pending, accepts);
        ForwardedCons(x, Pump(r.buf, pending, accepts).read);
      } else if r.buf.live != [] && |Concat(pending + [x])| < MAX_MESSAGE {
        PumpConserves(r.buf, pending + [x], accepts);
        var q := Pump(r.buf, pending + [x], accepts);
        ForwardedCons(x, q.read);
        Associative(pending, [x], Forwarded(q.read));
      } else if accepts > 0 {
        PumpConserves(r.buf, [], accepts - 1);
        var q := Pump(r.buf, [], accepts - 1);
        ForwardedCons(x, q.read);
        assert ([pending + [x]] + q.batches)[1..] == q.batches;
        Associative(pending + [x], Flat(q.batches), q.pending);
        Associative(pending, [x], Forwarded(q.read));
      } else {
        ForwardedCons(x, []);
      }
    }
  }

  lemma ForwardedCons(x: seq<byte>, xs: seq<seq<byte>>)
    ensures Forwarded([x] + xs) == (if Internal(x) then [] else [x]) + Forwarded(xs)
  {
    assert ([x] + xs)[1..] == xs;
  }

  /** A batch is sent the moment it reaches the limit, never later. */
  predicate JustFull(batch: seq<seq<byte>>) {
    batch != [] && |Concat(batch[..|batch| - 1])| < MAX_MESSAGE
  }

  /** Below the limit at every loop head: whatever is pending when the pump stops on a read is short,
      and each message, also one that the socket refuses, was short before its last instruction. */
  lemma {:induction false} PumpBounds(b: Buf, pending: seq<seq<byte>>, accepts: nat)
    requires b.Valid() && |Concat(pending)| < MAX_MESSAGE
    ensures var p := Pump(b, pending, accepts);
            && (forall k :: 0 <= k < |p.batches| ==> JustFull(p.batches[k]))
            && (p.end.ReadEnded? ==> |Concat(p.pending)| < MAX_MESSAGE)
            && (p.end.WriteFailed? ==> JustFull(p.pending))
    decreases |b.Remaining()|
  {
    hide ReadSome, Pump;
    PumpStep(b, pending, accepts);
    var r := ReadSome(b);
    if r.out.Got? {
      var x := r.out.frame;
      assert (pending + [x])[..|pending|] == pending;
      if Internal(x) {
        PumpBounds(r.buf, pending, accepts);
      } else if r.buf.live != [] && |Concat(pending + [x])| < MAX_MESSAGE {
        PumpBounds(r.buf, pending + [x], accepts);
      } else if accepts > 0 {
        PumpBounds(r.buf, [], accepts - 1);
      }
    }
  }

  lemma {:induction false} FlatHas(batches: seq<seq<seq<byte>>>, k: nat, j: nat)
    requires k < |batches| && j < |batches[k]|
    ensures batches[k][j] in Flat(batches)
  {
    if k > 0 {
      FlatHas(batches[1..], k - 1, j);
    }
  }

  lemma {:induction false} ForwardedWereRead(read: seq<seq<byte>>, x: seq<byte>)
    requires x in Forwarded(read)
    ensures x in read && !Internal(x)
  {
    if !(x == read[0] && !Internal(x)) {
      ForwardedWereRead(read[1..], x);
    }
  }

  /** With instructions of at most one message, no message reaches the write buffer's two messages. */
  lemma MessagesFitTheWriteBuffer(b: Buf, accepts: nat)
    requires b.Valid()
    requires forall x :: x in Pump(b, [], accepts).read ==> |x| <= MAX_MESSAGE
    ensures forall m :: m in Messages(Pump(b, [], accepts).batches) ==> |m| < 2 * MAX_MESSAGE
  {
    hide Pump, Forwarded, Flat, Internal;
    var p := Pump(b, [], accepts);
    PumpBounds(b, [], accepts);
    PumpConserves(b, [], accepts);
    assert [] + Forwarded(p.read) == Forwarded(p.read);
    forall k | 0 <= k < |p.batches| ensures |Concat(p.batches[k])| < 2 * MAX_MESSAGE {
      var batch := p.batches[k];
      var last := batch[|batch| - 1];
      FlatHas(p.batches, k, |batch| - 1);
      assert last in Flat(p.batches) + p.pending;
      ForwardedWereRead(p.read, last);
      ConcatSnoc(batch[..|batch| - 1], last);
      assert batch[..|batch| - 1] + [last] == batch;
    }
  }

  /** The pump reads exactly the session that `ReadSome` offers, up to the call it stops at. */
  lemma {:induction false} PumpReadsTheSession(b: Buf, pending: seq<seq<byte>>, accepts: nat)
    requires b.Valid()
    ensures var p := Pump(b, pending, accepts);
            match p.end
            case ReadEnded(o) => Drain(b) == Gots(p.read) + [o]
            case WriteFailed => Gots(p.read) <= Drain(b)
    decreases |b.Remaining()|
  {
    hide ReadSome, Pump;
    PumpStep(b, pending, accepts);
    var r := ReadSome(b);
    if r.out.Got? {
      var x := r.out.frame;
      var q := if Internal(x) then Pump(r.buf, pending, accepts)
               else if r.buf.live != [] && |Concat(pending + [x])| < MAX_MESSAGE
                 then Pump(r.buf, pending + [x], accepts)
               else if accepts > 0 then Pump(r.buf, [], accepts - 1)
               else Pumped([], [], [], WriteFailed);
      if Internal(x) {
        PumpReadsTheSession(r.buf, pending, accepts);
      } else if r.buf.live != [] && |Concat(pending + [x])| < MAX_MESSAGE {
        PumpReadsTheSession(r.buf, pending + [x], accepts);
      } else if accepts > 0 {
        PumpReadsTheSession(r.buf, [], accepts - 1);
      }
      assert Gots([x] + q.read) == [Got(x)] + Gots(q.read);
      if q.end.ReadEnded? {
        Associative([Got(x)], Gots(q.read), [q.end.out]);
      }
    } else {
      assert Gots([]) == [];
    }
  }

  /** End to end: on a stream with fitting heads, however it is chunked, the instructions of all
      messages plus those still pending are the frames the simple framer cuts from guacd's bytes,
      without the internal ones. */
  lemma PumpForwardsTheStream(b: Buf, accepts: nat)
    requires b.Valid() && b.InSync() && !b.closed && AllHeadsFit(b.Ahead())
    requires Pump(b, [], accepts).end.ReadEnded?
    ensures var p := Pump(b, [], accepts);
            p.read == Frames(b.Ahead()) && Flat(p.batches) + p.pending == Forwarded(Frames(b.Ahead()))
  {
    hide Pump, ScanAt;
    var p := Pump(b, [], accepts);
    PumpReadsTheSession(b, [], accepts);
    PumpEnd(b, [], accepts);
    ChunkingIndependence(b);
    var last := ExpectedFrames(b.Ahead(), LeadCause(b.events));
    SameGots(p.read, p.end.out, Frames(b.Ahead()), last);
    PumpConserves(b, [], accepts);
    assert [] + Forwarded(p.read) == Forwarded(p.read);
  }

  lemma {:induction false} PumpEnd(b: Buf, pending: seq<seq<byte>>, accepts: nat)
    requires b.Valid()
    ensures Pump(b, pending, accepts).end.ReadEnded? ==> !Pump(b, pending, accepts).end.out.Got?
    decreases |b.Remaining()|
  {
    hide ReadSome, Pump;
    PumpStep(b, pending, accepts);
    var r := ReadSome(b);
    if r.out.Got? {
      var x := r.out.frame;
      if Internal(x) {
        PumpEnd(r.buf, pending, accepts);
      } else if r.buf.live != [] && |Concat(pending + [x])| < MAX_MESSAGE {
        PumpEnd(r.buf, pending + [x], accepts);
      } else if accepts > 0 {
        PumpEnd(r.buf, [], accepts - 1);
      }
    }
  }

  lemma SameGots(xs: seq<seq<byte>>, o: Outcome, ys: seq<seq<byte>>, p: Outcome)
    requires !o.Got? && !p.Got? && Gots(xs) + [o] == Gots(ys) + [p]
    ensures xs == ys
  {
    var s, t := Gots(xs) + [o], Gots(ys) + [p];
    assert |s| == |t|;
    forall k | 0 <= k < |xs| ensures xs[k] == ys[k] {
      assert Got(xs[k]) == s[k] == t[k] == Got(ys[k]);
    }
  }

  // ---------- When nothing is left behind ----------

  /** The last instruction meant for the client has to leave at once: there is none, or it is the last
      thing guacd sends, or it fills a message by itself. */
  predicate LastLeavesAtOnce(w: seq<byte>) {
    var fs := Frames(w);
    var out := Forwarded(fs);
    || out == []
    || (Concat(fs) == w && fs != [] && !Internal(fs[|fs| - 1]))
    || |out[|out| - 1]| >= MAX_MESSAGE
  }

  lemma FirstFrame(w: seq<byte>, n: nat)
    requires NextFrame(w) == Frame(n)
    ensures n <= |w| && IsFrame(w[..n]) && w == w[..n] + w[n..]
    ensures Frames(w) == [w[..n]] + Frames(w[n..])
    ensures Forwarded(Frames(w)) == (if Internal(w[..n]) then [] else [w[..n]]) + Forwarded(Frames(w[n..]))
    ensures Concat(Frames(w)) == w <==> Concat(Frames(w[n..])) == w[n..]
  {
    FrameIffGrammar(w, n);
    var x, fs := w[..n], Frames(w[n..]);
    FramesHead(w, n);
    hide *;
    ForwardedCons(x, fs);
    ConcatRest(w, n, fs);
    Split(w, n);
  }

  lemma Split(w: seq<byte>, n: nat)
    requires n <= |w|
    ensures w == w[..n] + w[n..]
  {
  }

  lemma ConcatRest(w: seq<byte>, n: nat, fs: seq<seq<byte>>)
    requires n <= |w|
    ensures Concat([w[..n]] + fs) == w <==> Concat(fs) == w[n..]
  {
    hide Concat;
    ConcatCons(w[..n], fs);
    Split(w, n);
    assert (w[..n] + Concat(fs))[n..] == Concat(fs);
  }

  lemma ConcatCons(x: seq<byte>, fs: seq<seq<byte>>)
    ensures Concat([x] + fs) == x + Concat(fs)
  {
    assert ([x] + fs)[1..] == fs;
  }

  lemma NoForwardedFrames(fs: seq<seq<byte>>)
    requires Forwarded(fs) == [] && fs != []
    ensures Internal(fs[|fs| - 1])
    decreases |fs|
  {
    if |fs| > 1 {
      NoForwardedFrames(fs[1..]);
    }
  }

  /** The condition carries over to what follows the first frame, unless that is the last to forward. */
  lemma LastLeavesTail(w: seq<byte>, n: nat)
    requires NextFrame(w) == Frame(n) && Forwarded(Frames(w[n..])) != []
    ensures LastLeavesAtOnce(w) <==> LastLeavesAtOnce(w[n..])
  {
    hide Frames, ScanAt, Internal;
    FirstFrame(w, n);
    var fs, gs := Frames(w), Frames(w[n..]);
    assert gs != [] && fs[|fs| - 1] == gs[|gs| - 1];
    assert Forwarded(fs)[|Forwarded(fs)| - 1] == Forwarded(gs)[|Forwarded(gs)| - 1];
  }

  /** If the first frame is the last to forward, then it is the last thing sent, or fills a message. */
  lemma LastLeavesHead(w: seq<byte>, n: nat)
    requires NextFrame(w) == Frame(n) && Forwarded(Frames(w[n..])) == [] && !Internal(w[..n])
    ensures LastLeavesAtOnce(w) <==> w[n..] == [] || n >= MAX_MESSAGE
  {
    hide ScanAt, Internal;
    FirstFrame(w, n);
    var fs, gs := Frames(w), Frames(w[n..]);
    assert Forwarded(fs) == [w[..n]] + [] == [w[..n]];
    if gs != [] {
      NoForwardedFrames(gs);
      assert fs[|fs| - 1] == gs[|gs| - 1];
    }
  }

  /** In every session with fitting heads that the socket does not cut short: what is pending stays if
      nothing more is to be forwarded, and is gone at the end if the last instruction leaves at once. */
  lemma {:induction false} PendingAtTheEnd(b: Buf, pending: seq<seq<byte>>, accepts: nat)
    requires b.Valid() && b.InSync() && !b.closed && AllHeadsFit(b.Ahead())
    requires accepts >= |Forwarded(Frames(b.Ahead()))|
    ensures var p := Pump(b, pending, accepts);
            var out := Forwarded(Frames(b.Ahead()));
            && p.end.ReadEnded?
            && (out == [] ==> p.pending == pending)
            && (out != [] && LastLeavesAtOnce(b.Ahead()) ==> p.pending == [])
    decreases |b.Remaining()|
  {
    hide ReadSome, Pump, ScanAt, AllHeadsFit, Forwarded, Internal, LastLeavesAtOnce;
    SessionStep(b);
    PumpStep(b, pending, accepts);
    var r := ReadSome(b);
    var w := b.Ahead();
    if r.out.Got? {
      var x, n := r.out.frame, NextFrame(w).end;
      FirstFrame(w, n);
      hide Frames;
      var out, rest := Forwarded(Frames(w)), Forwarded(Frames(w[n..]));
      if rest != [] {
        LastLeavesTail(w, n);
      }
      if Internal(x) {
        PendingAtTheEnd(r.buf, pending, accepts);
      } else {
        if rest == [] {
          LastLeavesHead(w, n);
        }
        ConcatSnoc(pending, x);
        if r.buf.live != [] && |Concat(pending + [x])| < MAX_MESSAGE {
          PendingAtTheEnd(r.buf, pending + [x], accepts);
        } else {
          PendingAtTheEnd(r.buf, [], accepts - 1);
        }
      }
    } else {
      NoneToForward(w);
    }
  }

  lemma NoneToForward(w: seq<byte>)
    requires !NextFrame(w).Frame?
    ensures Forwarded(Frames(w)) == []
  {
    NoFrames(w);
  }

  /** The chunking that leaves most behind: one frame a read, up to the last to forward, which comes
      together with what follows it. */
  function Worst(w: seq<byte>): seq<Event>
    decreases |w|
  {
    match NextFrame(w)
    case Frame(n) =>
      if Forwarded(Frames(w[n..])) == [] then [Data(w)] else [Data(w[..n])] + Worst(w[n..])
    case _ => [Data(w)]
  }

  lemma {:induction false} WorstIsAChunking(w: seq<byte>)
    ensures Lead(Worst(w)) == w
    decreases |w|
  {
    hide ScanAt, Forwarded, Frames;
    if Worst(w) == [Data(w)] {
      OneEvent(w);
      assert Init([Data(w)]).Ahead() == [] + Lead([Data(w)]) == Lead([Data(w)]);
    } else {
      var n := NextFrame(w).end;
      WorstIsAChunking(w[n..]);
      assert Worst(w)[1..] == Worst(w[n..]);
      assert w[..n] + w[n..] == w;
    }
  }

  /** An empty window meets a read that starts with a frame. */
  lemma OneArrival(b: Buf, bs: seq<byte>, rest: seq<Event>, x: seq<byte>)
    requires b.Valid() && b.live == [] && b.parseStart == 0 && !b.closed && b.events == [Data(bs)] + rest
    requires IsFrame(x) && |x| <= MAX_MESSAGE && x <= bs
    ensures var r := ReadSome(b);
            && r.out == Got(x) && r.buf.parseStart == 0 && !r.buf.closed
            && (bs == x ==> r.buf.live == [] && r.buf.events == rest)
            && (|x| < MAX_MESSAGE && |x| < |bs| ==> r.buf.live != [])
  {
    ScanStep([], 0, 0, 0);
    var c := Compact(b);
    var d := Fill(c);
    var n := if |bs| <= Room(c) then |bs| else Room(c);
    assert b.events[0] == Data(bs) && b.events[1..] == rest;
    assert d.live == [] + bs[..n] == x + bs[|x|..n];
    assert TakeTurn(b) == Again(d);
    hide ScanAt, Fill;
    TakeFrame(d, x, bs[|x|..n]);
  }

  lemma {:induction false} WorstLeavesSomething(b: Buf, w: seq<byte>, accepts: nat)
    requires b.Valid() && b.live == [] && b.parseStart == 0 && !b.closed && b.events == Worst(w)
    requires AllHeadsFit(w) && !LastLeavesAtOnce(w) && accepts >= |Forwarded(Frames(w))|
    ensures Pump(b, [], accepts).pending != []
    decreases |w|
  {
    hide ReadSome, Pump, ScanAt, AllHeadsFit, Forwarded, Internal, LastLeavesAtOnce;
    if !NextFrame(w).Frame? {
      NoneToForward(w);
      NothingToForward(w);
    } else {
      var n := NextFrame(w).end;
      var x := w[..n];
      FirstFrame(w, n);
      hide Frames;
      var rest := Forwarded(Frames(w[n..]));
      WorstIsAChunking(w);
      HeadOfFitting(w);
      PumpStep(b, [], accepts);
      var r := ReadSome(b);
      if rest != [] {
        OneArrival(b, x, Worst(w[n..]), x);
        LastLeavesTail(w, n);
        WorstLeavesSomething(r.buf, w[n..], if Internal(x) then accepts else accepts - 1);
      } else if Internal(x) {
        NothingToForward(w);
      } else {
        LastLeavesHead(w, n);
        assert Worst(w) == [Data(w)] + [];
        OneArrival(b, w, [], x);
        assert b.live[..0] == Heads([]);
        assert b.Ahead() == w;
        SessionStep(b);
        assert Concat([] + [x]) == x;
        PendingAtTheEnd(r.buf, [] + [x], accepts);
      }
    }
  }

  lemma NothingToForward(w: seq<byte>)
    requires Forwarded(Frames(w)) == []
    ensures LastLeavesAtOnce(w)
  {
  }

  lemma HeadOfFitting(w: seq<byte>)
    requires AllHeadsFit(w) && NextFrame(w).Frame?
    ensures NextFrame(w).end <= MAX_MESSAGE && AllHeadsFit(w[NextFrame(w).end..])
  {
    FrameFits(w);
  }

  /** Complete delivery, exactly: whatever guacd sends in instructions of fitting size, nothing is left
      behind under any chunking if and only if the last instruction for the client leaves at once. */
  lemma NothingLeftBehind(w: seq<byte>, accepts: nat)
    requires AllHeadsFit(w) && accepts >= |Forwarded(Frames(w))|
    ensures (forall events: seq<Event> :: Lead(events) == w ==> Pump(Init(events), [], accepts).pending == [])
            <==> LastLeavesAtOnce(w)
  {
    hide Pump, AllHeadsFit, LastLeavesAtOnce, Frames, Forwarded, Worst;
    if LastLeavesAtOnce(w) {
      forall events: seq<Event> | Lead(events) == w ensures Pump(Init(events), [], accepts).pending == [] {
        var b := Init(events);
        assert b.live[..0] == Heads([]) && b.Ahead() == w;
        PendingAtTheEnd(b, [], accepts);
      }
    } else {
      WorstIsAChunking(w);
      WorstLeavesSomething(Init(Worst(w)), w, accepts);
    }
  }

  /** Two streams that fail the condition.  With the first byte of a further instruction already
      buffered, a complete instruction is kept back, and it is dropped when the connection ends there. */
  lemma TailCanBeDropped(accepts: nat)
    ensures var x: seq<byte> := [49, DOT, 97, SEMICOLON];
            && IsFrame(x) && !Internal(x)
            && Pump(Init([Data(x + [49])]), [], accepts) == Pumped([x], [], [x], ReadEnded(ReadFailed(UpstreamTimeout)))
  {
    var y: seq<byte> := [49];
    ScanStep(y, 0, 0, 0);
    ScanStep(y, 0, 1, 1);
    DroppedTail(ShortInstruction(), y, accepts);
  }

  /** The same happens without any partial instruction, when the stream ends with an internal one. */
  lemma InternalTailDrops(accepts: nat)
    ensures var x: seq<byte> := [49, DOT, 97, SEMICOLON];
            && IsFrame(x) && !Internal(x) && IsFrame(END_MARKER)
            && Pump(Init([Data(x + END_MARKER)]), [], accepts)
               == Pumped([x, END_MARKER], [], [x], ReadEnded(ReadFailed(UpstreamTimeout)))
  {
    hide ReadSome, Pump, ScanAt, IsFrame;
    var x := ShortInstruction();
    var d := Buf(|x|, END_MARKER, 0, [], false);
    var e := Buf(|x| + 3, [], 0, [], false);
    EndMarkerIsInternal();
    FirstOfTwo(x, END_MARKER);
    PumpStep(Init([Data(x + END_MARKER)]), [], accepts);
    assert Concat([x]) == x && [] + [x] == [x];
    LastInWindow(d);
    PumpStep(d, [x], accepts);
    ScanStep([], 0, 0, 0);
    SilentTail(e);
    PumpStep(e, [x], accepts);
    assert [x] + [END_MARKER] == [x, END_MARKER] && [END_MARKER] + [] == [END_MARKER];
  }

  function ShortInstruction(): (x: seq<byte>)
    ensures x == [49, DOT, 97, SEMICOLON] && IsFrame(x) && !Internal(x)
  {
    var x: seq<byte> := [49, DOT, 97, SEMICOLON];
    var f := Field([49], [97]);
    assert Value([49]) == 1;
    RenderOne(f);
    assert AllWellFormed([f]) && x == Render([f]);
    assert x[0] != INTERNAL_PREFIX[0];
    x
  }

  lemma LastInWindow(d: Buf)
    requires d.Valid() && !d.closed && d.parseStart == 0 && IsFrame(d.live)
    ensures ReadSome(d) == Result(Got(d.live), d.(start := d.start + |d.live|, live := []))
  {
    assert d.live + [] == d.live;
    TakeFrame(d, d.live, []);
  }

  lemma FirstOfTwo(x: seq<byte>, y: seq<byte>)
    requires IsFrame(x) && |x + y| < MAX_MESSAGE
    ensures ReadSome(Init([Data(x + y)])) == Result(Got(x), Buf(|x|, y, 0, [], false))
  {
    var b := Init([Data(x + y)]);
    ScanStep([], 0, 0, 0);
    assert [] + (x + y) == x + y;
    assert Fill(b) == Buf(0, x + y, 0, [], false);
    assert TakeTurn(b) == Again(Fill(b));
    TakeFrame(Fill(b), x, y);
  }

  lemma DroppedTail(x: seq<byte>, y: seq<byte>, accepts: nat)
    requires IsFrame(x) && !Internal(x) && |x + y| < MAX_MESSAGE
    requires y != [] && Scan(y, 0) == NeedMore(0)
    ensures Pump(Init([Data(x + y)]), [], accepts) == Pumped([x], [], [x], ReadEnded(ReadFailed(UpstreamTimeout)))
  {
    hide ReadSome, Pump, ScanAt;
    var b := Init([Data(x + y)]);
    var d := Buf(|x|, y, 0, [], false);
    FirstOfTwo(x, y);
    PumpStep(b, [], accepts);
    assert Concat([x]) == x && [] + [x] == [x];
    SilentTail(d);
    PumpStep(d, [x], accepts);
  }

  lemma SilentTail(d: Buf)
    requires d.Valid() && !d.closed && d.events == [] && |d.live| < MAX_MESSAGE
    requires Scan(d.live, d.parseStart).NeedMore?
    ensures ReadSome(d).out == ReadFailed(UpstreamTimeout)
  {
  }
}
