/** The sliding-window framer as a function on values: window, resume point and transport, but with
    the live bytes as a sequence.  `Streams.Stream` carries it out in place over one fixed array. */
module Buffering {
  import opened Wire
  import opened Framing

  const MAX_MESSAGE: nat := 8192
  const CAPACITY: nat := 3 * MAX_MESSAGE

  /** What the transport does at a read: deliver bytes (as many as fit the window) or fail. */
  datatype Event = Data(bytes: seq<byte>) | Fail(cause: Cause)

  /** How a read fails: a network timeout, another network error, or an error such as end of file. */
  datatype Cause = NetTimeout | NetError | NotNet

  datatype ErrKind = UpstreamTimeout | ConnectionClosed | ServerError

  function Classify(cause: Cause): ErrKind {
    match cause
    case NetTimeout => UpstreamTimeout
    case NetError => ConnectionClosed
    case NotNet => ServerError
  }

  datatype Reason = NonNumericLength(found: byte) | WrongTerminator

  /** How a call of `ReadSome` ends.  `DeadlineFailed`: setting the read deadline failed because the
      connection is closed.  `Stalled`: the read window is empty, so reads return zero bytes and the
      loop spins for ever. */
  datatype Outcome =
    | Got(frame: seq<byte>)
    | Rejected(reason: Reason)
    | ReadFailed(kind: ErrKind)
    | DeadlineFailed
    | Stalled

  /** `start`: where the live window begins in the backing array; `live`: its bytes;
      `parseStart`: where parsing resumes inside it; `events`: what the transport will do. */
  datatype Buf = Buf(start: nat, live: seq<byte>, parseStart: nat, events: seq<Event>, closed: bool) {
    predicate Valid() {
      start + |live| <= CAPACITY && parseStart <= |live|
    }

    /** Everything the transport still has to say, after what is already buffered. */
    function Remaining(): seq<byte> {
      live + Bytes(events)
    }

    /** What can be read before the next failure. */
    function Ahead(): seq<byte> {
      live + Lead(events)
    }

    /** `parseStart` stands right behind complete, comma-terminated fields. */
    ghost predicate InSync() {
      && parseStart <= |live|
      && exists fs: seq<Field> :: AllWellFormed(fs) && live[..parseStart] == Heads(fs)
    }
  }

  function Init(events: seq<Event>): (b: Buf)
    ensures b.Valid()
  {
    Buf(0, [], 0, events, false)
  }

  function Bytes(events: seq<Event>): seq<byte> {
    if events == [] then []
    else (if events[0].Data? then events[0].bytes else []) + Bytes(events[1..])
  }

  function Lead(events: seq<Event>): seq<byte> {
    if events == [] || events[0].Fail? then [] else events[0].bytes + Lead(events[1..])
  }

  /** The failure that ends the lead; a silent peer runs into the read deadline. */
  function LeadCause(events: seq<Event>): Cause {
    if events == [] then NetTimeout
    else if events[0].Fail? then events[0].cause
    else LeadCause(events[1..])
  }

  /** Take n bytes off a leading `Data` event. */
  function Advance(events: seq<Event>, n: nat): (rest: seq<Event>)
    requires events != [] && events[0].Data? && n <= |events[0].bytes|
    ensures events[0].bytes[..n] + Bytes(rest) == Bytes(events)
    ensures events[0].bytes[..n] + Lead(rest) == Lead(events)
    ensures LeadCause(rest) == LeadCause(events)
    ensures n == |events[0].bytes| || n > 0 ==> |Bytes(rest)| + |rest| < |Bytes(events)| + |events|
  {
    var bs := events[0].bytes;
    if n == |bs| then events[1..]
    else
      assert bs[..n] + bs[n..] == bs;
      Associative(bs[..n], bs[n..], Bytes(events[1..]));
      Associative(bs[..n], bs[n..], Lead(events[1..]));
      assert ([Data(bs[n..])] + events[1..])[1..] == events[1..];
      [Data(bs[n..])] + events[1..]
  }

  /** Move the live window to the front of the array when less than one message of room is left. */
  function Compact(b: Buf): Buf {
    if CAPACITY - b.start < MAX_MESSAGE then b.(start := 0) else b
  }

  function Room(b: Buf): nat
    requires b.Valid()
  {
    CAPACITY - b.start - |b.live|
  }

  /** One read that delivers bytes, up to the room in the window. */
  function Fill(b: Buf): (d: Buf)
    requires b.Valid() && Room(b) > 0 && b.events != [] && b.events[0].Data?
    ensures d.Valid() && b.live <= d.live
    ensures d == b.(live := d.live, events := d.events)
    ensures d.Remaining() == b.Remaining() && d.Ahead() == b.Ahead()
    ensures LeadCause(d.events) == LeadCause(b.events)
    ensures |Bytes(d.events)| + |d.events| < |Bytes(b.events)| + |b.events|
  {
    var bs := b.events[0].bytes;
    var n := if |bs| <= Room(b) then |bs| else Room(b);
    var rest := Advance(b.events, n);
    Associative(b.live, bs[..n], Bytes(rest));
    Associative(b.live, bs[..n], Lead(rest));
    b.(live := b.live + bs[..n], events := rest)
  }

  /** One turn of the loop of `ReadSome`: either the call ends with `out`, or it goes round again. */
  datatype Turn = Stop(out: Outcome, buf: Buf) | Again(buf: Buf)

  /** Read into a window in which no instruction is complete. */
  function Refill(c: Buf): (t: Turn)
    requires c.Valid()
    ensures t.buf.Valid() && (t.Stop? ==> !t.out.Got?)
    ensures t.Again? ==> |Bytes(t.buf.events)| + |t.buf.events| < |Bytes(c.events)| + |c.events|
  {
    if Room(c) == 0 then Stop(Stalled, c)
    else if c.events == [] then Stop(ReadFailed(UpstreamTimeout), c)
    else if c.events[0].Fail? then Stop(ReadFailed(Classify(c.events[0].cause)), c.(events := c.events[1..]))
    else Again(Fill(c))
  }

  function TakeTurn(b: Buf): (t: Turn)
    requires b.Valid()
    ensures t.buf.Valid()
    ensures t.Again? ==> |Bytes(t.buf.events)| + |t.buf.events| < |Bytes(b.events)| + |b.events|
  {
    match Scan(b.live, b.parseStart)
    case Frame(n) => Stop(Got(b.live[..n]), b.(start := b.start + n, live := b.live[n..], parseStart := 0))
    case BadLength(p, c) => Stop(Rejected(NonNumericLength(c)), b.(parseStart := p))
    case BadTerminator(p) => Stop(Rejected(WrongTerminator), b.(parseStart := p))
    case NeedMore(p) => Refill(Compact(b.(parseStart := p)))
  }

  datatype Result = Result(out: Outcome, buf: Buf)

  /** The loop of `ReadSome`: scan the window, otherwise compact, read and try again. */
  function ReadLoop(b: Buf): Result
    requires b.Valid()
    decreases |Bytes(b.events)| + |b.events|
  {
    match TakeTurn(b)
    case Stop(o, c) => Result(o, c)
    case Again(c) => ReadLoop(c)
  }

  function ReadSome(b: Buf): Result
    requires b.Valid()
  {
    if b.closed then Result(DeadlineFailed, b) else ReadLoop(b)
  }

  // ---------- Staying on element boundaries ----------

  /** The semantic content of `InSync`: scanning may resume at `parseStart` instead of starting over. */
  lemma InSyncScan(b: Buf, e: seq<byte>)
    requires b.InSync()
    ensures NextFrame(b.live + e) == Scan(b.live + e, b.parseStart)
  {
    var fs: seq<Field> :| AllWellFormed(fs) && b.live[..b.parseStart] == Heads(fs);
    assert (b.live + e)[0..|Heads(fs)|] == Heads(fs);
    ScanHeads(b.live + e, 0, fs);
  }

  /** Stopping where the scan saved its place keeps the buffer in sync. */
  lemma ResumeInSync(b: Buf, p: nat)
    requires b.InSync() && var v := Scan(b.live, b.parseStart);
             (v.NeedMore? && v.resume == p) || (v.BadLength? && v.resume == p)
    ensures b.(parseStart := p).InSync()
  {
    hide ScanAt, Render;
    var ps := b.parseStart;
    var fs: seq<Field> :| AllWellFormed(fs) && b.live[..ps] == Heads(fs);
    assert b.live[ps..ps] == [];
    var gs := ScanTrace(b.live, ps, ps);
    HeadsAppend(fs, gs);
    assert b.live[..p] == b.live[..ps] + b.live[ps..p];
    assert AllWellFormed(fs + gs);
  }

  lemma FillInSync(b: Buf)
    requires b.Valid() && b.InSync() && Room(b) > 0 && b.events != [] && b.events[0].Data?
    ensures Fill(b).InSync()
  {
    assert Fill(b).live[..b.parseStart] == b.live[..b.parseStart];
  }

  // ---------- Conservation ----------

  /** The bytes a call hands out. */
  function Handed(o: Outcome): seq<byte> {
    if o.Got? then o.frame else []
  }

  predicate LosesSync(o: Outcome) {
    o == Rejected(WrongTerminator)
  }

  lemma TurnConserves(b: Buf)
    requires b.Valid()
    ensures var t := TakeTurn(b);
            && t.buf.closed == b.closed
            && (if t.Stop? then Handed(t.out) else []) + t.buf.Remaining() == b.Remaining()
            && (t.Stop? && t.out.Got? ==> t.out.frame != [])
  {
    match Scan(b.live, b.parseStart)
    case Frame(n) =>
      assert b.live[..n] + b.live[n..] == b.live;
      Associative(b.live[..n], b.live[n..], Bytes(b.events));
    case _ =>
  }

  /** No call loses, repeats or reorders a byte: what it returns, then what is buffered, then what the
      transport still holds is what there was before; the window stays inside the array; and a
      returned frame is never empty. */
  lemma {:induction false} Conservation(b: Buf)
    requires b.Valid()
    ensures var r := ReadLoop(b);
            && r.buf.Valid() && r.buf.closed == b.closed
            && Handed(r.out) + r.buf.Remaining() == b.Remaining()
            && (r.out.Got? ==> r.out.frame != [])
    decreases |Bytes(b.events)| + |b.events|
  {
    TurnConserves(b);
    match TakeTurn(b)
    case Stop(o, c) =>
    case Again(c) => Conservation(c);
  }

  // ---------- Agreement with the whole-stream framer ----------

  /** The outcome the simple framer prescribes for a decided head. */
  function Prescribed(w: seq<byte>): Outcome
    requires NextFrame(w).Decided()
  {
    match NextFrame(w)
    case Frame(n) => Got(w[..n])
    case BadLength(_, c) => Rejected(NonNumericLength(c))
    case BadTerminator(_) => Rejected(WrongTerminator)
  }

  /** What one call may do, in terms of the simple framer on what lies ahead.  Nothing here mentions
      how the transport cuts the bytes. */
  ghost predicate Faithful(b: Buf, r: Result) {
    var w := b.Ahead();
    && (LosesSync(r.out) || r.buf.InSync())
    && match r.out
       case Got(f) => && NextFrame(w).Decided() && r.out == Prescribed(w) && f + r.buf.Ahead() == w
                      && LeadCause(r.buf.events) == LeadCause(b.events)
       case Rejected(_) => NextFrame(w).Decided() && r.out == Prescribed(w)
       case ReadFailed(k) => && NextFrame(w).NeedMore? && k == Classify(LeadCause(b.events))
                             && r.buf.live == w
       case Stalled => && MAX_MESSAGE <= |r.buf.live| && r.buf.live <= w
                       && NextFrame(r.buf.live).NeedMore? && r.buf.Ahead() == w
       case DeadlineFailed => false
  }

  lemma DecidedNow(b: Buf)
    requires b.Valid() && b.InSync() && Scan(b.live, b.parseStart).Decided()
    ensures Faithful(b, ReadLoop(b))
  {
    var w := b.Ahead();
    var v := Scan(b.live, b.parseStart);
    assert b.live + [] == b.live;
    InSyncScan(b, []);
    PrefixStability(b.live, Lead(b.events), 0);
    match v
    case Frame(n) =>
      assert w[..n] == b.live[..n];
      assert b.live[..n] + b.live[n..] == b.live;
      Associative(b.live[..n], b.live[n..], Lead(b.events));
      assert b.live[n..][..0] == Heads([]);
    case BadLength(p, c) => ResumeInSync(b, p);
    case BadTerminator(p) =>
  }

  /** A turn that goes round again changes nothing the simple framer can see. */
  lemma TurnFaithful(b: Buf)
    requires b.Valid() && b.InSync()
    ensures match TakeTurn(b)
            case Stop(o, c) => Faithful(b, Result(o, c))
            case Again(c) => c.InSync() && c.Ahead() == b.Ahead() && LeadCause(c.events) == LeadCause(b.events)
  {
    var v := Scan(b.live, b.parseStart);
    if v.Decided() {
      DecidedNow(b);
    } else {
      ResumeInSync(b, v.resume);
      var c := Compact(b.(parseStart := v.resume));
      assert c.live + [] == c.live;
      InSyncScan(b, []);
      if Refill(c).Again? {
        FillInSync(c);
      }
    }
  }

  /** Every call in sync is faithful, for every way the transport splits and delays the bytes. */
  lemma {:induction false} ReadLoopFaithful(b: Buf)
    requires b.Valid() && b.InSync()
    ensures Faithful(b, ReadLoop(b))
    decreases |Bytes(b.events)| + |b.events|
  {
    TurnFaithful(b);
    match TakeTurn(b)
    case Stop(o, c) =>
    case Again(c) => ReadLoopFaithful(c);
  }

  /** How a call fails when no verdict can be reached: with a timeout if and only if the network timed
      out (or the peer stays silent), with a closed connection if and only if the network failed
      otherwise, and with a server error if and only if the read ended without a network error, as at
      the end of file. */
  lemma FailureKinds(b: Buf)
    requires b.Valid() && b.InSync() && NextFrame(b.Ahead()).NeedMore? && ReadLoop(b).out != Stalled
    ensures var o := ReadLoop(b).out;
            && (o == ReadFailed(UpstreamTimeout) <==> LeadCause(b.events) == NetTimeout)
            && (o == ReadFailed(ConnectionClosed) <==> LeadCause(b.events) == NetError)
            && (o == ReadFailed(ServerError) <==> LeadCause(b.events) == NotNet)
  {
    hide ReadLoop, ScanAt, LeadCause;
    ReadLoopFaithful(b);
  }
}
