/** HTTP long-poll reads on one tunnel: any number of read requests take turns on the tunnel's stream
    under a counted lock.  Every line between two blocking points of `doRead` and `writeSome` is a
    step; the connection may receive bytes, fail or be closed by somebody else at any time. */
module ReadHandover {
  import opened Wire
  import opened Framing
  import opened Instructions
  import opened Buffering
  import opened Delivery
  import L = CountedLocks

  /** Where a read request is.  `Blocked`: in `AcquireReader`; `Reading`: about to call `ReadSome`;
      `Writing`: about to write an instruction to the response; `Checking`: about to look for queued
      readers; `Ending`: about to write the end marker; `Failing`: about to deregister and close the
      tunnel; `Leaving`: about to run the deferred unlock; `Done`.  `failure`: how the read ended
      that made `doRead` return an error. */
  datatype Job =
    | Blocked
    | Reading
    | Writing(frame: seq<byte>)
    | Checking
    | Ending
    | Failing(out: Outcome)
    | Leaving(failure: Option<Outcome>)
    | Done(failure: Option<Outcome>)

  /** One write to a response body. */
  datatype Item = Piece(frame: seq<byte>) | Marker

  /** `order`: the requests in the order they got the lock; `sent`: all bytes guacd has sent. */
  datatype State = State(
    lock: L.Lock,
    job: map<L.Thread, Job>,
    body: map<L.Thread, seq<Item>>,
    order: seq<L.Thread>,
    buf: Buf,
    sent: seq<byte>)

  datatype Step =
    | Arrive(t: L.Thread)
    | Enter(t: L.Thread)
    | Read(t: L.Thread)
    | Write(t: L.Thread)
    | Check(t: L.Thread)
    | End(t: L.Thread)
    | Fail(t: L.Thread)
    | Uncount(t: L.Thread)
    | Release(t: L.Thread)
    | Deliver(events: seq<Event>)
    | Shut

  function Start(b: Buf): State {
    State(L.UNLOCKED, map[], map[], [], b, b.Remaining())
  }

  predicate Is(s: State, t: L.Thread, j: Job) {
    t in s.job && s.job[t] == j
  }

  predicate Enabled(s: State, step: Step) {
    match step
    case Arrive(t) => t !in s.job && L.Enabled(s.lock, L.Count(t))
    case Enter(t) => Is(s, t, Blocked) && L.Enabled(s.lock, L.Acquire(t))
    case Read(t) => Is(s, t, Reading) && s.buf.Valid() && ReadSome(s.buf).out != Stalled
    case Write(t) => t in s.job && s.job[t].Writing? && t in s.body
    case Check(t) => Is(s, t, Checking)
    case End(t) => Is(s, t, Ending) && t in s.body
    case Fail(t) => t in s.job && s.job[t].Failing? && t in s.body
    case Uncount(t) => t in s.job && s.job[t].Leaving? && L.Enabled(s.lock, L.Uncount(t))
    case Release(t) => L.Enabled(s.lock, L.Release(t))
    case Deliver(_) => true
    case Shut => true
  }

  function Apply(s: State, step: Step): State
    requires Enabled(s, step)
  {
    match step
    case Arrive(t) => s.(lock := L.Apply(s.lock, L.Count(t)), job := s.job[t := Blocked], body := s.body[t := []])
    case Enter(t) => s.(lock := L.Apply(s.lock, L.Acquire(t)), job := s.job[t := Reading], order := s.order + [t])
    case Read(t) =>
      var r := ReadSome(s.buf);
      s.(buf := r.buf, job := s.job[t := if r.out.Got? then Writing(r.out.frame) else Failing(r.out)])
    case Write(t) => s.(body := s.body[t := s.body[t] + [Piece(s.job[t].frame)]], job := s.job[t := Checking])
    case Check(t) => s.(job := s.job[t := if L.HasQueued(s.lock) then Ending else Reading])
    case End(t) => s.(body := s.body[t := s.body[t] + [Marker]], job := s.job[t := Leaving(None)])
    case Fail(t) =>
      var marked := s.job[t].out == ReadFailed(ConnectionClosed);
      s.(buf := s.buf.(closed := true),
         body := s.body[t := s.body[t] + if marked then [Marker] else []],
         job := s.job[t := Leaving(Some(s.job[t].out))])
    case Uncount(t) => s.(lock := L.Apply(s.lock, L.Uncount(t)), job := s.job[t := Done(s.job[t].failure)])
    case Release(t) => s.(lock := L.Apply(s.lock, L.Release(t)))
    case Deliver(events) => s.(buf := s.buf.(events := s.buf.events + events), sent := s.sent + Bytes(events))
    case Shut => s.(buf := s.buf.(closed := true))
  }

  predicate Legal(s: State, steps: seq<Step>)
    decreases |steps|
  {
    steps == [] || (Enabled(s, steps[0]) && Legal(Apply(s, steps[0]), steps[1..]))
  }

  function Exec(s: State, steps: seq<Step>): State
    requires Legal(s, steps)
    decreases |steps|
  {
    if steps == [] then s else Exec(Apply(s, steps[0]), steps[1..])
  }

  // ---------- What the responses hold ----------

  /** The instructions in a response body, without end markers. */
  function PiecesOf(items: seq<Item>): seq<seq<byte>> {
    if items == [] then []
    else
      var last := items[|items| - 1];
      PiecesOf(items[..|items| - 1]) + if last.Piece? then [last.frame] else []
  }

  /** The instructions of all responses in lock-acquisition order. */
  function Delivered(order: seq<L.Thread>, body: map<L.Thread, seq<Item>>): seq<seq<byte>> {
    if order == [] then []
    else
      var t := order[|order| - 1];
      Delivered(order[..|order| - 1], body) + if t in body then PiecesOf(body[t]) else []
  }

  /** The instruction that has been read but not yet written to a response. */
  function InFlight(s: State): seq<seq<byte>> {
    match s.lock.core
    case HeldBy(t) => if t in s.job && s.job[t].Writing? then [s.job[t].frame] else []
    case Free => []
  }

  // ---------- Invariants ----------

  /** A request that has the mutex and is still counted. */
  predicate Working(j: Job) {
    j.Reading? || j.Writing? || j.Checking? || j.Ending? || j.Failing? || j.Leaving?
  }

  /** The lock knows a request in the role its progress implies. */
  predicate Agree(l: L.Lock, job: map<L.Thread, Job>, t: L.Thread) {
    if t !in job then t !in l.phase
    else if job[t] == Blocked then L.At(l, t, L.Counted)
    else if Working(job[t]) then L.At(l, t, L.Holding)
    else t !in l.phase || L.At(l, t, L.Uncounted)
  }

  ghost predicate Linked(s: State) {
    && L.Inv(s.lock)
    && s.body.Keys == s.job.Keys
    && forall t :: Agree(s.lock, s.job, t)
  }

  /** `order` lists exactly the requests that got the lock, and the current holder is its last. */
  ghost predicate Ordered(s: State) {
    && (forall i, j :: 0 <= i < j < |s.order| ==> s.order[i] != s.order[j])
    && (forall t :: t in s.order <==> t in s.job && s.job[t] != Blocked)
    && (forall t :: t in s.job && Working(s.job[t]) ==> s.order != [] && s.order[|s.order| - 1] == t)
  }

  predicate OnlyPieces(items: seq<Item>) {
    forall k :: 0 <= k < |items| ==> items[k].Piece?
  }

  /** Whole instructions, then one end marker. */
  predicate Closed(items: seq<Item>) {
    items != [] && items[|items| - 1] == Marker && OnlyPieces(items[..|items| - 1])
  }

  predicate Shaped(j: Job, items: seq<Item>) {
    match j
    case Blocked => items == []
    case Reading => OnlyPieces(items)
    case Writing(_) => OnlyPieces(items)
    case Failing(_) => OnlyPieces(items)
    case Checking => OnlyPieces(items) && items != []
    case Ending => OnlyPieces(items) && items != []
    case Leaving(failure) => Ended(failure, items)
    case Done(failure) => Ended(failure, items)
  }

  /** A success has at least one instruction and the marker; a failure has the marker exactly when the
      network has closed the connection. */
  predicate Ended(failure: Option<Outcome>, items: seq<Item>) {
    match failure
    case None => Closed(items) && |items| > 1
    case Some(o) => if o == ReadFailed(ConnectionClosed) then Closed(items) else OnlyPieces(items)
  }

  ghost predicate WellShaped(s: State) {
    forall t :: t in s.job && t in s.body ==> Shaped(s.job[t], s.body[t])
  }

  /** Nothing lost, duplicated or reordered, byte by byte. */
  ghost predicate Conserved(s: State) {
    Concat(Delivered(s.order, s.body) + InFlight(s)) + s.buf.Remaining() == s.sent
  }

  /** Until the tunnel is closed the stream stays on element boundaries, except while the request that
      has just met a broken instruction is about to close it. */
  ghost predicate Sound(s: State) {
    && s.buf.Valid()
    && (s.buf.InSync() || s.buf.closed || exists t :: t in s.job && s.job[t].Failing?)
    && forall x :: x in Delivered(s.order, s.body) + InFlight(s) ==> IsFrame(x)
  }

  ghost predicate Inv(s: State) {
    Linked(s) && Ordered(s) && WellShaped(s) && Conserved(s) && Sound(s)
  }

  // ---------- Every step keeps the invariants ----------

  lemma StepKeepsLinked(s: State, step: Step)
    requires Linked(s) && Enabled(s, step)
    ensures Linked(Apply(s, step))
  {
    hide ReadSome, L.Inv, L.Wrap32;
    match step {
      case Arrive(t) => L.StepKeepsInv(s.lock, L.Count(t));
      case Enter(t) => L.StepKeepsInv(s.lock, L.Acquire(t));
      case Uncount(t) => L.StepKeepsInv(s.lock, L.Uncount(t));
      case Release(t) => L.StepKeepsInv(s.lock, L.Release(t));
      case _ =>
    }
    var s' := Apply(s, step);
    forall t ensures Agree(s'.lock, s'.job, t) {
      assert Agree(s.lock, s.job, t);
    }
  }

  /** Two requests never have the lock at the same time. */
  lemma OneWorker(s: State, t: L.Thread, u: L.Thread)
    requires Linked(s) && t in s.job && Working(s.job[t])
    ensures s.lock.core == L.HeldBy(t)
    ensures u in s.job && Working(s.job[u]) ==> u == t
  {
    assert Agree(s.lock, s.job, t) && Agree(s.lock, s.job, u);
    assert L.At(s.lock, t, L.Holding);
    assert u in s.job && Working(s.job[u]) ==> L.At(s.lock, u, L.Holding);
  }

  lemma NoWorker(s: State)
    requires Linked(s) && s.lock.core == L.Free
    ensures forall t :: t in s.job ==> !Working(s.job[t])
  {
    forall t | t in s.job ensures !Working(s.job[t]) {
      assert Agree(s.lock, s.job, t) && !L.At(s.lock, t, L.Holding);
    }
  }

  lemma StepKeepsOrdered(s: State, step: Step)
    requires Linked(s) && Ordered(s) && Enabled(s, step)
    ensures Ordered(Apply(s, step))
  {
    hide ReadSome, L.Inv, Agree;
    match step {
      case Enter(t) => NoWorker(s);
      case Deliver(_) =>
      case Shut =>
      case _ => OtherKeepOrdered(s, step);
    }
  }

  /** Only `Enter` changes the order; no other step makes a request work that did not. */
  lemma OtherKeepOrdered(s: State, step: Step)
    requires Linked(s) && Ordered(s) && Enabled(s, step) && !step.Enter?
    ensures Ordered(Apply(s, step))
  {
    JobsMove(s, step);
    hide *;
    OrderStays(s, Apply(s, step));
  }

  predicate Moves(s: State, s': State, t: L.Thread) {
    if t in s.job then
      && t in s'.job
      && (s'.job[t] == Blocked <==> s.job[t] == Blocked)
      && (Working(s'.job[t]) ==> Working(s.job[t]))
    else t in s'.job ==> s'.job[t] == Blocked
  }

  lemma JobsMove(s: State, step: Step)
    requires Linked(s) && Enabled(s, step) && !step.Enter?
    ensures Apply(s, step).order == s.order && forall t :: Moves(s, Apply(s, step), t)
  {
    hide ReadSome, L.Apply, L.Inv, L.HasQueued, Agree;
    assert step.Uncount? || step.Release? ==> Agree(s.lock, s.job, step.t);
  }

  lemma OrderStays(s: State, s': State)
    requires Ordered(s) && s'.order == s.order && forall t :: Moves(s, s', t)
    ensures Ordered(s')
  {
    hide Working;
    forall t ensures t in s'.order <==> t in s'.job && s'.job[t] != Blocked {
      assert Moves(s, s', t);
    }
    forall t | t in s'.job && Working(s'.job[t]) ensures s'.order != [] && s'.order[|s'.order| - 1] == t {
      assert Moves(s, s', t);
      NotBlocked(s'.job[t]);
    }
  }

  lemma NotBlocked(j: Job)
    requires Working(j)
    ensures j != Blocked
  {
  }

  lemma StepKeepsWellShaped(s: State, step: Step)
    requires Linked(s) && WellShaped(s) && Enabled(s, step)
    ensures WellShaped(Apply(s, step))
  {
    hide ReadSome, L.Inv, L.Apply, L.Enabled, Agree, PiecesOf, Delivered;
    match step
    case End(t) => assert (s.body[t] + [Marker])[..|s.body[t]|] == s.body[t];
    case Fail(t) => assert (s.body[t] + [Marker])[..|s.body[t]|] == s.body[t];
    case _ =>
  }

  lemma PiecesSnoc(items: seq<Item>, i: Item)
    ensures PiecesOf(items + [i]) == PiecesOf(items) + if i.Piece? then [i.frame] else []
  {
    assert (items + [i])[..|items|] == items;
  }

  /** Delivery looks only at the bodies of the requests in `order`. */
  lemma {:induction false} DeliveredFrame(
      order: seq<L.Thread>, body: map<L.Thread, seq<Item>>, body': map<L.Thread, seq<Item>>)
    requires forall t :: t in order ==> (t in body <==> t in body') && (t in body ==> body[t] == body'[t])
    ensures Delivered(order, body) == Delivered(order, body')
  {
    if order != [] {
      DeliveredFrame(order[..|order| - 1], body, body');
    }
  }

  /** A write to the body of the last request adds its instruction at the end. */
  lemma DeliveredWrite(order: seq<L.Thread>, body: map<L.Thread, seq<Item>>, t: L.Thread, i: Item)
    requires order != [] && order[|order| - 1] == t && t in body
    requires t !in order[..|order| - 1]
    ensures Delivered(order, body[t := body[t] + [i]]) == Delivered(order, body) + if i.Piece? then [i.frame] else []
  {
    DeliveredFrame(order[..|order| - 1], body, body[t := body[t] + [i]]);
    PiecesSnoc(body[t], i);
  }

  lemma DeliveredEnter(order: seq<L.Thread>, body: map<L.Thread, seq<Item>>, t: L.Thread)
    requires t in body && body[t] == []
    ensures Delivered(order + [t], body) == Delivered(order, body)
  {
    assert (order + [t])[..|order|] == order;
  }

  lemma {:induction false} BytesAppend(es: seq<Event>, fs: seq<Event>)
    ensures Bytes(es + fs) == Bytes(es) + Bytes(fs)
  {
    if es == [] {
      assert es + fs == fs;
    } else {
      assert (es + fs)[1..] == es[1..] + fs;
      BytesAppend(es[1..], fs);
      Associative(if es[0].Data? then es[0].bytes else [], Bytes(es[1..]), Bytes(fs));
    }
  }

  /** What the responses and the request at work have taken from the stream. */
  function Taken(s: State): seq<seq<byte>> {
    Delivered(s.order, s.body) + InFlight(s)
  }

  /** Writing to the response moves the instruction in flight into the body; markers add nothing. */
  lemma ResponseStepTakes(s: State, step: Step)
    requires Linked(s) && Ordered(s) && Enabled(s, step) && (step.Write? || step.End? || step.Fail?)
    ensures Taken(Apply(s, step)) == Taken(s)
  {
    hide ReadSome, PiecesOf, Ordered;
    var t := step.t;
    var s' := Apply(s, step);
    OneWorker(s, t, t);
    LastIsOnce(s, t);
    match step
    case Write(_) => DeliveredWrite(s.order, s.body, t, Piece(s.job[t].frame));
    case End(_) => DeliveredWrite(s.order, s.body, t, Marker);
    case Fail(_) =>
      if s.job[t].out == ReadFailed(ConnectionClosed) {
        DeliveredWrite(s.order, s.body, t, Marker);
      } else {
        assert s.body[t] + [] == s.body[t];
        DeliveredFrame(s.order, s.body, s'.body);
      }
  }

  lemma ArriveTakes(s: State, t: L.Thread)
    requires Ordered(s) && Enabled(s, Arrive(t))
    ensures Taken(Apply(s, Arrive(t))) == Taken(s)
  {
    hide ReadSome, PiecesOf, Working, Delivered;
    assert t !in s.order;
    hide Ordered;
    var s' := Apply(s, Arrive(t));
    assert s'.body == s.body[t := []] && s'.order == s.order && InFlight(s') == InFlight(s);
    hide Apply, Enabled, InFlight;
    DeliveredFrame(s.order, s.body, s'.body);
  }

  lemma EnterTakes(s: State, t: L.Thread)
    requires Linked(s) && WellShaped(s) && Enabled(s, Enter(t))
    ensures Taken(Apply(s, Enter(t))) == Taken(s)
  {
    hide ReadSome, PiecesOf, Working, Delivered, L.Inv, Agree;
    assert t in s.body && s.body[t] == [];
    hide Linked, WellShaped;
    var s' := Apply(s, Enter(t));
    assert s'.body == s.body && s'.order == s.order + [t] && InFlight(s') == [] == InFlight(s);
    hide Apply, Enabled, InFlight;
    DeliveredEnter(s.order, s.body, t);
  }

  lemma UnlockStepTakes(s: State, step: Step)
    requires Linked(s) && Enabled(s, step) && (step.Uncount? || step.Release?)
    ensures Taken(Apply(s, step)) == Taken(s)
  {
    var t := step.t;
    assert Agree(s.lock, s.job, t);
    hide ReadSome, L.Inv, Delivered;
    if step.Uncount? {
      OneWorker(s, t, t);
    }
  }

  /** Only reads take anything: one whole instruction each, from the head of what remains. */
  lemma StepTakes(s: State, step: Step)
    requires Linked(s) && Ordered(s) && WellShaped(s) && s.buf.Valid() && Enabled(s, step)
    ensures step.Read? && ReadSome(s.buf).out.Got? ==> Taken(Apply(s, step)) == Taken(s) + [ReadSome(s.buf).out.frame]
    ensures !(step.Read? && ReadSome(s.buf).out.Got?) ==> Taken(Apply(s, step)) == Taken(s)
  {
    hide ReadSome, PiecesOf, Ordered, WellShaped, Delivered;
    match step
    case Write(_) => ResponseStepTakes(s, step);
    case End(_) => ResponseStepTakes(s, step);
    case Fail(_) => ResponseStepTakes(s, step);
    case Read(t) => OneWorker(s, t, t);
    case Check(t) => OneWorker(s, t, t);
    case Deliver(_) =>
    case Shut =>
    case Uncount(_) => UnlockStepTakes(s, step);
    case Release(_) => UnlockStepTakes(s, step);
    case Arrive(t) => ArriveTakes(s, t);
    case Enter(t) => EnterTakes(s, t);
  }

  lemma LastIsOnce(s: State, t: L.Thread)
    requires Ordered(s) && t in s.job && Working(s.job[t])
    ensures s.order != [] && s.order[|s.order| - 1] == t && t !in s.order[..|s.order| - 1]
  {
  }

  lemma StepKeepsConserved(s: State, step: Step)
    requires Inv(s) && Enabled(s, step)
    ensures Conserved(Apply(s, step))
  {
    hide ReadSome, Linked, Ordered, WellShaped, Delivered, InFlight;
    StepTakes(s, step);
    ValidAfter(s.buf);
    if step.Read? && ReadSome(s.buf).out.Got? {
      ConcatSnoc(Taken(s), ReadSome(s.buf).out.frame);
      Associative(Concat(Taken(s)), ReadSome(s.buf).out.frame, ReadSome(s.buf).buf.Remaining());
    } else if step.Deliver? {
      BytesAppend(s.buf.events, step.events);
      Associative(s.buf.live, Bytes(s.buf.events), Bytes(step.events));
      Associative(Concat(Taken(s)), s.buf.Remaining(), Bytes(step.events));
    }
  }

  lemma ReadIsSound(s: State, t: L.Thread)
    requires Inv(s) && Enabled(s, Read(t))
    ensures var r := ReadSome(s.buf);
            && r.buf.Valid()
            && (r.out.Got? ==> IsFrame(r.out.frame) && r.buf.InSync())
            && (LosesSync(r.out) || r.buf.closed || r.buf.InSync())
            && !r.out.Stalled?
  {
    hide ReadLoop, ScanAt;
    ValidAfter(s.buf);
    if !s.buf.closed {
      forall u | u in s.job && s.job[u].Failing? ensures false {
        OneWorker(s, t, u);
      }
      ReadLoopFaithful(s.buf);
      if ReadSome(s.buf).out.Got? {
        FrameIffGrammar(s.buf.Ahead(), NextFrame(s.buf.Ahead()).end);
      }
    }
  }

  lemma StepKeepsSound(s: State, step: Step)
    requires Inv(s) && Enabled(s, step)
    ensures Sound(Apply(s, step))
  {
    hide ReadSome, Linked, Ordered, WellShaped, Conserved, Delivered, InFlight, IsFrame;
    var s' := Apply(s, step);
    StepTakes(s, step);
    if step.Read? {
      ReadIsSound(s, step.t);
      if ReadSome(s.buf).out.Got? {
        assert s'.buf.InSync();
      } else {
        assert step.t in s'.job && s'.job[step.t].Failing?;
      }
    } else if step.Fail? || step.Shut? {
      assert s'.buf.closed;
    } else {
      if t :| t in s.job && s.job[t].Failing? {
        assert t in s'.job && s'.job[t].Failing?;
      }
    }
  }

  lemma StepKeepsInv(s: State, step: Step)
    requires Inv(s) && Enabled(s, step)
    ensures Inv(Apply(s, step))
  {
    hide Linked, Ordered, WellShaped, Conserved, Sound, Apply, Enabled;
    StepKeepsLinked(s, step);
    StepKeepsOrdered(s, step);
    StepKeepsWellShaped(s, step);
    StepKeepsConserved(s, step);
    StepKeepsSound(s, step);
  }

  lemma {:induction false} RunKeepsInv(s: State, steps: seq<Step>)
    requires Inv(s) && Legal(s, steps)
    ensures Inv(Exec(s, steps))
    decreases |steps|
  {
    hide Inv, Enabled, Apply;
    if steps != [] {
      StepKeepsInv(s, steps[0]);
      RunKeepsInv(Apply(s, steps[0]), steps[1..]);
    }
  }

  // ---------- The theorems ----------

  lemma StartIsSound(b: Buf)
    requires b.Valid() && b.InSync() && !b.closed
    ensures Inv(Start(b))
  {
    assert L.Announced(L.UNLOCKED) == {};
    assert Taken(Start(b)) == [];
  }

  /** For any number of read requests interleaved on one tunnel in any way, with bytes arriving,
      failing reads and foreign closes at any time: the instructions in the response bodies, in
      lock-acquisition order and without end markers, and then the one in flight, are exactly the
      first instructions of guacd's stream.  Nothing is lost, duplicated or reordered, and each body
      is a contiguous block. */
  lemma ReadersShareTheStream(b: Buf, steps: seq<Step>)
    requires b.Valid() && b.InSync() && !b.closed && Legal(Start(b), steps)
    ensures var s := Exec(Start(b), steps);
            && Concat(Taken(s)) + s.buf.Remaining() == s.sent
            && Frames(s.sent) == Taken(s) + Frames(s.buf.Remaining())
  {
    hide Delivered, InFlight, Taken, Linked, Ordered, WellShaped, IsFrame, Enabled, Apply;
    StartIsSound(b);
    RunKeepsInv(Start(b), steps);
    TakenFramesHead(Exec(Start(b), steps));
  }

  lemma TakenFramesHead(s: State)
    requires Inv(s)
    ensures Concat(Taken(s)) + s.buf.Remaining() == s.sent
    ensures Frames(s.sent) == Taken(s) + Frames(s.buf.Remaining())
  {
    hide Delivered, InFlight, Linked, Ordered, WellShaped, IsFrame;
    FramesOfConcat(Taken(s), s.buf.Remaining());
  }

  /** In every reachable state each response body is whole instructions, closed by one end marker if
      the request succeeded, and then with at least one instruction; a failed request has a marker
      only behind its instructions. */
  lemma EveryBodyIsClosed(b: Buf, steps: seq<Step>, t: L.Thread)
    requires b.Valid() && b.InSync() && !b.closed && Legal(Start(b), steps)
    requires var s := Exec(Start(b), steps); t in s.job && s.job[t].Done?
    ensures var s := Exec(Start(b), steps);
            && t in s.body
            && (Closed(s.body[t]) || OnlyPieces(s.body[t]))
            && (s.job[t].failure.None? ==> Closed(s.body[t]) && |s.body[t]| > 1)
  {
    hide Enabled, Apply, Delivered, InFlight, IsFrame, L.Inv, Agree;
    StartIsSound(b);
    RunKeepsInv(Start(b), steps);
  }

  /** The request is about to fail because of a read that ended so, or has and the tunnel is closed. */
  predicate FailedBy(s: State, t: L.Thread, o: Outcome) {
    t in s.job &&
    (s.job[t] == Failing(o) || (s.buf.closed && (s.job[t] == Leaving(Some(o)) || s.job[t] == Done(Some(o)))))
  }

  lemma FailureStays(s: State, step: Step, t: L.Thread, o: Outcome)
    requires Enabled(s, step) && FailedBy(s, t, o)
    ensures FailedBy(Apply(s, step), t, o)
  {
    hide ReadSome, L.Apply, L.Enabled, L.HasQueued;
    if step.Read? {
      ValidAfter(s.buf);
    }
  }

  lemma {:induction false} FailureStaysThroughout(s: State, steps: seq<Step>, t: L.Thread, o: Outcome)
    requires Legal(s, steps) && FailedBy(s, t, o)
    ensures FailedBy(Exec(s, steps), t, o)
    decreases |steps|
  {
    hide Enabled, Apply, FailedBy;
    if steps != [] {
      FailureStays(s, steps[0], t, o);
      FailureStaysThroughout(Apply(s, steps[0]), steps[1..], t, o);
    }
  }

  /** How the read of a request ends, in terms of the bytes ahead and of what ends them. */
  lemma ClosedReadIff(s: State, t: L.Thread)
    requires Inv(s) && Enabled(s, Read(t))
    ensures ReadSome(s.buf).out == ReadFailed(ConnectionClosed) <==>
            !s.buf.closed && NextFrame(s.buf.Ahead()).NeedMore? && LeadCause(s.buf.events) == NetError
  {
    hide ReadLoop, ScanAt, LeadCause, Conserved, WellShaped, Ordered;
    if !s.buf.closed {
      forall u | u in s.job && s.job[u].Failing? ensures false {
        OneWorker(s, t, u);
      }
      ReadLoopFaithful(s.buf);
      if NextFrame(s.buf.Ahead()).NeedMore? {
        FailureKinds(s.buf);
      }
    }
  }

  /** Which failed responses get an end marker, in every run: after a read that returns no instruction,
      whatever happens afterwards, the body of that request ends with the marker if and only if no
      instruction could be decided from the bytes ahead and the network failed behind them other than
      by a timeout; every other failed body has none; and in any case the tunnel is closed. */
  lemma FailedBodyIsMarkedIff(b: Buf, before: seq<Step>, t: L.Thread, after: seq<Step>)
    requires b.Valid() && b.InSync() && !b.closed && Legal(Start(b), before)
    requires var s := Exec(Start(b), before);
             && Enabled(s, Read(t)) && !ReadSome(s.buf).out.Got?
             && Legal(Apply(s, Read(t)), after)
             && var e := Exec(Apply(s, Read(t)), after);
             && t in e.job && e.job[t].Done?
    ensures var s := Exec(Start(b), before);
            var e := Exec(Apply(s, Read(t)), after);
            && e.buf.closed && t in e.body && (Closed(e.body[t]) <==> !OnlyPieces(e.body[t]))
            && (Closed(e.body[t]) <==>
                  !s.buf.closed && NextFrame(s.buf.Ahead()).NeedMore? && LeadCause(s.buf.events) == NetError)
  {
    hide ReadSome, ScanAt, LeadCause, Delivered, InFlight, IsFrame, L.Inv, L.Apply, L.Enabled, Agree;
    StartIsSound(b);
    RunKeepsInv(Start(b), before);
    var s := Exec(Start(b), before);
    var o := ReadSome(s.buf).out;
    ClosedReadIff(s, t);
    StepKeepsInv(s, Read(t));
    assert FailedBy(Apply(s, Read(t)), t, o);
    hide Apply, Enabled;
    RunKeepsInv(Apply(s, Read(t)), after);
    FailureStaysThroughout(Apply(s, Read(t)), after, t, o);
  }

  /** The bytes of a response body. */
  function Written(items: seq<Item>): seq<byte> {
    if items == [] then []
    else
      var last := items[|items| - 1];
      Written(items[..|items| - 1]) + if last.Piece? then last.frame else END_MARKER
  }

  lemma {:induction false} WrittenPieces(items: seq<Item>)
    requires OnlyPieces(items)
    ensures Written(items) == Concat(PiecesOf(items))
    decreases |items|
  {
    if items != [] {
      WrittenPieces(items[..|items| - 1]);
      ConcatSnoc(PiecesOf(items[..|items| - 1]), items[|items| - 1].frame);
    }
  }

  lemma {:induction false} PieceIsDelivered(
      order: seq<L.Thread>, body: map<L.Thread, seq<Item>>, t: L.Thread, x: seq<byte>)
    requires t in order && t in body && x in PiecesOf(body[t])
    ensures x in Delivered(order, body)
    decreases |order|
  {
    hide PiecesOf;
    if t != order[|order| - 1] {
      PieceIsDelivered(order[..|order| - 1], body, t, x);
    }
  }

  /** Every body that was closed by an end marker, in every run: cut into frames it is exactly the
      instructions of that response and then the marker, which ends at the last byte; and a client
      that stops at the first internal instruction gets all of them if and only if guacd sent no
      internal instruction into this response. */
  lemma ClosedBodyDecodes(b: Buf, steps: seq<Step>, t: L.Thread)
    requires b.Valid() && b.InSync() && !b.closed && Legal(Start(b), steps)
    requires var s := Exec(Start(b), steps);
             t in s.job && s.job[t].Done? && t in s.body && Closed(s.body[t])
    ensures var items := Exec(Start(b), steps).body[t];
            && Frames(Written(items)) == PiecesOf(items) + [END_MARKER]
            && Concat(Frames(Written(items))) == Written(items)
            && (UntilInternal(Frames(Written(items))) == PiecesOf(items)
                <==> forall x :: x in PiecesOf(items) ==> !SaysInternal(x))
  {
    hide Enabled, Apply, L.Inv, Agree, IsFrame, Delivered, InFlight, Shaped, UntilInternal, SaysInternal, ScanAt;
    StartIsSound(b);
    RunKeepsInv(Start(b), steps);
    var s := Exec(Start(b), steps);
    forall x | x in PiecesOf(s.body[t]) ensures IsFrame(x) {
      PieceIsDelivered(s.order, s.body, t, x);
    }
    ClosedDecodes(s.body[t]);
  }

  lemma ClosedDecodes(items: seq<Item>)
    requires Closed(items) && forall x :: x in PiecesOf(items) ==> IsFrame(x)
    ensures Frames(Written(items)) == PiecesOf(items) + [END_MARKER]
    ensures Concat(Frames(Written(items))) == Written(items)
    ensures UntilInternal(Frames(Written(items))) == PiecesOf(items)
            <==> forall x :: x in PiecesOf(items) ==> !SaysInternal(x)
  {
    hide Encode, Frames, UntilInternal, SaysInternal, IsFrame;
    var ps := PiecesOf(items);
    assert ps == PiecesOf(items[..|items| - 1]);
    WrittenPieces(items[..|items| - 1]);
    EndMarkerIsInternal();
    EncodingSaysInternal(Ins([], []));
    MarkerFrames();
    FramesOfConcat(ps, END_MARKER);
    assert Frames(Written(items)) == ps + [END_MARKER];
    ConcatSnoc(ps, END_MARKER);
    UntilInternalExact(ps, END_MARKER);
  }

  lemma MarkerFrames()
    ensures Frames(END_MARKER) == [END_MARKER]
  {
    EndMarkerIsInternal();
    var e := Encode(Ins([], []));
    RoundTrip(Ins([], []), []);
    assert e + [] == e && e[..|e|] == e && e[|e|..] == [];
  }

  /** At most one request at a time uses the stream. */
  lemma OneReaderAtATime(b: Buf, steps: seq<Step>, t: L.Thread, u: L.Thread)
    requires b.Valid() && b.InSync() && !b.closed && Legal(Start(b), steps)
    requires var s := Exec(Start(b), steps);
             t in s.job && u in s.job && Working(s.job[t]) && Working(s.job[u])
    ensures t == u
  {
    hide Enabled, Apply, Delivered, InFlight, IsFrame, L.Inv, Agree;
    StartIsSound(b);
    RunKeepsInv(Start(b), steps);
    OneWorker(Exec(Start(b), steps), t, u);
  }

  // ---------- A body that hides data ----------

  lemma OneStep(s: State, step: Step, rest: seq<Step>, s': State) returns (steps: seq<Step>)
    requires Enabled(s, step) && Apply(s, step) == s' && Legal(s', rest)
    ensures Legal(s, steps) && Exec(s, steps) == Exec(s', rest)
  {
    steps := [step] + rest;
    assert steps[1..] == rest;
  }

  /** One request has the lock, with progress `j` and body `items`, and nobody waits. */
  function Alone(b: Buf, j: Job, items: seq<Item>, sent: seq<byte>): State {
    State(L.Lock(1, L.HeldBy(0), map[0 := L.Holding]), map[0 := j], map[0 := items], [0], b, sent)
  }

  /** The same with a second request that waits. */
  function Awaited(b: Buf, j: Job, items: seq<Item>, sent: seq<byte>): State {
    State(L.Lock(2, L.HeldBy(0), map[0 := L.Holding, 1 := L.Counted]),
          map[0 := j, 1 := Blocked], map[0 := items, 1 := []], [0], b, sent)
  }

  /** Reading, writing and checking one frame that is in the window. */
  lemma OneRound(b: Buf, x: seq<byte>, items: seq<Item>, sent: seq<byte>, rest: seq<Step>) returns (steps: seq<Step>)
    requires b.Valid() && !b.closed && b.parseStart == 0 && IsFrame(x) && x <= b.live
    requires Legal(Alone(Behind(b, x), Checking, items + [Piece(x)], sent), rest)
    ensures Legal(Alone(b, Reading, items, sent), steps)
    ensures Exec(Alone(b, Reading, items, sent), steps)
            == Exec(Alone(Behind(b, x), Checking, items + [Piece(x)], sent), rest)
  {
    assert b.live == x + b.live[|x|..];
    TakeFrame(b, x, b.live[|x|..]);
    assert ReadSome(b) == Result(Got(x), Behind(b, x));
    hide ReadSome, IsFrame;
    var c := Behind(b, x);
    steps := OneStep(Alone(c, Writing(x), items, sent), Write(0), rest, Alone(c, Checking, items + [Piece(x)], sent));
    steps := OneStep(Alone(b, Reading, items, sent), Read(0), steps, Alone(c, Writing(x), items, sent));
  }

  /** The window behind its first frame. */
  function Behind(b: Buf, x: seq<byte>): (c: Buf)
    requires b.Valid() && x <= b.live
    ensures c.Valid()
  {
    b.(start := b.start + |x|, live := b.live[|x|..], parseStart := 0)
  }

  /** A second request arrives and the first closes its body and leaves. */
  lemma Closing(b: Buf, items: seq<Item>, sent: seq<byte>) returns (steps: seq<Step>)
    requires b.Valid()
    ensures Legal(Alone(b, Checking, items, sent), steps)
    ensures var s := Exec(Alone(b, Checking, items, sent), steps);
            0 in s.job && s.job[0] == Done(None) && 0 in s.body && s.body[0] == items + [Marker]
  {
    hide ReadSome, Enabled, Apply;
    steps := Leave(b, items, sent);
    steps := SecondArrives(b, items, sent, steps);
  }

  lemma SecondArrives(b: Buf, items: seq<Item>, sent: seq<byte>, rest: seq<Step>) returns (steps: seq<Step>)
    requires b.Valid() && Legal(Awaited(b, Ending, items, sent), rest)
    ensures Legal(Alone(b, Checking, items, sent), steps)
    ensures Exec(Alone(b, Checking, items, sent), steps) == Exec(Awaited(b, Ending, items, sent), rest)
  {
    hide ReadSome;
    steps := OneStep(Awaited(b, Checking, items, sent), Check(0), rest, Awaited(b, Ending, items, sent));
    steps := OneStep(Alone(b, Checking, items, sent), Arrive(1), steps, Awaited(b, Checking, items, sent));
  }

  lemma Leave(b: Buf, items: seq<Item>, sent: seq<byte>) returns (steps: seq<Step>)
    requires b.Valid()
    ensures Legal(Awaited(b, Ending, items, sent), steps)
    ensures var s := Exec(Awaited(b, Ending, items, sent), steps);
            0 in s.job && s.job[0] == Done(None) && 0 in s.body && s.body[0] == items + [Marker]
  {
    hide ReadSome;
    var left := Awaited(b, Leaving(None), items + [Marker], sent);
    var done := State(L.Lock(1, L.HeldBy(0), map[0 := L.Uncounted, 1 := L.Counted]),
                      map[0 := Done(None), 1 := Blocked], map[0 := items + [Marker], 1 := []], [0], b, sent);
    steps := OneStep(left, Uncount(0), [], done);
    steps := OneStep(Awaited(b, Ending, items, sent), End(0), steps, left);
  }

  lemma Opening(b: Buf, rest: seq<Step>) returns (steps: seq<Step>)
    requires b.Valid() && Legal(Alone(b, Reading, [], b.Remaining()), rest)
    ensures Legal(Start(b), steps)
    ensures Exec(Start(b), steps) == Exec(Alone(b, Reading, [], b.Remaining()), rest)
  {
    hide ReadSome;
    var sent := b.Remaining();
    var blocked := State(L.Lock(1, L.Free, map[0 := L.Counted]), map[0 := Blocked], map[0 := []], [], b, sent);
    steps := OneStep(blocked, Enter(0), rest, Alone(b, Reading, [], sent));
    steps := OneStep(Start(b), Arrive(0), steps, blocked);
  }

  /** A body whose first instruction is internal: the run completes, and a client that stops at the
      first internal instruction gets nothing of it, although guacd sent a further instruction. */
  lemma InternalInstructionHidesTheRest(x: seq<byte>)
    requires IsFrame(x) && |x| <= MAX_MESSAGE
    ensures var b := Buf(0, END_MARKER + x, 0, [], false);
            exists steps ::
              && Legal(Start(b), steps)
              && HidesAll(Exec(Start(b), steps), [END_MARKER, x])
  {
    hide ReadSome, Enabled, Apply, IsFrame, ScanAt;
    var b := Buf(0, END_MARKER + x, 0, [], false);
    var sent := b.Remaining();
    var c := Behind(b, END_MARKER);
    assert c.live == x && x[|x|..] == [];
    MarkerIsInternalFrame();
    var p, q := [Piece(END_MARKER)], [Piece(END_MARKER), Piece(x)];
    assert [] + [Piece(END_MARKER)] == p && p + [Piece(x)] == q;
    var steps := Closing(Behind(c, x), q, sent);
    steps := OneRound(c, x, p, sent, steps);
    steps := GoOn(c, p, sent, steps);
    steps := OneRound(b, END_MARKER, [], sent, steps);
    steps := Opening(b, steps);
    HiddenBody(Exec(Start(b), steps), x);
  }

  lemma GoOn(b: Buf, items: seq<Item>, sent: seq<byte>, rest: seq<Step>) returns (steps: seq<Step>)
    requires b.Valid() && Legal(Alone(b, Reading, items, sent), rest)
    ensures Legal(Alone(b, Checking, items, sent), steps)
    ensures Exec(Alone(b, Checking, items, sent), steps) == Exec(Alone(b, Reading, items, sent), rest)
  {
    hide ReadSome;
    steps := OneStep(Alone(b, Checking, items, sent), Check(0), rest, Alone(b, Reading, items, sent));
  }

  /** Request 0 is done and successful with the given instructions in its body, of which a client that
      stops at the first internal one gets none. */
  predicate HidesAll(s: State, pieces: seq<seq<byte>>) {
    && 0 in s.job && s.job[0] == Done(None) && 0 in s.body
    && PiecesOf(s.body[0]) == pieces
    && UntilInternal(Frames(Written(s.body[0]))) == []
  }

  lemma MarkerIsInternalFrame()
    ensures IsFrame(END_MARKER) && SaysInternal(END_MARKER)
  {
    EndMarkerIsInternal();
    EncodingSaysInternal(Ins([], []));
  }

  lemma HiddenBody(s: State, x: seq<byte>)
    requires IsFrame(x) && 0 in s.job && s.job[0] == Done(None)
    requires 0 in s.body && s.body[0] == [Piece(END_MARKER), Piece(x), Marker]
    ensures HidesAll(s, [END_MARKER, x])
  {
    var items := s.body[0];
    assert items[..2] == [Piece(END_MARKER), Piece(x)] && items[..2][..1] == [Piece(END_MARKER)];
    assert items[..1][..0] == [] && [] + [END_MARKER] == [END_MARKER];
    assert PiecesOf([Piece(END_MARKER)]) == [END_MARKER];
    assert PiecesOf(items) == [END_MARKER, x];
    MarkerIsInternalFrame();
    ClosedDecodes(items);
  }

  // ---------- Handing over ----------

  /** How many instructions a request has delivered. */
  function Count(s: State, t: L.Thread): nat {
    if t in s.body then |PiecesOf(s.body[t])| else 0
  }

  /** How many more it may deliver once somebody is waiting. */
  function Credit(j: Job): nat {
    if j.Reading? || j.Writing? then 1 else 0
  }

  /** Another request is counted and waiting. */
  ghost predicate SomeoneWaits(s: State, t: L.Thread) {
    exists u :: u != t && Is(s, u, Blocked)
  }

  /** `t` has had the lock, and as long as it may still loop, somebody waits and is seen to wait. */
  ghost predicate Yielding(s: State, t: L.Thread) {
    && t in s.job && s.job[t] != Blocked
    && (s.job[t].Reading? || s.job[t].Writing? || s.job[t].Checking? ==> SomeoneWaits(s, t) && L.HasQueued(s.lock))
  }

  /** The counter never comes near its 32-bit limit. */
  ghost predicate FewThreads(s: State) {
    |L.Announced(s.lock)| < 0x8000_0000
  }

  lemma WaitingIsSeen(s: State, t: L.Thread)
    requires Linked(s) && FewThreads(s) && t in s.job && Working(s.job[t])
    ensures L.HasQueued(s.lock) <==> SomeoneWaits(s, t)
  {
    hide L.Inv;
    assert Agree(s.lock, s.job, t);
    L.HasQueuedIsExact(s.lock, t);
    if L.HasQueued(s.lock) {
      var u :| u != t && L.At(s.lock, u, L.Counted);
      assert Agree(s.lock, s.job, u);
      assert Is(s, u, Blocked);
    }
    if SomeoneWaits(s, t) {
      var u :| u != t && Is(s, u, Blocked);
      assert Agree(s.lock, s.job, u);
      assert L.At(s.lock, u, L.Counted);
    }
  }

  /** A waiting request stays waiting while another has the lock. */
  lemma WaitersStay(s: State, step: Step, t: L.Thread)
    requires Linked(s) && Enabled(s, step) && t in s.job && Working(s.job[t]) && SomeoneWaits(s, t)
    ensures SomeoneWaits(Apply(s, step), t)
  {
    hide ReadSome, L.Apply, L.Inv;
    OneWorker(s, t, t);
    var u :| u != t && Is(s, u, Blocked);
    assert Agree(s.lock, s.job, u);
    assert Is(Apply(s, step), u, Blocked);
  }

  lemma YieldingSpends(s: State, step: Step, t: L.Thread)
    requires Inv(s) && Enabled(s, step) && Yielding(s, t)
    ensures var s' := Apply(s, step);
            t in s'.job && Count(s', t) + Credit(s'.job[t]) <= Count(s, t) + Credit(s.job[t])
  {
    hide ReadSome, L.Apply, L.Inv, Delivered, PiecesOf, Conserved, Sound, Ordered, SomeoneWaits;
    assert Agree(s.lock, s.job, t);
    match step
    case Write(u) => PiecesSnoc(s.body[u], Piece(s.job[u].frame));
    case End(u) => PiecesSnoc(s.body[u], Marker);
    case Fail(u) =>
      PiecesSnoc(s.body[u], Marker);
      assert s.body[u] + [] == s.body[u];
    case _ =>
  }

  lemma YieldingStays(s: State, step: Step, t: L.Thread)
    requires Inv(s) && Enabled(s, step) && Yielding(s, t) && FewThreads(Apply(s, step))
    ensures Yielding(Apply(s, step), t)
  {
    hide ReadSome, L.Apply, L.Inv, L.HasQueued, Delivered, PiecesOf;
    hide Conserved, Sound, Ordered, WellShaped, SomeoneWaits, FewThreads;
    var s' := Apply(s, step);
    assert Agree(s.lock, s.job, t);
    StepKeepsLinked(s, step);
    if s'.job[t].Reading? || s'.job[t].Writing? || s'.job[t].Checking? {
      WaitersStay(s, step, t);
      WaitingIsSeen(s', t);
    }
  }

  ghost predicate FewThreadsThroughout(s: State, steps: seq<Step>)
    requires Legal(s, steps)
    decreases |steps|
  {
    FewThreads(s) && (steps == [] || FewThreadsThroughout(Apply(s, steps[0]), steps[1..]))
  }

  lemma {:induction false} YieldingRun(s: State, steps: seq<Step>, t: L.Thread)
    requires Inv(s) && Legal(s, steps) && FewThreadsThroughout(s, steps) && Yielding(s, t)
    ensures Count(Exec(s, steps), t) <= Count(s, t) + Credit(s.job[t])
    decreases |steps|
  {
    hide Inv, Enabled, Apply, Count, Yielding, FewThreads;
    if steps != [] {
      var s' := Apply(s, steps[0]);
      StepKeepsInv(s, steps[0]);
      YieldingSpends(s, steps[0], t);
      YieldingStays(s, steps[0], t);
      YieldingRun(s', steps[1..], t);
    }
  }

  /** Once another reader is counted, the request that has the lock delivers at most one more
      instruction, whatever happens afterwards; none if it is already past its last write. */
  lemma AtMostOneMore(b: Buf, before: seq<Step>, after: seq<Step>, t: L.Thread)
    requires b.Valid() && b.InSync() && !b.closed && Legal(Start(b), before)
    requires Legal(Exec(Start(b), before), after) && FewThreadsThroughout(Exec(Start(b), before), after)
    requires var s := Exec(Start(b), before); t in s.job && Working(s.job[t]) && SomeoneWaits(s, t)
    ensures var s := Exec(Start(b), before);
            && Count(Exec(s, after), t) <= Count(s, t) + 1
            && (!s.job[t].Reading? && !s.job[t].Writing? ==> Count(Exec(s, after), t) <= Count(s, t))
  {
    hide Enabled, Apply, Count, L.Inv, L.HasQueued, SomeoneWaits, Conserved, Sound, Ordered, WellShaped;
    StartIsSound(b);
    RunKeepsInv(Start(b), before);
    var s := Exec(Start(b), before);
    WaitingIsSeen(s, t);
    YieldingRun(s, after, t);
  }

  /** How many of its own steps a request is away from giving up the lock once somebody waits. */
  function Rank(j: Job): nat {
    match j
    case Blocked => 7
    case Reading => 6
    case Writing(_) => 5
    case Checking => 4
    case Ending => 3
    case Failing(_) => 3
    case Leaving(_) => 2
    case Done(_) => 1
  }

  /** A step that a request takes by itself once it has arrived. */
  predicate OfRequest(step: Step) {
    !step.Arrive? && !step.Deliver? && !step.Shut?
  }

  /** The step that a request with the lock takes next. */
  function NextStep(j: Job, t: L.Thread): Step
    requires Working(j)
  {
    match j
    case Reading => Read(t)
    case Writing(_) => Write(t)
    case Checking => Check(t)
    case Ending => End(t)
    case Failing(_) => Step.Fail(t)
    case Leaving(_) => Uncount(t)
  }

  lemma HolderCanMove(s: State, t: L.Thread)
    requires Inv(s) && t in s.job && Working(s.job[t]) && ReadSome(s.buf).out != Stalled
    ensures Enabled(s, NextStep(s.job[t], t))
  {
    hide ReadSome, L.Inv, Conserved, Ordered, WellShaped;
    assert Agree(s.lock, s.job, t);
  }

  /** No deadlock: as long as some request is not done and the read that comes next would not stall, a
      request can take a step: the one that has the lock, one that releases it, or one that waits. */
  lemma SomebodyCanMove(s: State, t: L.Thread)
    requires Inv(s) && t in s.job && !s.job[t].Done? && ReadSome(s.buf).out != Stalled
    ensures exists step :: OfRequest(step) && Enabled(s, step)
  {
    hide ReadSome, Conserved, Sound, Ordered, WellShaped;
    match s.lock.core {
      case Free =>
        NoWorker(s);
        assert Agree(s.lock, s.job, t);
        assert OfRequest(Enter(t)) && Enabled(s, Enter(t));
      case HeldBy(u) =>
        assert L.At(s.lock, u, L.Holding) || L.At(s.lock, u, L.Uncounted);
        assert Agree(s.lock, s.job, u);
        if L.At(s.lock, u, L.Uncounted) {
          assert OfRequest(Release(u)) && Enabled(s, Release(u));
        } else {
          HolderCanMove(s, u);
          assert OfRequest(NextStep(s.job[u], u));
        }
    }
  }

  /** While somebody waits, every step of the request that has the lock brings it closer to leaving: at
      most five more steps of its own and one to release the mutex, each of which it can take. */
  lemma HolderMakesProgress(s: State, step: Step, t: L.Thread)
    requires Inv(s) && FewThreads(s) && Enabled(s, step)
    requires t in s.job && Working(s.job[t]) && SomeoneWaits(s, t)
    requires step == NextStep(s.job[t], t)
    ensures t in Apply(s, step).job && Rank(Apply(s, step).job[t]) < Rank(s.job[t])
  {
    hide ReadSome, L.Apply, L.Inv, Conserved, Sound, Ordered, WellShaped, SomeoneWaits, L.HasQueued;
    WaitingIsSeen(s, t);
  }
}
