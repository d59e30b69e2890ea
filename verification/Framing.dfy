/** The framer on whole byte strings: what one pass of the parse loop in `Stream.ReadSome` decides
    about a buffer, and what it means in terms of the wire grammar. */
module Framing {
  import opened Wire

  /** Outcome of scanning a buffer.  `Frame(end)`: the first `end` bytes are an instruction.
      Otherwise `resume` is the `parseStart` the framer is left with. */
  datatype Verdict =
    | Frame(end: nat)
    | NeedMore(resume: nat)
    | BadLength(resume: nat, found: byte)
    | BadTerminator(resume: nat)
  {
    predicate Decided() { !NeedMore? }
    predicate Rejected() { BadLength? || BadTerminator? }
  }

  /** The parse loop: `p` is where the current element starts (`parseStart`), `i` the next byte to
      read and `acc` the length accumulated so far (`elementLength`). */
  function ScanAt(b: seq<byte>, p: nat, i: nat, acc: nat): (v: Verdict)
    requires p <= i <= |b|
    ensures v.Frame? ==> i < v.end <= |b|
    ensures v.NeedMore? || v.BadLength? ==> p <= v.resume <= |b|
    ensures v.BadTerminator? ==> i < v.resume <= |b|
    decreases |b| - i
  {
    if i == |b| then NeedMore(p)
    else if IsDigit(b[i]) then ScanAt(b, p, i + 1, acc * 10 + (b[i] - 48))
    else if b[i] != DOT then BadLength(p, b[i])
    else
      var e := i + 1 + acc;
      if e >= |b| then NeedMore(p)
      else if b[e] == SEMICOLON then Frame(e + 1)
      else if b[e] == COMMA then ScanAt(b, e + 1, e + 1, 0)
      else BadTerminator(e + 1)
  }

  /** One step of the scan, for proofs that hide its definition. */
  lemma ScanStep(b: seq<byte>, p: nat, i: nat, acc: nat)
    requires p <= i <= |b|
    ensures i == |b| ==> ScanAt(b, p, i, acc) == NeedMore(p)
    ensures i < |b| && IsDigit(b[i]) ==> ScanAt(b, p, i, acc) == ScanAt(b, p, i + 1, acc * 10 + (b[i] - 48))
    ensures i < |b| && !IsDigit(b[i]) && b[i] != DOT ==> ScanAt(b, p, i, acc) == BadLength(p, b[i])
    ensures i < |b| && b[i] == DOT ==>
              var e := i + 1 + acc;
              ScanAt(b, p, i, acc) ==
                if e >= |b| then NeedMore(p)
                else if b[e] == SEMICOLON then Frame(e + 1)
                else if b[e] == COMMA then ScanAt(b, e + 1, e + 1, 0)
                else BadTerminator(e + 1)
  {
  }

  /** Scanning that resumes at element boundary `p`. */
  function Scan(b: seq<byte>, p: nat): Verdict
    requires p <= |b|
  {
    ScanAt(b, p, p, 0)
  }

  /** The simple whole-stream framer. */
  function NextFrame(b: seq<byte>): Verdict {
    Scan(b, 0)
  }

  lemma NextDigit(b: seq<byte>, p: nat, i: nat)
    requires p <= i < |b| && AllDigits(b[p..i]) && IsDigit(b[i])
    ensures AllDigits(b[p..i + 1])
    ensures Value(b[p..i + 1]) == Value(b[p..i]) * 10 + (b[i] - 48)
  {
    assert b[p..i + 1] == b[p..i] + [b[i]];
    assert b[p..i + 1][..i - p] == b[p..i];
  }

  // ---------- Prefix stability ----------

  lemma {:induction false} ScanAtStable(b: seq<byte>, e: seq<byte>, p: nat, i: nat, acc: nat)
    requires p <= i <= |b|
    requires ScanAt(b, p, i, acc).Decided()
    ensures ScanAt(b + e, p, i, acc) == ScanAt(b, p, i, acc)
    decreases |b| - i
  {
    assert i < |b| && (b + e)[i] == b[i];
    if IsDigit(b[i]) {
      ScanAtStable(b, e, p, i + 1, acc * 10 + (b[i] - 48));
    } else if b[i] == DOT {
      var t := i + 1 + acc;
      assert t < |b| && (b + e)[t] == b[t];
      if b[t] == COMMA {
        ScanAtStable(b, e, t + 1, t + 1, 0);
      }
    }
  }

  /** A verdict reached on a prefix is the verdict on every extension: what arrives later, and in
      which pieces, cannot change it. */
  lemma PrefixStability(b: seq<byte>, e: seq<byte>, p: nat)
    requires p <= |b| && Scan(b, p).Decided()
    ensures Scan(b + e, p) == Scan(b, p)
  {
    ScanAtStable(b, e, p, p, 0);
  }

  lemma NoDigits(b: seq<byte>, p: nat)
    requires p <= |b|
    ensures AllDigits(b[p..p]) && Value(b[p..p]) == 0
  {
  }

  lemma {:induction false} ScanAtResume(b: seq<byte>, e: seq<byte>, p: nat, i: nat, acc: nat)
    requires p <= i <= |b| && AllDigits(b[p..i]) && acc == Value(b[p..i])
    requires ScanAt(b, p, i, acc).NeedMore?
    ensures ScanAt(b + e, p, i, acc) == Scan(b + e, ScanAt(b, p, i, acc).resume)
    decreases |b| - i
  {
    hide ScanAt, Scan, Value, AllDigits;
    var t := i + 1 + acc;
    ScanStep(b, p, i, acc);
    if i < |b| && IsDigit(b[i]) {
      NextDigit(b, p, i);
      LongerSteps(b, e, p, i, acc);
      ScanAtResume(b, e, p, i + 1, acc * 10 + (b[i] - 48));
    } else if i < |b| && b[i] == DOT && t < |b| && b[t] == COMMA {
      NoDigits(b, t + 1);
      LongerSteps(b, e, p, i, acc);
      ScanAtResume(b, e, t + 1, t + 1, 0);
    } else {
      RestartElement(b, e, p, i, acc);
    }
  }

  /** More bytes behind the buffer do not change a step inside it. */
  lemma LongerSteps(b: seq<byte>, e: seq<byte>, p: nat, i: nat, acc: nat)
    requires p <= i < |b|
    ensures IsDigit(b[i]) ==> ScanAt(b + e, p, i, acc) == ScanAt(b + e, p, i + 1, acc * 10 + (b[i] - 48))
    ensures b[i] == DOT && i + 1 + acc < |b| && b[i + 1 + acc] == COMMA ==>
              ScanAt(b + e, p, i, acc) == ScanAt(b + e, i + 2 + acc, i + 2 + acc, 0)
  {
    assert (b + e)[i] == b[i];
    ScanStep(b + e, p, i, acc);
    hide ScanAt;
    if i + 1 + acc < |b| {
      assert (b + e)[i + 1 + acc] == b[i + 1 + acc];
    }
  }

  lemma RestartElement(b: seq<byte>, e: seq<byte>, p: nat, i: nat, acc: nat)
    requires p <= i <= |b| && AllDigits(b[p..i]) && acc == Value(b[p..i])
    ensures ScanAt(b + e, p, i, acc) == Scan(b + e, p)
  {
    hide *;
    var d := b[p..i];
    assert (b + e)[p..i] == d;
    SkipDigits(b + e, p, i, d);
  }

  /** Resuming at the saved `parseStart` after more bytes arrive gives what rescanning from the old
      position would give, whatever the bytes are. */
  lemma ResumeIsRescan(b: seq<byte>, e: seq<byte>, p: nat)
    requires p <= |b| && Scan(b, p).NeedMore?
    ensures Scan(b + e, p) == Scan(b + e, Scan(b, p).resume)
  {
    assert b[p..p] == [];
    ScanAtResume(b, e, p, p, 0);
  }

  // ---------- The framer decides exactly the grammar ----------

  lemma {:induction false} SkipDigitsFrom(b: seq<byte>, p: nat, i: nat, k: nat)
    requires p <= i <= k <= |b| && AllDigits(b[p..i])
    requires forall j :: i <= j < k ==> IsDigit(b[j])
    ensures AllDigits(b[p..k])
    ensures ScanAt(b, p, i, Value(b[p..i])) == ScanAt(b, p, k, Value(b[p..k]))
    decreases k - i
  {
    if i < k {
      NextDigit(b, p, i);
      SkipDigitsFrom(b, p, i + 1, k);
    }
  }

  lemma SkipDigits(b: seq<byte>, p: nat, k: nat, d: seq<byte>)
    requires p <= k <= |b| && b[p..k] == d && AllDigits(d)
    ensures Scan(b, p) == ScanAt(b, p, k, Value(d))
  {
    assert b[p..p] == [];
    forall j | p <= j < k ensures IsDigit(b[j]) {
      assert b[j] == d[j - p];
    }
    SkipDigitsFrom(b, p, p, k);
  }

  /** One well-formed field is skipped in one go and its terminator decides. */
  lemma ScanField(b: seq<byte>, p: nat, f: Field)
    requires WellFormed(f)
    requires p + |FieldBytes(f)| < |b| && b[p..p + |FieldBytes(f)|] == FieldBytes(f)
    ensures var q := p + |FieldBytes(f)|;
            Scan(b, p) == if b[q] == SEMICOLON then Frame(q + 1)
                          else if b[q] == COMMA then Scan(b, q + 1)
                          else BadTerminator(q + 1)
  {
    var d := p + |f.digits|;
    var q := p + |FieldBytes(f)|;
    assert b[p..d] == b[p..q][..|f.digits|] == f.digits;
    assert b[d] == b[p..q][|f.digits|] == DOT;
    SkipDigits(b, p, d, f.digits);
  }

  lemma HeadsLayout(b: seq<byte>, p: nat, fs: seq<Field>, q: nat)
    requires fs != [] && p + |Heads(fs)| <= |b| && b[p..p + |Heads(fs)|] == Heads(fs)
    requires q == p + |FieldBytes(fs[0])|
    ensures q < |b| && b[p..q] == FieldBytes(fs[0]) && b[q] == COMMA
    ensures q + 1 + |Heads(fs[1..])| == p + |Heads(fs)|
    ensures b[q + 1..p + |Heads(fs)|] == Heads(fs[1..])
  {
    HeadsFirst(fs);
    hide *;
    CommaLayout(b, p, FieldBytes(fs[0]), Heads(fs[1..]));
  }

  lemma HeadsFirst(fs: seq<Field>)
    requires fs != []
    ensures Heads(fs) == FieldBytes(fs[0]) + [COMMA] + Heads(fs[1..])
  {
  }

  lemma CommaLayout(b: seq<byte>, p: nat, x: seq<byte>, y: seq<byte>)
    requires var h := x + [COMMA] + y; p + |h| <= |b| && b[p..p + |h|] == h
    ensures var q := p + |x|; b[p..q] == x && b[q] == COMMA && b[q + 1..q + 1 + |y|] == y
  {
    var h := x + [COMMA] + y;
    assert b[p..p + |x|] == h[..|x|] == x;
    assert b[p + |x|] == b[p..p + |h|][|x|] == h[|x|];
    assert b[p + |x| + 1..p + |h|] == h[|x| + 1..] == y;
  }

  lemma {:induction false} ScanHeads(b: seq<byte>, p: nat, fs: seq<Field>)
    requires AllWellFormed(fs)
    requires p + |Heads(fs)| <= |b| && b[p..p + |Heads(fs)|] == Heads(fs)
    ensures Scan(b, p) == Scan(b, p + |Heads(fs)|)
    decreases |fs|
  {
    hide ScanAt, Scan, Heads, FieldBytes, WellFormed, AllWellFormed, Value;
    FirstWellFormed(fs);
    if fs != [] {
      var q := p + |FieldBytes(fs[0])|;
      HeadsLayout(b, p, fs, q);
      ScanField(b, p, fs[0]);
      ScanHeads(b, q + 1, fs[1..]);
    }
  }

  lemma FirstWellFormed(fs: seq<Field>)
    requires AllWellFormed(fs)
    ensures fs == [] ==> Heads(fs) == []
    ensures fs != [] ==> WellFormed(fs[0]) && AllWellFormed(fs[1..])
  {
  }

  /** Completeness: every instruction of the grammar is framed, whatever follows it. */
  lemma ScanRender(fs: seq<Field>, rest: seq<byte>)
    requires fs != [] && AllWellFormed(fs)
    ensures NextFrame(Render(fs) + rest) == Frame(|Render(fs)|)
  {
    var b := Render(fs) + rest;
    var init := fs[..|fs| - 1];
    var last := fs[|fs| - 1];
    var h := |Heads(init)|;
    assert b[0..h] == Heads(init);
    ScanHeads(b, 0, init);
    assert b[h..h + |FieldBytes(last)|] == FieldBytes(last);
    ScanField(b, h, last);
  }

  /** `fs` are the fields that a scan from `p` with verdict `v` has stepped over. */
  predicate Traced(b: seq<byte>, p: nat, v: Verdict, fs: seq<Field>)
    requires p <= |b|
  {
    && AllWellFormed(fs)
    && match v
       case Frame(n) => fs != [] && p <= n <= |b| && b[p..n] == Render(fs)
       case NeedMore(r) => p <= r <= |b| && b[p..r] == Heads(fs)
       case BadLength(r, _) => p <= r <= |b| && b[p..r] == Heads(fs)
       case BadTerminator(r) => true
  }

  lemma SplitAtComma(b: seq<byte>, p: nat, e: nat, r: nat)
    requires p <= e < r <= |b| && b[e] == COMMA
    ensures b[p..r] == b[p..e] + [COMMA] + b[e + 1..r]
  {
  }

  lemma TracedCons(b: seq<byte>, p: nat, e: nat, f: Field, v: Verdict, fs: seq<Field>)
    requires p <= e < |b| && WellFormed(f) && b[p..e] == FieldBytes(f) && b[e] == COMMA
    requires Traced(b, e + 1, v, fs)
    ensures Traced(b, p, v, [f] + fs)
  {
    HeadsCons(f, fs);
    match v
    case Frame(n) =>
      RenderCons(f, fs);
      SplitAtComma(b, p, e, n);
    case NeedMore(r) => SplitAtComma(b, p, e, r);
    case BadLength(r, _) => SplitAtComma(b, p, e, r);
    case BadTerminator(r) =>
  }

  lemma TracedLast(b: seq<byte>, p: nat, e: nat, f: Field)
    requires p <= e < |b| && WellFormed(f) && b[p..e] == FieldBytes(f) && b[e] == SEMICOLON
    ensures Traced(b, p, Frame(e + 1), [f])
  {
    RenderOne(f);
    assert b[p..e + 1] == b[p..e] + [b[e]];
  }

  lemma FieldAt(b: seq<byte>, p: nat, i: nat) returns (f: Field)
    requires p <= i < |b| && AllDigits(b[p..i]) && b[i] == DOT
    requires i + 1 + Value(b[p..i]) < |b|
    ensures WellFormed(f) && b[p..i + 1 + Value(b[p..i])] == FieldBytes(f)
  {
    f := Field(b[p..i], b[i + 1..i + 1 + Value(b[p..i])]);
  }

  lemma TracedNothing(b: seq<byte>, p: nat, v: Verdict)
    requires p <= |b|
    requires v == NeedMore(p) || (v.BadLength? && v.resume == p) || v.BadTerminator?
    ensures Traced(b, p, v, [])
  {
    assert b[p..p] == [];
  }

  /** Soundness: the fields the framer has stepped over, read back from the buffer. */
  lemma {:induction false} ScanTrace(b: seq<byte>, p: nat, i: nat) returns (fs: seq<Field>)
    requires p <= i <= |b| && AllDigits(b[p..i])
    ensures Traced(b, p, ScanAt(b, p, i, Value(b[p..i])), fs)
    decreases |b| - i
  {
    hide *;
    var n := Value(b[p..i]);
    var e := i + 1 + n;
    ScanStep(b, p, i, n);
    if i < |b| && IsDigit(b[i]) {
      NextDigit(b, p, i);
      fs := ScanTrace(b, p, i + 1);
    } else if i < |b| && b[i] == DOT && e < |b| && b[e] == SEMICOLON {
      var f := FieldAt(b, p, i);
      fs := [f];
      TracedLast(b, p, e, f);
    } else if i < |b| && b[i] == DOT && e < |b| && b[e] == COMMA {
      var f := FieldAt(b, p, i);
      NoDigits(b, e + 1);
      var gs := ScanTrace(b, e + 1, e + 1);
      fs := [f] + gs;
      TracedCons(b, p, e, f, ScanAt(b, e + 1, e + 1, 0), gs);
    } else {
      fs := [];
      TracedNothing(b, p, ScanAt(b, p, i, n));
    }
  }

  /** `NextFrame` returns a frame of n bytes exactly when the first n bytes are an instruction of the
      grammar, whatever the rest of the stream holds. */
  lemma FrameIffGrammar(b: seq<byte>, n: nat)
    ensures NextFrame(b) == Frame(n) <==> n <= |b| && IsFrame(b[..n])
  {
    if NextFrame(b) == Frame(n) {
      assert b[0..0] == [];
      var fs := ScanTrace(b, 0, 0);
      assert b[0..n] == b[..n];
    }
    if n <= |b| && IsFrame(b[..n]) {
      var fs :| fs != [] && AllWellFormed(fs) && b[..n] == Render(fs);
      ScanRender(fs, b[n..]);
      assert b == Render(fs) + b[n..];
    }
  }

  // ---------- The two ways to be rejected ----------

  /** Some fields, then digits, then a byte that no length can contain. */
  ghost predicate SpoiltLength(b: seq<byte>, c: byte) {
    !IsDigit(c) && c != DOT &&
    exists fs: seq<Field>, d: seq<byte> :: AllWellFormed(fs) && AllDigits(d) && Heads(fs) + d + [c] <= b
  }

  ghost predicate Unclosed(fs: seq<Field>, f: Field, c: byte, b: seq<byte>) {
    AllWellFormed(fs) && WellFormed(f) && c != COMMA && c != SEMICOLON && Heads(fs) + FieldBytes(f) + [c] <= b
  }

  /** Some fields, the last of which is followed by something else than a comma or a semicolon. */
  ghost predicate SpoiltTerminator(b: seq<byte>) {
    exists fs: seq<Field>, f: Field, c: byte :: Unclosed(fs, f, c, b)
  }

  lemma HeadsPrefix(f: Field, fs: seq<Field>, x: seq<byte>, b: seq<byte>, p: nat, e: nat)
    requires p <= e < |b| && b[p..e] == FieldBytes(f) && b[e] == COMMA && Heads(fs) + x <= b[e + 1..]
    ensures Heads([f] + fs) + x <= b[p..]
  {
    HeadsCons(f, fs);
    hide *;
    assert b[p..] == b[p..e] + [b[e]] + b[e + 1..];
    assert FieldBytes(f) + [COMMA] + Heads(fs) + x == FieldBytes(f) + [COMMA] + (Heads(fs) + x);
  }

  lemma LengthSpoiltHere(b: seq<byte>, p: nat, i: nat)
    requires p <= i < |b| && AllDigits(b[p..i]) && !IsDigit(b[i]) && b[i] != DOT
    ensures SpoiltLength(b[p..], b[i])
  {
    hide AllDigits;
    var x := Heads([]) + b[p..i] + [b[i]];
    assert x == b[p..][..|x|];
    assert AllWellFormed([]);
  }

  lemma TerminatorSpoiltHere(b: seq<byte>, p: nat, e: nat, f: Field)
    requires p <= e < |b| && WellFormed(f) && b[p..e] == FieldBytes(f) && b[e] != COMMA && b[e] != SEMICOLON
    ensures SpoiltTerminator(b[p..])
  {
    hide FieldBytes, WellFormed;
    var x := Heads([]) + FieldBytes(f) + [b[e]];
    assert x == b[p..][..|x|];
    assert Unclosed([], f, b[e], b[p..]);
  }

  lemma {:induction false} RejectionShows(b: seq<byte>, p: nat, i: nat)
    requires p <= i <= |b| && AllDigits(b[p..i])
    ensures var v := ScanAt(b, p, i, Value(b[p..i]));
            && (v.BadLength? ==> SpoiltLength(b[p..], v.found))
            && (v.BadTerminator? ==> SpoiltTerminator(b[p..]))
    decreases |b| - i
  {
    hide ScanAt, WellFormed, FieldBytes, Value, AllDigits;
    var n := Value(b[p..i]);
    var e := i + 1 + n;
    ScanStep(b, p, i, n);
    if i < |b| && IsDigit(b[i]) {
      NextDigit(b, p, i);
      RejectionShows(b, p, i + 1);
    } else if i < |b| && b[i] != DOT {
      LengthSpoiltHere(b, p, i);
    } else if i < |b| && e < |b| {
      var f := FieldAt(b, p, i);
      if b[e] == COMMA {
        NoDigits(b, e + 1);
        RejectionShows(b, e + 1, e + 1);
        RejectionBehind(b, p, e, f, ScanAt(b, e + 1, e + 1, 0));
      } else if b[e] != SEMICOLON {
        TerminatorSpoiltHere(b, p, e, f);
      }
    }
  }

  lemma RejectionBehind(b: seq<byte>, p: nat, e: nat, f: Field, v: Verdict)
    requires p <= e < |b| && WellFormed(f) && b[p..e] == FieldBytes(f) && b[e] == COMMA
    ensures v.BadLength? && SpoiltLength(b[e + 1..], v.found) ==> SpoiltLength(b[p..], v.found)
    ensures SpoiltTerminator(b[e + 1..]) ==> SpoiltTerminator(b[p..])
  {
    hide WellFormed, FieldBytes, Heads, AllDigits;
    if v.BadLength? && SpoiltLength(b[e + 1..], v.found) {
      var fs: seq<Field>, d: seq<byte> :| AllWellFormed(fs) && AllDigits(d) && Heads(fs) + d + [v.found] <= b[e + 1..];
      assert Heads(fs) + d + [v.found] == Heads(fs) + (d + [v.found]);
      HeadsPrefix(f, fs, d + [v.found], b, p, e);
      assert Heads([f] + fs) + (d + [v.found]) == Heads([f] + fs) + d + [v.found];
      assert AllWellFormed([f] + fs);
    }
    if SpoiltTerminator(b[e + 1..]) {
      var fs: seq<Field>, g: Field, c: byte :| Unclosed(fs, g, c, b[e + 1..]);
      assert Heads(fs) + FieldBytes(g) + [c] == Heads(fs) + (FieldBytes(g) + [c]);
      HeadsPrefix(f, fs, FieldBytes(g) + [c], b, p, e);
      assert Heads([f] + fs) + (FieldBytes(g) + [c]) == Heads([f] + fs) + FieldBytes(g) + [c];
      assert Unclosed([f] + fs, g, c, b[p..]);
    }
  }

  lemma SpoiltLengthRejects(b: seq<byte>, fs: seq<Field>, d: seq<byte>, c: byte)
    requires AllWellFormed(fs) && AllDigits(d) && !IsDigit(c) && c != DOT && Heads(fs) + d + [c] <= b
    ensures NextFrame(b).BadLength? && NextFrame(b).found == c
  {
    var h, k := |Heads(fs)|, |Heads(fs)| + |d|;
    PrefixParts(b, Heads(fs), d, c);
    hide ScanAt, Heads, Value, AllDigits;
    ScanHeads(b, 0, fs);
    SkipDigits(b, h, k, d);
    ScanStep(b, h, k, Value(d));
  }

  lemma PrefixParts(b: seq<byte>, x: seq<byte>, y: seq<byte>, c: byte)
    requires x + y + [c] <= b
    ensures b[0..|x|] == x && b[|x|..|x| + |y|] == y && b[|x| + |y|] == c
  {
    var z := x + y + [c];
    assert b[..|z|] == z;
    assert b[0..|x|] == b[..|z|][..|x|] == x;
    assert b[|x|..|x| + |y|] == b[..|z|][|x|..|x| + |y|] == y;
    assert b[|x| + |y|] == b[..|z|][|x| + |y|] == c;
  }

  lemma SpoiltTerminatorRejects(b: seq<byte>, fs: seq<Field>, f: Field, c: byte)
    requires Unclosed(fs, f, c, b)
    ensures NextFrame(b).BadTerminator?
  {
    var h, k := |Heads(fs)|, |Heads(fs)| + |FieldBytes(f)|;
    PrefixParts(b, Heads(fs), FieldBytes(f), c);
    hide ScanAt, Heads, FieldBytes, WellFormed;
    ScanHeads(b, 0, fs);
    ScanField(b, h, f);
  }

  /** Why a stream is rejected: for a byte in a length if and only if some fields are followed by digits
      and that byte, for a terminator if and only if some field is followed by something else than a
      comma or a semicolon. */
  lemma RejectionMeans(b: seq<byte>, c: byte)
    ensures NextFrame(b).BadLength? && NextFrame(b).found == c <==> SpoiltLength(b, c)
    ensures NextFrame(b).BadTerminator? <==> SpoiltTerminator(b)
  {
    NoDigits(b, 0);
    RejectionShows(b, 0, 0);
    assert b[0..] == b;
    hide ScanAt, Heads, FieldBytes, WellFormed, AllDigits;
    if SpoiltLength(b, c) {
      var fs: seq<Field>, d: seq<byte> :| AllWellFormed(fs) && AllDigits(d) && Heads(fs) + d + [c] <= b;
      SpoiltLengthRejects(b, fs, d, c);
    }
    if SpoiltTerminator(b) {
      var fs: seq<Field>, f: Field, e: byte :| Unclosed(fs, f, e, b);
      SpoiltTerminatorRejects(b, fs, f, e);
    }
  }

  /** No instruction is a proper prefix of another: the encoding is prefix-free. */
  lemma PrefixFree(x: seq<byte>, e: seq<byte>)
    requires IsFrame(x) && IsFrame(x + e)
    ensures e == []
  {
    FrameIffGrammar(x + e, |x|);
    FrameIffGrammar(x + e, |x + e|);
    assert (x + e)[..|x|] == x && (x + e)[..|x + e|] == x + e;
  }

  /** A proper prefix of an instruction is never decided. */
  lemma ProperPrefixUndecided(x: seq<byte>, n: nat)
    requires IsFrame(x) && n < |x|
    ensures NextFrame(x[..n]).NeedMore?
  {
    assert x == x[..n] + x[n..] && x[..|x|] == x;
    FrameIffGrammar(x, |x|);
    if NextFrame(x[..n]).Decided() {
      PrefixStability(x[..n], x[n..], 0);
    }
  }

  /** The framer needs more bytes exactly when some continuation completes an instruction; so it
      rejects a stream at the earliest byte at which no continuation can save it. */
  lemma RejectsAtTheEarliestByte(b: seq<byte>)
    ensures !NextFrame(b).Frame? ==>
              (NextFrame(b).Rejected() <==> !exists e: seq<byte> :: NextFrame(b + e).Frame?)
  {
    if NextFrame(b).Rejected() {
      forall e: seq<byte> ensures !NextFrame(b + e).Frame? {
        PrefixStability(b, e, 0);
      }
    } else if NextFrame(b).NeedMore? {
      var e := Completion(b, 0, 0, 0);
      assert NextFrame(b + e).Frame?;
    }
  }

  /** One element followed by a terminator. */
  lemma ScanDot(b: seq<byte>, p: nat, i: nat, acc: nat)
    requires p <= i && i + 1 + acc < |b| && b[i] == DOT
    ensures b[i + 1 + acc] == SEMICOLON ==> ScanAt(b, p, i, acc) == Frame(i + acc + 2)
    ensures b[i + 1 + acc] == COMMA ==> ScanAt(b, p, i, acc) == Scan(b, i + acc + 2)
  {
  }

  /** A continuation that completes an undecided buffer. */
  lemma {:induction false} Completion(b: seq<byte>, p: nat, i: nat, acc: nat) returns (e: seq<byte>)
    requires p <= i <= |b| && ScanAt(b, p, i, acc).NeedMore?
    ensures ScanAt(b + e, p, i, acc).Frame?
    decreases |b| - i
  {
    var t := i + 1 + acc;
    if i == |b| {
      e := [DOT] + Filler(acc) + [SEMICOLON];
      ScanDot(b + e, p, i, acc);
    } else if IsDigit(b[i]) {
      e := Completion(b, p, i + 1, acc * 10 + (b[i] - 48));
    } else if t >= |b| {
      e := Filler(t - |b|) + [SEMICOLON];
      ScanDot(b + e, p, i, acc);
    } else {
      e := Completion(b, t + 1, t + 1, 0);
      ScanDot(b + e, p, i, acc);
    }
  }

  function Filler(n: nat): (s: seq<byte>)
    ensures |s| == n
  {
    seq(n, k => ZERO)
  }

  /** Every length the scan has accumulated, at every byte it looks at, is below n. */
  predicate LengthsBelow(b: seq<byte>, p: nat, i: nat, acc: nat, n: nat)
    requires p <= i <= |b|
    decreases |b| - i
  {
    acc < n &&
    (i < |b| ==>
       if IsDigit(b[i]) then LengthsBelow(b, p, i + 1, acc * 10 + (b[i] - 48), n)
       else b[i] == DOT && i + 1 + acc < |b| && b[i + 1 + acc] == COMMA ==>
         LengthsBelow(b, i + 2 + acc, i + 2 + acc, 0, n))
  }

  lemma {:induction false} FrameHoldsLength(b: seq<byte>, p: nat, i: nat, acc: nat)
    requires p <= i <= |b| && ScanAt(b, p, i, acc).Frame?
    ensures acc < ScanAt(b, p, i, acc).end
    decreases |b| - i
  {
    if IsDigit(b[i]) {
      FrameHoldsLength(b, p, i + 1, acc * 10 + (b[i] - 48));
    }
  }

  /** While the scan works towards a frame of n bytes, on any part of it that has arrived, no length it
      accumulates reaches n. */
  lemma {:induction false} FrameBoundsLengths(b: seq<byte>, e: seq<byte>, p: nat, i: nat, acc: nat)
    requires p <= i <= |b| && ScanAt(b + e, p, i, acc).Frame?
    ensures LengthsBelow(b, p, i, acc, ScanAt(b + e, p, i, acc).end)
    decreases |b| - i
  {
    FrameHoldsLength(b + e, p, i, acc);
    if i < |b| {
      assert (b + e)[i] == b[i];
      var t := i + 1 + acc;
      if IsDigit(b[i]) {
        FrameBoundsLengths(b, e, p, i + 1, acc * 10 + (b[i] - 48));
      } else if t < |b| && b[t] == COMMA {
        assert (b + e)[t] == b[t];
        FrameBoundsLengths(b, e, t + 1, t + 1, 0);
      }
    }
  }

  lemma {:induction false} LengthsBelowMore(b: seq<byte>, p: nat, i: nat, acc: nat, n: nat, m: nat)
    requires p <= i <= |b| && LengthsBelow(b, p, i, acc, n) && n <= m
    ensures LengthsBelow(b, p, i, acc, m)
    decreases |b| - i
  {
    if i < |b| {
      if IsDigit(b[i]) {
        LengthsBelowMore(b, p, i + 1, acc * 10 + (b[i] - 48), n, m);
      } else if b[i] == DOT && i + 1 + acc < |b| && b[i + 1 + acc] == COMMA {
        LengthsBelowMore(b, i + 2 + acc, i + 2 + acc, 0, n, m);
      }
    }
  }

  // ---------- Cutting a whole stream into frames ----------

  /** All complete frames at the head of a stream, in order. */
  function Frames(w: seq<byte>): (fs: seq<seq<byte>>)
    decreases |w|
  {
    match NextFrame(w)
    case Frame(n) => [w[..n]] + Frames(w[n..])
    case _ => []
  }

  lemma FramesHead(w: seq<byte>, n: nat)
    requires NextFrame(w) == Frame(n)
    ensures Frames(w) == [w[..n]] + Frames(w[n..])
    ensures Concat(Frames(w)) == w[..n] + Concat(Frames(w[n..]))
  {
    hide ScanAt;
    assert ([w[..n]] + Frames(w[n..]))[1..] == Frames(w[n..]);
  }

  lemma NoFrames(w: seq<byte>)
    requires !NextFrame(w).Frame?
    ensures Frames(w) == []
  {
  }

  lemma {:induction false} FramesAreInstructions(w: seq<byte>)
    ensures forall k :: 0 <= k < |Frames(w)| ==> IsFrame(Frames(w)[k])
    ensures exists rest: seq<byte> :: w == Concat(Frames(w)) + rest && !NextFrame(rest).Frame?
    decreases |w|
  {
    hide ScanAt, Frames, IsFrame;
    if NextFrame(w).Frame? {
      var n := NextFrame(w).end;
      FrameIffGrammar(w, n);
      FramesAreInstructions(w[n..]);
      var rest: seq<byte> :| w[n..] == Concat(Frames(w[n..])) + rest && !NextFrame(rest).Frame?;
      FramesHead(w, n);
      hide NextFrame, Concat;
      Associative(w[..n], Concat(Frames(w[n..])), rest);
      assert w == w[..n] + w[n..];
      assert w == Concat(Frames(w)) + rest;
    } else {
      NoFrames(w);
      assert w == Concat(Frames(w)) + w;
    }
  }

  lemma FramesStep(x: seq<byte>, rest: seq<byte>)
    requires IsFrame(x)
    ensures Frames(x + rest) == [x] + Frames(rest)
  {
    var w := x + rest;
    assert w[..|x|] == x && w[|x|..] == rest;
    FrameIffGrammar(w, |x|);
  }

  /** Unique decoding: a stream that starts with given instructions, however they look inside, is
      cut into exactly those instructions. */
  lemma {:induction false} FramesOfConcat(xs: seq<seq<byte>>, rest: seq<byte>)
    requires forall k :: 0 <= k < |xs| ==> IsFrame(xs[k])
    ensures Frames(Concat(xs) + rest) == xs + Frames(rest)
    decreases |xs|
  {
    if xs == [] {
      assert Concat(xs) + rest == rest;
    } else {
      Associative(xs[0], Concat(xs[1..]), rest);
      FramesStep(xs[0], Concat(xs[1..]) + rest);
      FramesOfConcat(xs[1..], rest);
      Associative([xs[0]], xs[1..], Frames(rest));
      assert [xs[0]] + xs[1..] == xs;
    }
  }
}
