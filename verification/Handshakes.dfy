/** Reading one instruction, insisting on an opcode, and the handshake with guacd. */
module Handshakes {
  import opened Wire
  import opened Framing
  import opened Instructions
  import opened Buffering
  import opened Delivery
  import opened Streams

  /** Text constants as bytes. */
  function Ascii(s: string): (r: seq<byte>)
    ensures |r| == |s| && forall k :: 0 <= k < |s| && s[k] as int < 128 ==> r[k] == s[k] as int
  {
    seq(|s|, k requires 0 <= k < |s| => s[k] as int % 256)
  }

  /** "%v" of an int. */
  function PrintInt(n: int): seq<byte> {
    if n < 0 then [45] + Decimal(-n) else Decimal(n)
  }

  datatype Config = Config(
    connectionID: seq<byte>,
    protocol: seq<byte>,
    parameters: map<seq<byte>, seq<byte>>,
    width: int,
    height: int,
    resolution: int,
    audio: seq<seq<byte>>,
    video: seq<seq<byte>>,
    image: seq<seq<byte>>)

  // ---------- The handshake on values ----------

  /** Outcome of `ReadOne`: an instruction, a failed read, or a frame the parser refuses. */
  datatype One = One(ins: Ins) | NotRead(out: Outcome) | NotParsed(result: ParseResult)

  datatype Error =
    | NoInstruction(cause: One)
    | EndOfStream
    | Unexpected(opcode: seq<byte>)
    | NoConnectionID
    | WriteFailed

  datatype Reply = Reply(ins: Ins) | Refused(error: Error)

  function ReadOneOf(o: Outcome): One {
    if !o.Got? then NotRead(o)
    else
      var p := ParseSpec(o.frame);
      if p.Parsed? then One(p.ins) else NotParsed(p)
  }

  function ReplyOf(o: Outcome, opcode: seq<byte>): Reply {
    match ReadOneOf(o)
    case One(ins) =>
      if ins.opcode == [] then Refused(EndOfStream)
      else if ins.opcode != opcode then Refused(Unexpected(ins.opcode))
      else Reply(ins)
    case r => Refused(NoInstruction(r))
  }

  /** One value per name the server asked for; a name without a parameter gets the empty string. */
  function ArgValues(config: Config, names: seq<seq<byte>>): (vs: seq<seq<byte>>)
    ensures |vs| == |names|
    ensures forall k :: 0 <= k < |names| ==>
              vs[k] == if names[k] in config.parameters then config.parameters[names[k]] else []
  {
    seq(|names|, k requires 0 <= k < |names| =>
      if names[k] in config.parameters then config.parameters[names[k]] else [])
  }

  function Select(config: Config): Ins {
    Ins(Ascii("select"), [if config.connectionID == [] then config.protocol else config.connectionID])
  }

  /** What the client says once it knows the argument names. */
  function Answer(config: Config, names: seq<seq<byte>>): seq<Ins> {
    [ Ins(Ascii("size"), [PrintInt(config.width), PrintInt(config.height), PrintInt(config.resolution)]),
      Ins(Ascii("audio"), config.audio),
      Ins(Ascii("video"), config.video),
      Ins(Ascii("image"), config.image),
      Ins(Ascii("connect"), ArgValues(config, names)) ]
  }

  /** `sent`: the instructions written, in order. */
  datatype Handshaken = Handshaken(error: Option<Error>, id: seq<byte>, sent: seq<Ins>, buf: Buf)

  /** From the moment the argument names are known. */
  function AnswerSpec(config: Config, names: seq<seq<byte>>, b: Buf): Handshaken
    requires b.Valid()
  {
    ValidAfter(b);
    var r := ReadSome(b);
    var sent := Answer(config, names);
    match ReplyOf(r.out, Ascii("ready"))
    case Refused(e) => Handshaken(Some(e), [], sent, r.buf)
    case Reply(ready) =>
      if ready.args == [] then Handshaken(Some(NoConnectionID), [], sent, r.buf)
      else Handshaken(None, ready.args[0], sent, r.buf.(start := 0))
  }

  function HandshakeSpec(config: Config, b: Buf): Handshaken
    requires b.Valid()
  {
    if b.closed then Handshaken(Some(WriteFailed), [], [], b)
    else
      ValidAfter(b);
      var r := ReadSome(b);
      match ReplyOf(r.out, Ascii("args"))
      case Refused(e) => Handshaken(Some(e), [], [Select(config)], r.buf)
      case Reply(args) =>
        var h := AnswerSpec(config, args.args, r.buf);
        h.(sent := [Select(config)] + h.sent)
  }

  // ---------- The methods ----------

  method ReadOne(s: Stream) returns (r: One)
    requires s.Valid()
    modifies s`start, s`len, s`parseStart, s.reset, s.conn`events
    ensures s.Valid()
    ensures s.View() == ReadSome(old(s.View())).buf && r == ReadOneOf(ReadSome(old(s.View())).out)
  {
    var o := s.ReadSome();
    if !o.Got? {
      return NotRead(o);
    }
    var p := Parse(o.frame);
    return if p.Parsed? then One(p.ins) else NotParsed(p);
  }

  method AssertOpcode(s: Stream, opcode: seq<byte>) returns (r: Reply)
    requires s.Valid()
    modifies s`start, s`len, s`parseStart, s.reset, s.conn`events
    ensures s.Valid()
    ensures s.View() == ReadSome(old(s.View())).buf && r == ReplyOf(ReadSome(old(s.View())).out, opcode)
  {
    var one := ReadOne(s);
    if !one.One? {
      return Refused(NoInstruction(one));
    }
    if |one.ins.opcode| == 0 {
      return Refused(EndOfStream);
    }
    if one.ins.opcode != opcode {
      return Refused(Unexpected(one.ins.opcode));
    }
    return Reply(one.ins);
  }

  /** Print an instruction and write it to the connection. */
  method Send(s: Stream, ins: Ins) returns (ok: bool)
    modifies s.conn`written
    ensures ok == !s.conn.closed
    ensures s.conn.written == if ok then old(s.conn.written) + Encode(ins) else old(s.conn.written)
  {
    var i := new Instruction(ins.opcode, ins.args);
    var text := i.String();
    ok := s.conn.Write(text);
  }

  /** The value list of "connect", built name by name. */
  method BuildArgs(config: Config, names: seq<seq<byte>>) returns (values: seq<seq<byte>>)
    ensures values == ArgValues(config, names)
  {
    values := [];
    for k := 0 to |names|
      invariant values == ArgValues(config, names)[..k]
    {
      var value := if names[k] in config.parameters then config.parameters[names[k]] else [];
      values := values + [value];
    }
  }

  method SendAnswer(s: Stream, config: Config, names: seq<seq<byte>>)
    requires !s.conn.closed
    modifies s.conn`written
    ensures s.conn.written == old(s.conn.written) + EncodeAll(Answer(config, names))
  {
    hide Encode, EncodeAll, Ascii, PrintInt;
    var values := BuildArgs(config, names);
    ghost var all := Answer(config, names);
    SendNone(all);
    SendNext(s, Ins(Ascii("size"), [PrintInt(config.width), PrintInt(config.height), PrintInt(config.resolution)]),
             old(s.conn.written), all, 0);
    SendNext(s, Ins(Ascii("audio"), config.audio), old(s.conn.written), all, 1);
    SendNext(s, Ins(Ascii("video"), config.video), old(s.conn.written), all, 2);
    SendNext(s, Ins(Ascii("image"), config.image), old(s.conn.written), all, 3);
    SendNext(s, Ins(Ascii("connect"), values), old(s.conn.written), all, 4);
    assert all[..5] == all;
  }

  /** Send the k-th instruction of a list whose first k have been sent since `before`. */
  method SendNext(s: Stream, ins: Ins, ghost before: seq<byte>, ghost all: seq<Ins>, ghost k: nat)
    requires !s.conn.closed && k < |all| && all[k] == ins
    requires s.conn.written == before + EncodeAll(all[..k])
    modifies s.conn`written
    ensures s.conn.written == before + EncodeAll(all[..k + 1])
  {
    var ok := Send(s, ins);
    SendOneMore(all, k);
    Associative(before, EncodeAll(all[..k]), Encode(ins));
  }

  lemma SendNone(xs: seq<Ins>)
    ensures EncodeAll(xs[..0]) == []
  {
    assert EncodeEach(xs[..0]) == [];
  }

  lemma SendOneMore(xs: seq<Ins>, k: nat)
    requires k < |xs|
    ensures EncodeAll(xs[..k + 1]) == EncodeAll(xs[..k]) + Encode(xs[k])
  {
    assert EncodeEach(xs[..k + 1]) == EncodeEach(xs[..k]) + [Encode(xs[k])];
    ConcatSnoc(EncodeEach(xs[..k]), Encode(xs[k]));
  }

  method AnswerAndWait(s: Stream, config: Config, names: seq<seq<byte>>) returns (error: Option<Error>)
    requires s.Valid() && !s.conn.closed
    modifies s, s.reset, s.conn`events, s.conn`written
    ensures s.Valid()
    ensures var h := AnswerSpec(config, names, old(s.View()));
            && error == h.error && s.View() == h.buf
            && s.conn.written == old(s.conn.written) + EncodeAll(h.sent)
            && s.connectionID == if error.None? then h.id else old(s.connectionID)
  {
    hide ReplyOf, Encode, EncodeAll, ReadLoop, Answer, Ascii;
    ghost var b := s.View();
    SendAnswer(s, config, names);
    assert s.View() == b;
    var ready := AssertOpcode(s, Ascii("ready"));
    if ready.Refused? {
      return Some(ready.error);
    }
    if |ready.ins.args| == 0 {
      return Some(NoConnectionID);
    }
    s.Flush();
    s.connectionID := ready.ins.args[0];
    assert s.View() == ReadSome(b).buf.(start := 0);
    return None;
  }

  method Handshake(s: Stream, config: Config) returns (error: Option<Error>)
    requires s.Valid()
    modifies s, s.reset, s.conn`events, s.conn`written
    ensures s.Valid()
    ensures var h := HandshakeSpec(config, old(s.View()));
            && error == h.error && s.View() == h.buf
            && s.conn.written == old(s.conn.written) + EncodeAll(h.sent)
            && s.connectionID == if error.None? then h.id else old(s.connectionID)
  {
    hide ReplyOf, Encode, EncodeAll, ReadLoop, Select, Answer, AnswerSpec, Ascii;
    ghost var b := s.View();
    ghost var before := s.conn.written;
    SendNone([]);
    var ok := Send(s, Select(config));
    if !ok {
      return Some(WriteFailed);
    }
    EncodeOne(Select(config));
    assert s.View() == b;
    var args := AssertOpcode(s, Ascii("args"));
    if args.Refused? {
      return Some(args.error);
    }
    ghost var h := AnswerSpec(config, args.ins.args, s.View());
    error := AnswerAndWait(s, config, args.ins.args);
    EncodeAppend([Select(config)], h.sent);
    Associative(before, EncodeAll([Select(config)]), EncodeAll(h.sent));
  }

  lemma EncodeOne(i: Ins)
    ensures EncodeAll([i]) == Encode(i)
  {
    SendNone([i]);
    SendOneMore([i], 0);
    assert [i][..1] == [i];
  }

  lemma EncodeAppend(xs: seq<Ins>, ys: seq<Ins>)
    ensures EncodeAll(xs + ys) == EncodeAll(xs) + EncodeAll(ys)
  {
    assert EncodeEach(xs + ys) == EncodeEach(xs) + EncodeEach(ys);
    ConcatAppend(EncodeEach(xs), EncodeEach(ys));
  }

  // ---------- What a handshake amounts to ----------

  /** A call that meets a whole frame of at most one message returns it and nothing more. */
  lemma OneFrame(b: Buf, x: seq<byte>, rest: seq<byte>)
    requires b.Valid() && b.InSync() && !b.closed
    requires b.Ahead() == x + rest && IsFrame(x) && |x| <= MAX_MESSAGE
    ensures var r := ReadSome(b);
            && r.out == Got(x)
            && r.buf.Valid() && r.buf.InSync() && !r.buf.closed && r.buf.Ahead() == rest
  {
    var w := b.Ahead();
    ShortHeadFits(w, x);
    assert w[..|x|] == x && w[|x|..] == rest;
    FrameIffGrammar(w, |x|);
    hide ScanAt, ReadLoop, IsFrame;
    OneCall(b);
    ReadLoopFaithful(b);
    ValidAfter(b);
    assert (x + ReadSome(b).buf.Ahead())[|x|..] == ReadSome(b).buf.Ahead();
  }

  lemma OneInstruction(b: Buf, i: Ins, rest: seq<byte>)
    requires b.Valid() && b.InSync() && !b.closed
    requires b.Ahead() == Encode(i) + rest && |Encode(i)| <= MAX_MESSAGE
    ensures var r := ReadSome(b);
            && ReadOneOf(r.out) == One(i)
            && r.buf.Valid() && r.buf.InSync() && !r.buf.closed && r.buf.Ahead() == rest
  {
    hide Encode, ParseSpec, ReadSome;
    OneFrame(b, Encode(i), rest);
    ParseOne(i);
  }

  /** `x` is a frame that parses to an instruction with the given opcode. */
  ghost predicate Says(x: seq<byte>, opcode: seq<byte>, i: Ins) {
    IsFrame(x) && ParseSpec(x) == Parsed(i) && i.opcode == opcode
  }

  /** The texts of the handshake, byte for byte. */
  lemma OpcodeBytes()
    ensures Ascii("select") == [115, 101, 108, 101, 99, 116] && Ascii("size") == [115, 105, 122, 101]
    ensures Ascii("audio") == [97, 117, 100, 105, 111] && Ascii("video") == [118, 105, 100, 101, 111]
    ensures Ascii("image") == [105, 109, 97, 103, 101] && Ascii("connect") == [99, 111, 110, 110, 101, 99, 116]
    ensures Ascii("args") == [97, 114, 103, 115] && Ascii("ready") == [114, 101, 97, 100, 121]
  {
  }

  ghost predicate SaysArgs(x: seq<byte>, i: Ins) {
    Says(x, [97, 114, 103, 115], i)
  }

  ghost predicate SaysReady(x: seq<byte>, i: Ins) {
    Says(x, [114, 101, 97, 100, 121], i)
  }

  /** Why a reply is refused: there is no instruction, it has the empty opcode, or another one. */
  lemma ReplyKinds(o: Outcome, opcode: seq<byte>)
    requires opcode != []
    ensures var r := ReplyOf(o, opcode);
            && (r.Reply? <==> o.Got? && ParseSpec(o.frame).Parsed? && ParseSpec(o.frame).ins.opcode == opcode)
            && (r == Refused(EndOfStream) <==> o.Got? && SaysInternal(o.frame))
            && (forall op :: r == Refused(Unexpected(op)) <==>
                  && o.Got? && ParseSpec(o.frame).Parsed? && ParseSpec(o.frame).ins.opcode == op
                  && op != [] && op != opcode)
            && (r.Refused? && r.error.NoInstruction? <==> !o.Got? || !ParseSpec(o.frame).Parsed?)
  {
    hide ParseSpec;
  }

  /** If guacd's bytes begin with a frame that says "args" and one that says "ready" with a connection
      ID, each of at most one message, the handshake succeeds whatever the chunking: it sends exactly
      select, size, audio, video, image and connect, takes the first argument of "ready" as the
      connection ID, and leaves every byte behind "ready" to be read later. */
  lemma HandshakeSucceeds(
      config: Config, b: Buf, x: seq<byte>, args: Ins, y: seq<byte>, ready: Ins, rest: seq<byte>)
    requires b.Valid() && b.InSync() && !b.closed
    requires b.Ahead() == x + (y + rest) && |x| <= MAX_MESSAGE && |y| <= MAX_MESSAGE
    requires SaysArgs(x, args) && SaysReady(y, ready)
    ensures var h := HandshakeSpec(config, b);
            && h.error == (if ready.args == [] then Some(NoConnectionID) else None)
            && (ready.args != [] ==> h.id == ready.args[0] && h.buf.start == 0)
            && h.sent == [Select(config)] + Answer(config, args.args)
            && h.buf.Valid() && h.buf.InSync() && h.buf.Ahead() == rest
  {
    OpcodeBytes();
    hide ReadSome, ParseSpec, IsFrame, Answer, Select, Ascii;
    OneFrame(b, x, y + rest);
    var c := ReadSome(b).buf;
    OneFrame(c, y, rest);
    var d := ReadSome(c).buf;
    assert d.(start := 0).InSync();
  }

  ghost predicate Begins(w: seq<byte>, x: seq<byte>, args: Ins, y: seq<byte>, ready: Ins, rest: seq<byte>) {
    w == x + (y + rest) && SaysArgs(x, args) && SaysReady(y, ready)
  }

  /** The bytes begin with a frame that says "args" and one that says "ready", with an argument or
      without. */
  ghost predicate Invites(w: seq<byte>, named: bool) {
    exists x: seq<byte>, args: Ins, y: seq<byte>, ready: Ins, rest: seq<byte> ::
      Begins(w, x, args, y, ready, rest) && (ready.args != []) == named
  }

  /** When the heads of guacd's stream fit, the handshake succeeds if and only if the bytes begin so with
      an argument to "ready", and misses the connection ID if and only if they begin so without one,
      whatever the chunking and whatever follows. */
  lemma HandshakeSucceedsIff(config: Config, b: Buf)
    requires b.Valid() && b.InSync() && !b.closed && AllHeadsFit(b.Ahead())
    ensures HandshakeSpec(config, b).error == None <==> Invites(b.Ahead(), true)
    ensures HandshakeSpec(config, b).error == Some(NoConnectionID) <==> Invites(b.Ahead(), false)
  {
    hide ReadSome, Begins, Answer, Select, AllHeadsFit, HandshakeSpec;
    var w := b.Ahead();
    forall named: bool | Invites(w, named)
      ensures HandshakeSpec(config, b).error == if named then None else Some(NoConnectionID)
    {
      var x: seq<byte>, args: Ins, y: seq<byte>, ready: Ins, rest: seq<byte> :|
        Begins(w, x, args, y, ready, rest) && (ready.args != []) == named;
      BeginsFits(config, b, x, args, y, ready, rest);
    }
    var e := HandshakeSpec(config, b).error;
    if e == None || e == Some(NoConnectionID) {
      SuccessInvites(config, b);
    }
  }

  lemma BeginsFits(config: Config, b: Buf, x: seq<byte>, args: Ins, y: seq<byte>, ready: Ins, rest: seq<byte>)
    requires b.Valid() && b.InSync() && !b.closed && AllHeadsFit(b.Ahead())
    requires Begins(b.Ahead(), x, args, y, ready, rest)
    ensures HandshakeSpec(config, b).error == if ready.args == [] then Some(NoConnectionID) else None
  {
    hide Says, AllHeadsFit, HandshakeSpec;
    SaidFits(b.Ahead(), x, y + rest, [97, 114, 103, 115], args);
    SaidFits(y + rest, y, rest, [114, 101, 97, 100, 121], ready);
    HandshakeSucceeds(config, b, x, args, y, ready, rest);
  }

  lemma SuccessInvites(config: Config, b: Buf)
    requires b.Valid() && b.InSync() && !b.closed && AllHeadsFit(b.Ahead())
    requires var e := HandshakeSpec(config, b).error; e == None || e == Some(NoConnectionID)
    ensures Invites(b.Ahead(), HandshakeSpec(config, b).error == None)
  {
    TwoReplies(config, b);
    OpcodeBytes();
    hide ReadSome, ReplyOf, Says, AllHeadsFit, HandshakeSpec, Ascii;
    SaidNext(b, Ascii("args"));
    var r := ReadSome(b);
    SaidNext(r.buf, Ascii("ready"));
    var q := ReadSome(r.buf);
    assert b.Ahead() == r.out.frame + (q.out.frame + q.buf.Ahead());
    assert Begins(b.Ahead(), r.out.frame, ReplyOf(r.out, Ascii("args")).ins,
                  q.out.frame, ReplyOf(q.out, Ascii("ready")).ins, q.buf.Ahead());
  }

  lemma TwoReplies(config: Config, b: Buf)
    requires b.Valid() && !b.closed
    requires var e := HandshakeSpec(config, b).error; e == None || e == Some(NoConnectionID)
    ensures var r := ReadSome(b);
            && r.buf.Valid() && ReplyOf(r.out, Ascii("args")).Reply?
            && var q := ReplyOf(ReadSome(r.buf).out, Ascii("ready"));
            && q.Reply? && (q.ins.args != [] <==> HandshakeSpec(config, b).error == None)
  {
    RefusedIsNotMissing(ReadSome(b).out, Ascii("args"));
    hide ReadSome, ReplyOf, Answer, Select, Ascii;
    ValidAfter(b);
    RefusedIsNotMissing(ReadSome(ReadSome(b).buf).out, Ascii("ready"));
  }

  lemma RefusedIsNotMissing(o: Outcome, opcode: seq<byte>)
    ensures ReplyOf(o, opcode) != Refused(NoConnectionID)
  {
  }

  /** What a reply is made of: the frame at the head of the stream. */
  lemma SaidNext(b: Buf, opcode: seq<byte>)
    requires b.Valid() && b.InSync() && !b.closed && AllHeadsFit(b.Ahead()) && ReplyOf(ReadSome(b).out, opcode).Reply?
    ensures var r := ReadSome(b);
            && r.out.Got? && r.buf.Valid() && r.buf.InSync() && !r.buf.closed && AllHeadsFit(r.buf.Ahead())
            && b.Ahead() == r.out.frame + r.buf.Ahead()
            && Says(r.out.frame, opcode, ReplyOf(r.out, opcode).ins)
  {
    hide ReadSome, ReplyOf, Says, AllHeadsFit;
    ReplyMeans(b, opcode);
    SessionStep(b);
    var n := NextFrame(b.Ahead()).end;
    assert b.Ahead() == b.Ahead()[..n] + b.Ahead()[n..];
  }

  lemma SaidFits(w: seq<byte>, x: seq<byte>, rest: seq<byte>, opcode: seq<byte>, i: Ins)
    requires AllHeadsFit(w) && w == x + rest && Says(x, opcode, i)
    ensures |x| <= MAX_MESSAGE && AllHeadsFit(rest)
  {
    assert w[..|x|] == x && w[|x|..] == rest;
    FrameIffGrammar(w, |x|);
    hide ScanAt, ParseSpec, IsFrame;
    FrameFits(w);
  }

  lemma ReplyMeans(b: Buf, opcode: seq<byte>)
    requires b.Valid() && b.InSync()
    ensures var r := ReadSome(b);
            && r.buf.Valid() && Handed(r.out) + r.buf.Remaining() == b.Remaining()
            && (ReplyOf(r.out, opcode).Reply? ==>
                  && r.buf.InSync() && r.out.Got?
                  && Says(r.out.frame, opcode, ReplyOf(r.out, opcode).ins))
  {
    hide ReadLoop, ParseSpec, ScanAt;
    ValidAfter(b);
    if !b.closed {
      ReadLoopFaithful(b);
      var w := b.Ahead();
      if ReadSome(b).out.Got? {
        FrameIffGrammar(w, NextFrame(w).end);
      }
    }
  }

  /** The two frames, with their readings, that a successful handshake has consumed. */
  ghost predicate Consumed(config: Config, b: Buf, h: Handshaken, x: seq<byte>, y: seq<byte>, args: Ins, ready: Ins) {
    && SaysArgs(x, args) && SaysReady(y, ready)
    && x + (y + h.buf.Remaining()) == b.Remaining()
    && ready.args != [] && h.id == ready.args[0]
    && h.sent == [Select(config)] + Answer(config, args.args)
  }

  /** Conversely a handshake succeeds only so: guacd's bytes began with a frame that says "args" and a
      frame that says "ready" with an argument, and no other byte was consumed. */
  lemma HandshakeMeans(config: Config, b: Buf)
    requires b.Valid() && b.InSync() && HandshakeSpec(config, b).error == None
    ensures exists x, y: seq<byte>, args, ready: Ins ::
              Consumed(config, b, HandshakeSpec(config, b), x, y, args, ready)
  {
    OpcodeBytes();
    hide ReplyOf, ReadSome, Answer, Select, Says, Ascii;
    ReplyMeans(b, Ascii("args"));
    var r := ReadSome(b);
    ReplyMeans(r.buf, Ascii("ready"));
    var q := ReadSome(r.buf);
    var args, ready := ReplyOf(r.out, Ascii("args")).ins, ReplyOf(q.out, Ascii("ready")).ins;
    assert Consumed(config, b, HandshakeSpec(config, b), r.out.frame, q.out.frame, args, ready);
  }

  lemma PrintIntRoundTrip(n: int)
    requires -MAX_INT - 1 <= n <= MAX_INT
    ensures Atoi(PrintInt(n)) == Some(n)
  {
    if n < 0 {
      assert PrintInt(n)[1..] == Decimal(-n);
    } else {
      AtoiOfDigits(Decimal(n));
    }
  }

  predicate IntsFit(config: Config) {
    && -MAX_INT - 1 <= config.width <= MAX_INT
    && -MAX_INT - 1 <= config.height <= MAX_INT
    && -MAX_INT - 1 <= config.resolution <= MAX_INT
  }

  predicate ReadsNumber(v: seq<byte>, n: int) {
    Atoi(v) == Some(n)
  }

  /** The readings of six instructions "select", "size", "audio", "video", "image" and "connect", in
      literal bytes, that convey the configuration to somebody who asked for `names`. */
  predicate Conveys(config: Config, names: seq<seq<byte>>, rs: seq<ParseResult>) {
    && |rs| == 6 && (forall k :: 0 <= k < 6 ==> rs[k].Parsed?)
    && rs[0].ins.opcode == [115, 101, 108, 101, 99, 116]
    && rs[1].ins.opcode == [115, 105, 122, 101]
    && rs[2].ins.opcode == [97, 117, 100, 105, 111]
    && rs[3].ins.opcode == [118, 105, 100, 101, 111]
    && rs[4].ins.opcode == [105, 109, 97, 103, 101]
    && rs[5].ins.opcode == [99, 111, 110, 110, 101, 99, 116]
    && rs[0].ins.args == [if config.connectionID == [] then config.protocol else config.connectionID]
    && |rs[1].ins.args| == 3 && ReadsNumber(rs[1].ins.args[0], config.width)
    && ReadsNumber(rs[1].ins.args[1], config.height) && ReadsNumber(rs[1].ins.args[2], config.resolution)
    && rs[2].ins.args == config.audio && rs[3].ins.args == config.video && rs[4].ins.args == config.image
    && |rs[5].ins.args| == |names|
    && forall k :: 0 <= k < |names| ==>
         rs[5].ins.args[k] == if names[k] in config.parameters then config.parameters[names[k]] else []
  }

  lemma TranscriptConveys(config: Config, names: seq<seq<byte>>)
    requires IntsFit(config)
    ensures Conveys(config, names, AllParsed([Select(config)] + Answer(config, names)))
  {
    var t := [Select(config)] + Answer(config, names);
    OpcodeBytes();
    hide Atoi, PrintInt, Ascii, AllParsed;
    PrintIntRoundTrip(config.width);
    PrintIntRoundTrip(config.height);
    PrintIntRoundTrip(config.resolution);
    var rs := AllParsed(t);
    var size := [PrintInt(config.width), PrintInt(config.height), PrintInt(config.resolution)];
    assert rs[1] == Parsed(Ins(Ascii("size"), size));
  }

  /** What a successful handshake conveys: cutting and parsing the bytes written gives guacd the six
      instructions, with the numbers and formats of the configuration and one value for each name of
      the "args" that it said, in its order. */
  lemma GuacdReadsTheConfiguration(config: Config, b: Buf)
    requires b.Valid() && b.InSync() && HandshakeSpec(config, b).error == None
    requires IntsFit(config) && |EncodeAll(HandshakeSpec(config, b).sent)| <= MAX_INT
    ensures exists x: seq<byte>, args: Ins ::
              && SaysArgs(x, args) && x <= b.Remaining()
              && Conveys(config, args.args, DecodeAll(EncodeAll(HandshakeSpec(config, b).sent)))
  {
    hide HandshakeSpec, EncodeAll, DecodeAll, Conveys, Says, SaysArgs, Select, Answer;
    HandshakeMeans(config, b);
    var h := HandshakeSpec(config, b);
    var x, y: seq<byte>, args, ready: Ins :| Consumed(config, b, h, x, y, args, ready);
    DecodeEncodeAll(h.sent);
    TranscriptConveys(config, args.args);
  }

  /** Whatever the outcome, nothing but "select" is sent before "args" has been received. */
  lemma SilentBeforeArgs(config: Config, b: Buf)
    requires b.Valid() && b.InSync() && |HandshakeSpec(config, b).sent| > 1
    ensures exists x: seq<byte>, args: Ins ::
              && SaysArgs(x, args) && x <= b.Remaining()
              && HandshakeSpec(config, b).sent == [Select(config)] + Answer(config, args.args)
  {
    OpcodeBytes();
    hide ReplyOf, ReadSome, Answer, Select, ParseSpec, IsFrame, Ascii;
    ReplyMeans(b, Ascii("args"));
    var r := ReadSome(b);
    assert SaysArgs(r.out.frame, ReplyOf(r.out, Ascii("args")).ins);
  }

  /** On an open connection "select" always goes out first, with the connection ID or else the protocol,
      and then either nothing or the five further instructions. */
  lemma FirstWords(config: Config, b: Buf)
    requires b.Valid() && !b.closed
    ensures var sent := HandshakeSpec(config, b).sent;
            && (|sent| == 1 || |sent| == 6)
            && sent[0].opcode == [115, 101, 108, 101, 99, 116]
            && sent[0].args == [if config.connectionID == [] then config.protocol else config.connectionID]
  {
    OpcodeBytes();
    hide ReadSome, ReplyOf, Ascii, PrintInt;
    ValidAfter(b);
  }
}
