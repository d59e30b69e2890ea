/** The in-place `Stream`: one fixed backing array, a window into it, a resume point, and the
    connection it reads from and writes to. */
module Streams {
  import opened Wire
  import opened Framing
  import opened Instructions
  import opened Buffering

  /** What a read with the given room meets: bytes or a failure, and what is left to happen. */
  datatype Arrival = Arrival(bytes: seq<byte>, failure: Option<Cause>, rest: seq<Event>)

  function Meet(events: seq<Event>, room: nat): (a: Arrival)
    ensures |a.bytes| <= room && (a.failure.Some? ==> a.bytes == [])
  {
    if room == 0 then Arrival([], None, events)
    else if events == [] then Arrival([], Some(NetTimeout), [])
    else if events[0].Fail? then Arrival([], Some(events[0].cause), events[1..])
    else
      var bs := events[0].bytes;
      var n := if |bs| <= room then |bs| else room;
      Arrival(bs[..n], None, Advance(events, n))
  }

  function Overwrite(s: seq<byte>, at: nat, bytes: seq<byte>): (r: seq<byte>)
    requires at + |bytes| <= |s|
    ensures |r| == |s|
  {
    s[..at] + bytes + s[at + |bytes|..]
  }

  lemma OverwriteKeepsFront(s: seq<byte>, start: nat, at: nat, bytes: seq<byte>)
    requires start <= at && at + |bytes| <= |s|
    ensures var r := Overwrite(s, at, bytes);
            && r[..start] == s[..start]
            && r[start..at + |bytes|] == s[start..at] + bytes
  {
  }

  /** The network connection.  `events` is what reads will meet; `written` is what guacd was sent. */
  class Conn {
    var events: seq<Event>
    var written: seq<byte>
    var closed: bool

    constructor (events: seq<Event>)
      ensures this.events == events && written == [] && !closed
    {
      this.events := events;
      written := [];
      closed := false;
    }

    /** Read into buf[lo..hi]: as many of the arrived bytes as fit, or a failure with no bytes. */
    method Read(buf: array<byte>, lo: nat, hi: nat) returns (n: nat, failure: Option<Cause>)
      requires lo <= hi <= buf.Length
      modifies this`events, buf
      ensures var a := Meet(old(events), hi - lo);
              n == |a.bytes| <= hi - lo && failure == a.failure && events == a.rest
              && buf[..] == Overwrite(old(buf[..]), lo, a.bytes)
    {
      hide Meet, Advance;
      var a := Meet(events, hi - lo);
      n, failure := |a.bytes|, a.failure;
      forall k | 0 <= k < n {
        buf[lo + k] := a.bytes[k];
      }
      events := a.rest;
    }

    /** Write with a deadline; only a closed connection refuses. */
    method Write(data: seq<byte>) returns (ok: bool)
      modifies this`written
      ensures ok == !closed
      ensures written == if ok then old(written) + data else old(written)
    {
      ok := !closed;
      if ok {
        written := written + data;
      }
    }
  }

  /** On values, a refill is one such read. */
  lemma RefillIsOneRead(c: Buf)
    requires c.Valid() && Room(c) > 0
    ensures var a := Meet(c.events, Room(c));
            var d := c.(live := c.live + a.bytes, events := a.rest);
            Buffering.Refill(c) ==
            if a.failure.Some? then Stop(ReadFailed(Classify(a.failure.value)), d) else Again(d)
  {
    hide Advance;
    assert c.live + [] == c.live;
  }

  class Stream {
    const conn: Conn
    const reset: array<byte>
    var start: nat
    var len: nat
    var parseStart: nat
    var connectionID: seq<byte>

    /** The window lies inside the array and the resume point inside the window. */
    ghost predicate Valid()
      reads this
    {
      reset.Length == CAPACITY && start + len <= CAPACITY && parseStart <= len
    }

    ghost function View(): (b: Buf)
      requires Valid()
      reads this, reset, conn
      ensures b.Valid()
    {
      Buf(start, reset[start..start + len], parseStart, conn.events, conn.closed)
    }

    constructor (conn: Conn)
      ensures Valid() && fresh(reset) && this.conn == conn && connectionID == []
      ensures View() == Buf(0, [], 0, conn.events, conn.closed)
    {
      this.conn := conn;
      reset := new byte[CAPACITY](_ => 0);
      start, len, parseStart := 0, 0, 0;
      connectionID := [];
    }

    method Available() returns (r: bool)
      requires Valid()
      ensures r == (View().live != [])
    {
      r := len > 0;
    }

    /** Slide the live bytes to the front of the array.  The areas may overlap. */
    method Flush()
      requires Valid()
      modifies this`start, reset
      ensures Valid() && View() == old(View()).(start := 0)
    {
      var s := start;
      forall k | 0 <= k < len {
        reset[k] := reset[s + k];
      }
      start := 0;
      assert reset[0..len] == old(reset[start..start + len]);
    }

    /** The parse loop of `ReadSome`: scan the window from the resume point, moving that point over
        every complete element. */
    method ParseBuffer() returns (v: Verdict)
      requires Valid()
      modifies this`parseStart
      ensures Valid()
      ensures v == Scan(reset[start..start + len], old(parseStart))
      ensures parseStart == if v.Frame? then v.end else v.resume
    {
      hide ScanAt;
      ghost var live := reset[start..start + len];
      var first, count := start, len;
      var elementLength: nat := 0;
      var i := parseStart;
      while i < count
        invariant parseStart <= i <= count
        invariant Scan(live, old(parseStart)) == ScanAt(live, parseStart, i, elementLength)
        decreases count - i
      {
        ScanStep(live, parseStart, i, elementLength);
        var readChar := reset[first + i];
        assert readChar == live[i];
        i := i + 1;
        if IsDigit(readChar) {
          elementLength := elementLength * 10 + (readChar - 48);
        } else if readChar == DOT {
          if i + elementLength >= count {
            return NeedMore(parseStart);
          }
          var terminator := reset[first + i + elementLength];
          assert terminator == live[i + elementLength];
          i := i + elementLength + 1;
          elementLength := 0;
          parseStart := i;
          if terminator == SEMICOLON {
            return Frame(i);
          } else if terminator != COMMA {
            return BadTerminator(i);
          }
        } else {
          return BadLength(parseStart, readChar);
        }
      }
      ScanStep(live, parseStart, i, elementLength);
      return NeedMore(parseStart);
    }

    /** The rest of a turn of `ReadSome` when no instruction is complete: compact if less than one
        message of room is left, then read into the window. */
    method Refill() returns (stop: bool, o: Outcome)
      requires Valid()
      modifies this`start, this`len, reset, conn`events
      ensures Valid()
      ensures (start == old(start) && reset[..start] == old(reset[..start]))
              || (start == 0 && CAPACITY - old(start) < MAX_MESSAGE)
      ensures Buffering.Refill(Compact(old(View()))) == if stop then Stop(o, View()) else Again(View())
    {
      if CAPACITY - start < MAX_MESSAGE {
        Flush();
      }
      if start + len == CAPACITY {
        // The window is empty: every read returns zero bytes and the loop never leaves this state.
        return true, Stalled;
      }
      stop, o := ReadInto();
    }

    /** Read into the free end of the array and extend the window over what arrived. */
    method Extend() returns (failure: Option<Cause>)
      requires Valid() && start + len < CAPACITY
      modifies this`len, reset, conn`events
      ensures Valid() && reset[..start] == old(reset[..start])
      ensures var a := Meet(old(conn.events), CAPACITY - start - old(len));
              && failure == a.failure
              && View() == old(View()).(live := old(View()).live + a.bytes, events := a.rest)
    {
      ghost var before, live := reset[..], reset[start..start + len];
      ghost var a := Meet(conn.events, CAPACITY - start - len);
      assert live == before[start..start + len];
      OverwriteKeepsFront(before, start, start + len, a.bytes);
      hide Meet, Overwrite, Advance;
      var n;
      n, failure := conn.Read(reset, start + len, CAPACITY);
      len := len + n;
      assert reset[..start] == reset[..][..start];
      assert reset[start..start + len] == reset[..][start..start + len] == live + a.bytes;
    }

    /** Read, and tell a failure from an arrival. */
    method ReadInto() returns (stop: bool, o: Outcome)
      requires Valid() && start + len < CAPACITY
      modifies this`len, reset, conn`events
      ensures Valid() && reset[..start] == old(reset[..start])
      ensures Buffering.Refill(old(View())) == if stop then Stop(o, View()) else Again(View())
    {
      RefillIsOneRead(View());
      hide Buffering.Refill, Meet, Classify;
      var failure := Extend();
      if failure.Some? {
        return true, ReadFailed(Classify(failure.value));
      }
      return false, Stalled;
    }

    /** Hand out the first n bytes of the window as a slice and move the window behind them. */
    method TakeFrame(n: nat) returns (r: Outcome)
      requires Valid() && n <= len
      modifies this`start, this`len, this`parseStart
      ensures Valid() && start == old(start) + n
      ensures r == Got(old(View()).live[..n])
      ensures View() == old(View()).(start := start, live := old(View()).live[n..], parseStart := 0)
      ensures reset[start - n..start] == r.frame
    {
      ghost var live := View().live;
      var instruction := reset[start..start + n];
      assert instruction == live[..n];
      assert reset[start + n..start + len] == live[n..];
      parseStart := 0;
      start, len := start + n, len - n;
      return Got(instruction);
    }

    /** One turn of the loop of `ReadSome`. */
    method TakeTurn() returns (stop: bool, o: Outcome)
      requires Valid()
      modifies this`start, this`len, this`parseStart, reset, conn`events
      ensures Valid()
      ensures Buffering.TakeTurn(old(View())) == if stop then Stop(o, View()) else Again(View())
      ensures stop && o.Got? ==> |o.frame| <= start && reset[start - |o.frame|..start] == o.frame
      ensures Scan(old(View()).live, old(parseStart)).Decided() ==> stop && reset[..] == old(reset[..])
      ensures CAPACITY - old(start) >= MAX_MESSAGE ==>
                reset[..old(start)] == old(reset[..start]) && (stop || start == old(start))
    {
      hide ScanAt, Buffering.Refill;
      var v := ParseBuffer();
      match v {
        case Frame(n) =>
          stop := true;
          o := TakeFrame(n);
        case BadLength(_, c) =>
          return true, Rejected(NonNumericLength(c));
        case BadTerminator(_) =>
          return true, Rejected(WrongTerminator);
        case NeedMore(p) =>
          stop, o := Refill();
      }
    }

    /** The next instruction, from the buffer or the connection.  The call does exactly what the
        function on values prescribes; a returned frame is the slice of the array right before the
        window; and the bytes before the window, which earlier calls have handed out, stay untouched
        unless this call has to compact. */
    method ReadSome() returns (r: Outcome)
      requires Valid()
      modifies this`start, this`len, this`parseStart, reset, conn`events
      ensures Valid()
      ensures Result(r, View()) == Buffering.ReadSome(old(View()))
      ensures r.Got? ==> |r.frame| <= start && reset[start - |r.frame|..start] == r.frame
      ensures CAPACITY - old(start) >= MAX_MESSAGE || Scan(old(View()).live, old(parseStart)).Decided() ==>
                reset[..old(start)] == old(reset[..start])
    {
      if conn.closed {
        return DeadlineFailed;
      }
      var stop;
      stop, r := TakeTurn();
      while !stop
        invariant Valid() && !conn.closed
        invariant stop ==> Result(r, View()) == ReadLoop(old(View()))
        invariant !stop ==> ReadLoop(View()) == ReadLoop(old(View()))
        invariant Scan(old(View()).live, old(parseStart)).Decided() ==> stop && reset[..] == old(reset[..])
        invariant stop && r.Got? ==> |r.frame| <= start && reset[start - |r.frame|..start] == r.frame
        invariant CAPACITY - old(start) >= MAX_MESSAGE ==> reset[..old(start)] == old(reset[..start])
        invariant !stop && CAPACITY - old(start) >= MAX_MESSAGE ==> start == old(start)
        decreases !stop, |Bytes(conn.events)| + |conn.events|
      {
        stop, r := TakeTurn();
      }
      assert Scan(old(View()).live, old(parseStart)).Decided() ==> reset[..old(start)] == reset[..][..old(start)];
    }

    method Close()
      modifies conn`closed
      ensures conn.closed
    {
      conn.closed := true;
    }
  }
}
