/** `elementLength` is a 64-bit signed `int` in the source, while the framer here counts without bound.
    The two give the same verdict exactly when no completed length field wraps around into the window. */
module MachineLengths {
  import opened Wire
  import opened Framing
  import opened Buffering

  const TWO63: int := 0x8000_0000_0000_0000
  const TWO64: int := 0x1_0000_0000_0000_0000

  /** Two's complement. */
  function Wrap(n: int): (w: int)
    ensures -TWO63 <= w < TWO63
    ensures -TWO63 <= n < TWO63 ==> w == n
  {
    (n + TWO63) % TWO64 - TWO63
  }

  /** `Astray`: a length has turned negative, so the scan would index before the window or run
      backwards. */
  datatype MachineVerdict = Same(v: Verdict) | Astray

  /** The parse loop with 64-bit lengths. */
  function MachineScanAt(b: seq<byte>, p: nat, i: nat, acc: int): MachineVerdict
    requires p <= i <= |b|
    decreases |b| - i
  {
    if i == |b| then Same(NeedMore(p))
    else if IsDigit(b[i]) then MachineScanAt(b, p, i + 1, Wrap(Wrap(acc * 10) + (b[i] - 48)))
    else if b[i] != DOT then Same(BadLength(p, b[i]))
    else
      var e := Wrap(i + 1 + acc);
      if acc < 0 || e < 0 then Astray
      else if e >= |b| then Same(NeedMore(p))
      else if e <= i then Astray
      else if b[e] == SEMICOLON then Same(Frame(e + 1))
      else if b[e] == COMMA then MachineScanAt(b, e + 1, e + 1, 0)
      else Same(BadTerminator(e + 1))
  }

  function MachineScan(b: seq<byte>, p: nat): MachineVerdict
    requires p <= |b|
  {
    MachineScanAt(b, p, p, 0)
  }

  /** Every length field that the scan completes ends at a position that a machine word can hold. */
  predicate LengthsFit(b: seq<byte>, p: nat, i: nat, acc: nat)
    requires p <= i <= |b|
    decreases |b| - i
  {
    if i == |b| then true
    else if IsDigit(b[i]) then LengthsFit(b, p, i + 1, acc * 10 + (b[i] - 48))
    else if b[i] != DOT then true
    else
      var e := i + 1 + acc;
      e < TWO63 && (e < |b| && b[e] == COMMA ==> LengthsFit(b, e + 1, e + 1, 0))
  }

  lemma WrapDigit(acc: nat, d: nat)
    ensures Wrap(Wrap(Wrap(acc) * 10) + d) == Wrap(acc * 10 + d)
  {
    var k := (acc + TWO63) / TWO64;
    assert Wrap(acc) == acc - k * TWO64;
    var j := (Wrap(acc) * 10 + TWO63) / TWO64;
    assert Wrap(Wrap(acc) * 10) == Wrap(acc) * 10 - j * TWO64;
    WrapShift(acc * 10 + d, 10 * k + j);
  }

  lemma WrapShift(n: int, k: int)
    ensures Wrap(n - k * TWO64) == Wrap(n)
  {
    var q := (n + TWO63) / TWO64;
    var r := (n + TWO63) % TWO64;
    assert n - k * TWO64 + TWO63 == (q - k) * TWO64 + r;
    var q' := (n - k * TWO64 + TWO63) / TWO64;
    var r' := (n - k * TWO64 + TWO63) % TWO64;
    assert (q' - (q - k)) * TWO64 == r - r';
  }

  /** The guard that matters: wherever the scan completes a length field whose value ends outside the
      window, the wrapped length is not negative and points outside the window as well. */
  predicate Harmless(b: seq<byte>, p: nat, i: nat, acc: nat)
    requires p <= i <= |b|
    decreases |b| - i
  {
    if i == |b| then true
    else if IsDigit(b[i]) then Harmless(b, p, i + 1, acc * 10 + (b[i] - 48))
    else if b[i] != DOT then true
    else
      var e := i + 1 + acc;
      if e >= |b| then Wrap(acc) >= 0 && Wrap(i + 1 + Wrap(acc)) >= |b|
      else b[e] == COMMA ==> Harmless(b, e + 1, e + 1, 0)
  }

  /** The place where the machine scan resumes never falls behind the element it started with. */
  lemma {:induction false} MachineResume(b: seq<byte>, p: nat, i: nat, acc: int, r: nat)
    requires p <= i <= |b| && MachineScanAt(b, p, i, acc) == Same(NeedMore(r))
    ensures p <= r
    decreases |b| - i
  {
    hide Wrap;
    if i < |b| {
      var e := Wrap(i + 1 + acc);
      if IsDigit(b[i]) {
        MachineResume(b, p, i + 1, Wrap(Wrap(acc * 10) + (b[i] - 48)), r);
      } else if i < e < |b| && b[e] == COMMA && 0 <= acc {
        MachineResume(b, e + 1, e + 1, 0, r);
      }
    }
  }

  /** A length that ends outside the window: an unbounded scan waits, and the machine scan does the
      same exactly when the guard holds. */
  lemma OversizedField(b: seq<byte>, p: nat, i: nat, acc: nat)
    requires p <= i < |b| && b[i] == DOT && i + 1 + acc >= |b|
    ensures MachineScanAt(b, p, i, Wrap(acc)) == Same(NeedMore(p)) <==>
            Wrap(acc) >= 0 && Wrap(i + 1 + Wrap(acc)) >= |b|
  {
    var e := Wrap(i + 1 + Wrap(acc));
    hide Wrap;
    if Wrap(acc) >= 0 && i < e < |b| && b[e] == COMMA && MachineScanAt(b, e + 1, e + 1, 0) == Same(NeedMore(p)) {
      MachineResume(b, e + 1, e + 1, 0, p);
    }
  }

  /** The scan in machine words gives the verdict of the unbounded one if and only if every completed
      length field is harmless, for every window and every place to start. */
  lemma {:induction false} MachineAgreesIffHarmless(b: seq<byte>, p: nat, i: nat, acc: nat)
    requires p <= i <= |b| < TWO63
    ensures MachineScanAt(b, p, i, Wrap(acc)) == Same(ScanAt(b, p, i, acc)) <==> Harmless(b, p, i, acc)
    decreases |b| - i
  {
    hide Wrap;
    if i < |b| {
      var e := i + 1 + acc;
      if IsDigit(b[i]) {
        MachineStep(b, p, i, acc);
        ScanStep(b, p, i, acc);
        MachineAgreesIffHarmless(b, p, i + 1, acc * 10 + (b[i] - 48));
      } else if b[i] == DOT {
        if e >= |b| {
          OversizedField(b, p, i, acc);
          ScanStep(b, p, i, acc);
        } else if b[e] == COMMA {
          MachineAgreesIffHarmless(b, e + 1, e + 1, 0);
        }
      }
    }
  }

  lemma {:induction false} FittingIsHarmless(b: seq<byte>, p: nat, i: nat, acc: nat)
    requires p <= i <= |b| && LengthsFit(b, p, i, acc)
    ensures Harmless(b, p, i, acc)
    decreases |b| - i
  {
    hide Wrap;
    if i < |b| {
      var e := i + 1 + acc;
      if IsDigit(b[i]) {
        FittingIsHarmless(b, p, i + 1, acc * 10 + (b[i] - 48));
      } else if b[i] == DOT && e < |b| && b[e] == COMMA {
        FittingIsHarmless(b, e + 1, e + 1, 0);
      }
    }
  }

  /** If some continuation is decided, no completed length field can be too large. */
  lemma {:induction false} DecidedLengthsFit(b: seq<byte>, e: seq<byte>, p: nat, i: nat, acc: nat)
    requires p <= i <= |b| && |b + e| < TWO63 && ScanAt(b + e, p, i, acc).Decided()
    ensures LengthsFit(b, p, i, acc)
    decreases |b| - i
  {
    if i < |b| {
      assert (b + e)[i] == b[i];
      if IsDigit(b[i]) {
        DecidedLengthsFit(b, e, p, i + 1, acc * 10 + (b[i] - 48));
      } else if b[i] == DOT {
        var t := i + 1 + acc;
        if t < |b| && b[t] == COMMA {
          assert (b + e)[t] == b[t];
          DecidedLengthsFit(b, e, t + 1, t + 1, 0);
        }
      }
    }
  }

  /** While a call works towards a head that is decided, every scan of its window, however the bytes
      have arrived so far, is the same in machine words. */
  lemma MachineWordsSuffice(b: Buf)
    requires b.Valid() && b.InSync() && NextFrame(b.Ahead()).Decided() && |b.Ahead()| < TWO63
    ensures MachineScan(b.live, b.parseStart) == Same(Scan(b.live, b.parseStart))
  {
    hide ScanAt, MachineScanAt, LengthsFit, Harmless;
    InSyncScan(b, Lead(b.events));
    DecidedLengthsFit(b.live, Lead(b.events), b.parseStart, b.parseStart, 0);
    FittingIsHarmless(b.live, b.parseStart, b.parseStart, 0);
    MachineAgreesIffHarmless(b.live, b.parseStart, b.parseStart, 0);
  }

  lemma MachineStep(b: seq<byte>, p: nat, i: nat, acc: nat)
    requires p <= i < |b| && IsDigit(b[i])
    ensures MachineScanAt(b, p, i, Wrap(acc)) == MachineScanAt(b, p, i + 1, Wrap(acc * 10 + (b[i] - 48)))
  {
    WrapDigit(acc, b[i] - 48);
    hide Wrap;
  }

  lemma {:induction false} MachineDigits(b: seq<byte>, p: nat, k: nat)
    requires p <= k <= |b| && AllDigits(b[p..k])
    ensures MachineScan(b, p) == MachineScanAt(b, p, k, Wrap(Value(b[p..k])))
    decreases k
  {
    hide Wrap, MachineScanAt;
    if p < k {
      assert IsDigit(b[p..k][k - 1 - p]);
      assert AllDigits(b[p..k - 1]) by {
        var front := b[p..k - 1];
        forall j | 0 <= j < |front| ensures IsDigit(front[j]) {
          assert front[j] == b[p..k][j];
        }
      }
      hide AllDigits;
      MachineDigits(b, p, k - 1);
      NextDigit(b, p, k - 1);
      MachineStep(b, p, k - 1, Value(b[p..k - 1]));
    } else {
      assert b[p..k] == [];
    }
  }

  lemma MachineEmptyField(b: seq<byte>, i: nat)
    requires i + 2 == |b| < TWO63 && b[i] == DOT && b[i + 1] == SEMICOLON
    ensures MachineScanAt(b, 0, i, 0) == Same(Frame(|b|))
  {
  }

  /** The bound matters: a field whose length is a positive multiple of 2^64 is taken for an empty one,
      where a mathematical reader still waits. */
  lemma HugeLengthReadsAsEmpty(k: nat)
    requires 0 < k
    ensures var b := Decimal(k * 18446744073709551616) + [DOT, SEMICOLON];
            |b| < TWO63 ==> NextFrame(b).NeedMore? && MachineScan(b, 0) == Same(Frame(|b|))
  {
    hide ScanAt;
    var d := Decimal(k * TWO64);
    var b := d + [DOT, SEMICOLON];
    assert b[0..|d|] == d && b[|d|] == DOT && b[|d| + 1] == SEMICOLON;
    if |b| < TWO63 {
      assert k * TWO64 >= TWO64;
      SkipDigits(b, 0, |d|, d);
      ScanStep(b, 0, |d|, k * TWO64);
      WrapShift(k * TWO64, k);
      MachineDigits(b, 0, |d|);
      assert MachineScan(b, 0) == MachineScanAt(b, 0, |d|, 0);
      MachineEmptyField(b, |d|);
    }
  }
}
