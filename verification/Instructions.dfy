/** Instructions: the caching printer, the parser that indexes without bounds checks, and the
    theorems that tie both to the wire grammar and to the framer. */
module Instructions {
  import opened Wire
  import opened Framing

  /** The contents of an instruction. */
  datatype Ins = Ins(opcode: seq<byte>, args: seq<seq<byte>>)

  /** The largest Go `int`; no Go string or slice is longer. */
  const MAX_INT: int := 0x7FFF_FFFF_FFFF_FFFF

  // ---------- Printing ----------

  function CanonicalField(v: seq<byte>): Field {
    Field(Decimal(|v|), v)
  }

  function CanonicalFields(vs: seq<seq<byte>>): (fs: seq<Field>)
    ensures |fs| == |vs| && AllWellFormed(fs)
    ensures forall k :: 0 <= k < |vs| ==> fs[k] == CanonicalField(vs[k])
  {
    seq(|vs|, k requires 0 <= k < |vs| => CanonicalField(vs[k]))
  }

  function Elements(i: Ins): seq<seq<byte>> {
    [i.opcode] + i.args
  }

  /** The wire form of an instruction. */
  function Encode(i: Ins): (x: seq<byte>)
    ensures IsFrame(x)
  {
    Render(CanonicalFields(Elements(i)))
  }

  class Instruction {
    var opcode: seq<byte>
    var args: seq<seq<byte>>
    var cache: seq<byte>

    function Contents(): Ins
      reads this
    {
      Ins(opcode, args)
    }

    /** The cache is either unset or up to date. */
    predicate Valid()
      reads this
    {
      cache == [] || cache == Encode(Contents())
    }

    constructor (opcode: seq<byte>, args: seq<seq<byte>>)
      ensures Valid() && Contents() == Ins(opcode, args)
    {
      this.opcode := opcode;
      this.args := args;
      this.cache := [];
    }

    method String() returns (s: seq<byte>)
      requires Valid()
      modifies this`cache
      ensures Valid() && cache != []
      ensures s == Encode(Contents())
    {
      if |cache| > 0 {
        return cache;
      }
      ghost var fs := CanonicalFields(Elements(Contents()));
      var text := Decimal(|opcode|) + [DOT] + opcode;
      RenderOne(fs[0]);
      assert fs[..1] == [fs[0]];
      for k := 0 to |args|
        invariant text == Open(fs[..k + 1])
      {
        assert fs[k + 1] == CanonicalField(args[k]);
        OpenSnoc(fs[..k + 1], fs[k + 1]);
        assert fs[..k + 2] == fs[..k + 1] + [fs[k + 1]];
        text := text + ([COMMA] + (Decimal(|args[k]|) + [DOT] + args[k]));
      }
      assert fs[..|args| + 1] == fs;
      cache := text + [SEMICOLON];
      return cache;
    }
  }

  // ---------- Parsing ----------

  /** Outcome of `Parse`.  `Crash` stands for a Go run-time panic: an index or slice out of range. */
  datatype ParseResult =
    | Parsed(ins: Ins)
    | Incomplete
    | WrongPattern
    | Crash

  datatype Option<T> = None | Some(value: T)

  /** `strconv.Atoi`: an optional sign, at least one digit, and a value that fits an `int`. */
  function Atoi(s: seq<byte>): Option<int> {
    var signed := s != [] && (s[0] == 43 || s[0] == 45);
    var digits := if signed then s[1..] else s;
    if digits == [] || !AllDigits(digits) then None
    else
      var v: int := if signed && s[0] == 45 then 0 - Value(digits) else Value(digits);
      if -MAX_INT - 1 <= v <= MAX_INT then Some(v) else None
  }

  /** Where the first '.' at or after `from` stands, or |data| when there is none. */
  function DotFrom(data: seq<byte>, from: nat): (k: nat)
    requires from <= |data|
    ensures from <= k <= |data|
    ensures k < |data| ==> data[k] == DOT
    ensures forall j :: from <= j < k ==> data[j] != DOT
    decreases |data| - from
  {
    if from == |data| || data[from] == DOT then from else DotFrom(data, from + 1)
  }

  /** What one turn of the parser's loop reads: an element that ends at its terminator, or the
      result that stops the parse. */
  datatype Element = Element(value: seq<byte>, end: nat) | Halt(result: ParseResult)

  function ParseElement(data: seq<byte>, start: nat): (e: Element)
    requires start < |data|
    ensures e.Element? ==> start < e.end < |data|
  {
    var dot := DotFrom(data, start);
    if dot == |data| then Halt(Incomplete)
    else
      match Atoi(data[start..dot])
      case None => Halt(WrongPattern)
      case Some(length) =>
        var end := dot + 1 + length;
        if length < 0 || end >= |data| then Halt(Crash) else Element(data[dot + 1..end], end)
  }

  /** All elements of an instruction, or the result that stops the parse. */
  datatype Collected = All(elements: seq<seq<byte>>) | Halted(result: ParseResult)

  /** The parser's loop from `start` on, with the elements collected so far. */
  function ParseAt(data: seq<byte>, start: nat, elements: seq<seq<byte>>): Collected
    requires start <= |data|
    decreases |data| - start
  {
    if start == |data| then All(elements)
    else
      match ParseElement(data, start)
      case Halt(r) => Halted(r)
      case Element(value, end) =>
        if data[end] == SEMICOLON then All(elements + [value])
        else ParseAt(data, end + 1, elements + [value])
  }

  /** Taking the opcode of an empty list of elements is out of range. */
  function Finish(c: Collected): ParseResult {
    match c
    case Halted(r) => r
    case All(elements) => if elements == [] then Crash else Parsed(Ins(elements[0], elements[1..]))
  }

  function ParseSpec(data: seq<byte>): ParseResult {
    Finish(ParseAt(data, 0, []))
  }

  lemma ParseStep(data: seq<byte>, p: nat, v: seq<byte>, q: nat, elements: seq<seq<byte>>)
    requires p < |data| && ParseElement(data, p) == Element(v, q)
    ensures data[q] == SEMICOLON ==> ParseAt(data, p, elements) == All(elements + [v])
    ensures data[q] != SEMICOLON ==> ParseAt(data, p, elements) == ParseAt(data, q + 1, elements + [v])
  {
  }

  /** The inner search loop of `Parse`: -1 when no '.' is left. */
  method FindLengthEnd(data: seq<byte>, elementStart: nat) returns (lengthEnd: int)
    requires elementStart <= |data|
    ensures lengthEnd == if DotFrom(data, elementStart) == |data| then -1 else DotFrom(data, elementStart)
  {
    var i := elementStart;
    while i < |data|
      invariant elementStart <= i <= |data|
      invariant DotFrom(data, i) == DotFrom(data, elementStart)
    {
      if data[i] == DOT {
        return i;
      }
      i := i + 1;
    }
    return -1;
  }

  /** One turn of the loop of `Parse`. */
  method NextElement(data: seq<byte>, start: nat) returns (e: Element)
    requires start < |data|
    ensures e == ParseElement(data, start)
  {
    hide Atoi, DotFrom;
    var lengthEnd := FindLengthEnd(data, start);
    if lengthEnd == -1 {
      return Halt(Incomplete);
    }
    var parsed := Atoi(data[start..lengthEnd]);
    if parsed.None? {
      return Halt(WrongPattern);
    }
    var length := parsed.value;
    var elementStart := lengthEnd + 1;
    if length < 0 || elementStart + length >= |data| {
      return Halt(Crash);
    }
    return Element(data[elementStart..elementStart + length], elementStart + length);
  }

  /** The loop of `Parse`. */
  method CollectElements(data: seq<byte>) returns (c: Collected)
    ensures c == ParseAt(data, 0, [])
  {
    hide ParseElement;
    var elementStart := 0;
    var elements: seq<seq<byte>> := [];
    while elementStart < |data|
      invariant 0 <= elementStart <= |data|
      invariant ParseAt(data, elementStart, elements) == ParseAt(data, 0, [])
    {
      var e := NextElement(data, elementStart);
      if e.Halt? {
        return Halted(e.result);
      }
      ParseStep(data, elementStart, e.value, e.end, elements);
      elements := elements + [e.value];
      elementStart := e.end + 1;
      if data[e.end] == SEMICOLON {
        return All(elements);
      }
    }
    return All(elements);
  }

  method Parse(data: seq<byte>) returns (r: ParseResult)
    ensures r == ParseSpec(data)
  {
    var c := CollectElements(data);
    return Finish(c);
  }

  // ---------- The parser on the grammar ----------

  predicate HaveDigits(fs: seq<Field>) {
    forall k :: 0 <= k < |fs| ==> fs[k].digits != []
  }

  lemma FieldLayout(data: seq<byte>, p: nat, f: Field)
    requires WellFormed(f)
    requires p + |FieldBytes(f)| <= |data| && data[p..p + |FieldBytes(f)|] == FieldBytes(f)
    ensures var d := p + |f.digits|;
            && data[p..d] == f.digits && data[d] == DOT
            && data[d + 1..p + |FieldBytes(f)|] == f.value
            && DotFrom(data, p) == d
  {
    var field := data[p..p + |FieldBytes(f)|];
    var d := p + |f.digits|;
    assert data[p..d] == field[..|f.digits|];
    forall j | p <= j < d ensures data[j] != DOT {
      assert data[j] == data[p..d][j - p];
    }
    assert data[d] == field[|f.digits|];
    assert data[d + 1..p + |FieldBytes(f)|] == field[|f.digits| + 1..];
  }

  lemma AtoiOfDigits(s: seq<byte>)
    requires s != [] && AllDigits(s) && Value(s) <= MAX_INT
    ensures Atoi(s) == Some(Value(s))
  {
    assert IsDigit(s[0]);
  }

  /** What "%d" and `strconv.Atoi` accept, in literal bytes: digits, or digits behind '+' (43) or '-'
      (45), as far as the value fits 64 bits; and nothing else. */
  lemma AtoiMeans(s: seq<byte>)
    ensures s != [] && AllDigits(s) ==>
              && Atoi(s) == (if Value(s) <= 9223372036854775807 then Some(Value(s)) else None)
              && Atoi([43] + s) == (if Value(s) <= 9223372036854775807 then Some(Value(s)) else None)
              && Atoi([45] + s) == (if Value(s) <= 9223372036854775808 then Some(0 - Value(s)) else None)
    ensures Atoi(s).Some? ==>
              || (s != [] && AllDigits(s))
              || (|s| > 1 && (s[0] == 43 || s[0] == 45) && AllDigits(s[1..]))
  {
    if s != [] && AllDigits(s) {
      AtoiPlain(s);
      AtoiSigned(43, s);
      AtoiSigned(45, s);
    }
    hide Value;
  }

  lemma AtoiPlain(s: seq<byte>)
    requires s != [] && AllDigits(s)
    ensures Atoi(s) == if Value(s) <= MAX_INT then Some(Value(s)) else None
  {
    hide Value;
    assert IsDigit(s[0]);
  }

  lemma AtoiSigned(sign: byte, s: seq<byte>)
    requires s != [] && AllDigits(s) && (sign == 43 || sign == 45)
    ensures var v: int := if sign == 45 then 0 - Value(s) else Value(s);
            Atoi([sign] + s) == if -MAX_INT - 1 <= v <= MAX_INT then Some(v) else None
  {
    hide Value;
    assert ([sign] + s)[1..] == s && ([sign] + s)[0] == sign;
  }

  /** The parser steps over one field exactly as the framer does, provided the length has a digit. */
  lemma ElementOfField(data: seq<byte>, p: nat, f: Field, q: nat)
    requires WellFormed(f) && |data| <= MAX_INT
    requires q == p + |FieldBytes(f)| < |data| && data[p..q] == FieldBytes(f)
    ensures f.digits == [] ==> ParseElement(data, p) == Halt(WrongPattern)
    ensures f.digits != [] ==> ParseElement(data, p) == Element(f.value, q)
  {
    hide *;
    FieldLayout(data, p, f);
    LengthOfField(f);
    ElementAt(data, p, p + |f.digits|);
  }

  lemma LengthOfField(f: Field)
    requires WellFormed(f)
    ensures |FieldBytes(f)| == |f.digits| + 1 + |f.value|
    ensures f.digits == [] ==> Atoi(f.digits) == None
    ensures f.digits != [] && |f.value| <= MAX_INT ==> Atoi(f.digits) == Some(|f.value|)
  {
    if f.digits != [] && |f.value| <= MAX_INT {
      AtoiOfDigits(f.digits);
    }
  }

  /** One turn of the parser, for proofs that hide its definition. */
  lemma ElementAt(data: seq<byte>, p: nat, d: nat)
    requires p <= d < |data| && DotFrom(data, p) == d
    ensures Atoi(data[p..d]) == None ==> ParseElement(data, p) == Halt(WrongPattern)
    ensures var a := Atoi(data[p..d]);
            a.Some? && a.value >= 0 && d + 1 + a.value < |data| ==>
              ParseElement(data, p) == Element(data[d + 1..d + 1 + a.value], d + 1 + a.value)
  {
    hide Atoi, DotFrom;
  }

  lemma RenderLayout(data: seq<byte>, p: nat, fs: seq<Field>)
    requires fs != [] && p + |Render(fs)| <= |data| && data[p..p + |Render(fs)|] == Render(fs)
    ensures var q := p + |FieldBytes(fs[0])|;
            && q < |data| && data[p..q] == FieldBytes(fs[0])
            && if |fs| == 1 then data[q] == SEMICOLON
               else && data[q] == COMMA && q + 1 + |Render(fs[1..])| == p + |Render(fs)|
                    && data[q + 1..p + |Render(fs)|] == Render(fs[1..])
  {
    var n := |FieldBytes(fs[0])|;
    var r := data[p..p + |Render(fs)|];
    assert fs == [fs[0]] + fs[1..];
    if |fs| == 1 {
      RenderOne(fs[0]);
    } else {
      RenderCons(fs[0], fs[1..]);
      assert data[p + n + 1..p + |r|] == r[n + 1..];
    }
    assert data[p..p + n] == r[..n];
    assert data[p + n] == r[n];
  }

  /** How the parser reads fields of the grammar. */
  function ReadAs(fs: seq<Field>, elements: seq<seq<byte>>): Collected {
    if HaveDigits(fs) then All(elements + Values(fs)) else Halted(WrongPattern)
  }

  lemma FieldLists(fs: seq<Field>)
    requires fs != []
    ensures Values(fs) == [fs[0].value] + Values(fs[1..])
    ensures HaveDigits(fs) <==> fs[0].digits != [] && HaveDigits(fs[1..])
    ensures |fs| == 1 ==> HaveDigits(fs[1..]) && Values(fs) == [fs[0].value]
  {
    assert fs == [fs[0]] + fs[1..];
  }

  lemma {:induction false} ParseFields(data: seq<byte>, p: nat, fs: seq<Field>, elements: seq<seq<byte>>)
    requires fs != [] && AllWellFormed(fs) && |data| <= MAX_INT
    requires p + |Render(fs)| <= |data| && data[p..p + |Render(fs)|] == Render(fs)
    ensures ParseAt(data, p, elements) == ReadAs(fs, elements)
    decreases |fs|
  {
    hide ParseElement, ParseAt, Values, HaveDigits, ReadAs;
    var q := p + |FieldBytes(fs[0])|;
    RenderLayout(data, p, fs);
    ElementOfField(data, p, fs[0], q);
    if |fs| > 1 {
      ParseFields(data, q + 1, fs[1..], elements + [fs[0].value]);
    }
    ParseCons(data, p, fs, q, elements);
  }

  lemma ParseCons(data: seq<byte>, p: nat, fs: seq<Field>, q: nat, elements: seq<seq<byte>>)
    requires fs != [] && p < q < |data|
    requires fs[0].digits == [] ==> ParseElement(data, p) == Halt(WrongPattern)
    requires fs[0].digits != [] ==> ParseElement(data, p) == Element(fs[0].value, q)
    requires |fs| == 1 ==> data[q] == SEMICOLON
    requires |fs| > 1 ==>
               && data[q] == COMMA
               && ParseAt(data, q + 1, elements + [fs[0].value]) ==
                    ReadAs(fs[1..], elements + [fs[0].value])
    ensures ParseAt(data, p, elements) == ReadAs(fs, elements)
  {
    FieldLists(fs);
    if fs[0].digits != [] {
      ParseStep(data, p, fs[0].value, q, elements);
      Associative(elements, [fs[0].value], Values(fs[1..]));
    }
  }

  /** Every frame has exactly one reading as fields, so "its length fields" is well defined. */
  lemma {:induction false} UniqueFields(fs: seq<Field>, gs: seq<Field>, r: seq<byte>, s: seq<byte>)
    requires fs != [] && gs != [] && AllWellFormed(fs) && AllWellFormed(gs)
    requires Render(fs) + r == Render(gs) + s
    ensures fs == gs
    decreases |fs|
  {
    hide Render, DotFrom;
    FirstField(fs, r);
    FirstField(gs, s);
    assert fs[0].digits == gs[0].digits;
    SameField(fs[0], gs[0]);
    assert fs == [fs[0]] + fs[1..] && gs == [gs[0]] + gs[1..];
    if |fs| > 1 {
      UniqueFields(fs[1..], gs[1..], r, s);
    }
  }

  lemma SameField(f: Field, g: Field)
    requires WellFormed(f) && WellFormed(g) && f.digits == g.digits
    requires FieldBytes(f) <= FieldBytes(g)
    ensures f == g
  {
    assert f.value == FieldBytes(f)[|f.digits| + 1..];
    assert g.value == FieldBytes(g)[|g.digits| + 1..];
  }

  lemma FirstField(fs: seq<Field>, r: seq<byte>)
    requires fs != [] && AllWellFormed(fs)
    ensures var b := Render(fs) + r;
            var n := |FieldBytes(fs[0])|;
            && n < |b| && b[..n] == FieldBytes(fs[0])
            && b[n] == (if |fs| == 1 then SEMICOLON else COMMA)
            && b[..|fs[0].digits|] == fs[0].digits
            && DotFrom(b, 0) == |fs[0].digits|
            && (|fs| > 1 ==> b[n + 1..] == Render(fs[1..]) + r)
  {
    var b := Render(fs) + r;
    assert b[0..|Render(fs)|] == Render(fs);
    RenderLayout(b, 0, fs);
    FieldLayout(b, 0, fs[0]);
  }

  /** The fields of a frame. */
  ghost function FieldsOf(x: seq<byte>): (fs: seq<Field>)
    requires IsFrame(x)
    ensures fs != [] && AllWellFormed(fs) && x == Render(fs)
  {
    var fs: seq<Field> :| fs != [] && AllWellFormed(fs) && x == Render(fs);
    fs
  }

  /** Framer and parser agree although they scan differently: on every frame the framer cuts from any
      stream, the parser stays in bounds; it accepts exactly when each length field has a digit, and
      then yields the values between the framer's own element boundaries. */
  lemma FramerParserAgree(w: seq<byte>, n: nat)
    requires NextFrame(w) == Frame(n) && |w| <= MAX_INT
    ensures IsFrame(w[..n])
    ensures HaveDigits(FieldsOf(w[..n])) ==>
              var vs := Values(FieldsOf(w[..n])); ParseSpec(w[..n]) == Parsed(Ins(vs[0], vs[1..]))
    ensures !HaveDigits(FieldsOf(w[..n])) ==> ParseSpec(w[..n]) == WrongPattern
  {
    FrameIffGrammar(w, n);
    var fs := FieldsOf(w[..n]);
    assert w[..n][0..|Render(fs)|] == Render(fs);
    ParseFields(w[..n], 0, fs, []);
    assert [] + Values(fs) == Values(fs);
  }

  /** They can disagree: a field whose length has no digit, as in ".;", is framed and then refused. */
  lemma EmptyLengthIsRefused()
    ensures NextFrame([DOT, SEMICOLON]) == Frame(2) && ParseSpec([DOT, SEMICOLON]) == WrongPattern
  {
    assert [DOT, SEMICOLON][0..0] == [];
  }

  /** Printer and parser round trip, for any bytes in the values and any bytes after the instruction. */
  lemma RoundTrip(i: Ins, rest: seq<byte>)
    requires |Encode(i) + rest| <= MAX_INT
    ensures ParseSpec(Encode(i) + rest) == Parsed(i)
    ensures NextFrame(Encode(i) + rest) == Frame(|Encode(i)|)
  {
    var fs := CanonicalFields(Elements(i));
    ScanRender(fs, rest);
    var data := Encode(i) + rest;
    assert data[0..|Render(fs)|] == Render(fs);
    ParseFields(data, 0, fs, []);
    assert [] + Values(fs) == Elements(i);
    assert Elements(i)[1..] == i.args;
  }

  lemma EncodeInjective(i: Ins, j: Ins)
    requires Encode(i) == Encode(j)
    ensures i == j
  {
    var fs, gs := CanonicalFields(Elements(i)), CanonicalFields(Elements(j));
    assert Render(fs) + [] == Render(gs) + [];
    UniqueFields(fs, gs, [], []);
    assert Elements(i) == Values(fs) == Values(gs) == Elements(j);
    assert Elements(i)[1..] == i.args && Elements(j)[1..] == j.args;
  }

  lemma EncodeTwo(opcode: seq<byte>, arg: seq<byte>)
    ensures Encode(Ins(opcode, [arg]))
            == FieldBytes(CanonicalField(opcode)) + [COMMA] + FieldBytes(CanonicalField(arg)) + [SEMICOLON]
  {
    hide FieldBytes;
    assert CanonicalFields(Elements(Ins(opcode, [arg]))) == [CanonicalField(opcode)] + [CanonicalField(arg)];
    RenderCons(CanonicalField(opcode), [CanonicalField(arg)]);
    RenderOne(CanonicalField(arg));
  }

  /** The printed text, byte for byte: "1.a,10.0123456789;". */
  lemma PrintedText()
    ensures Encode(Ins([97], [[48, 49, 50, 51, 52, 53, 54, 55, 56, 57]]))
            == [49, 46, 97] + [44] + ([49, 48, 46] + [48, 49, 50, 51, 52, 53, 54, 55, 56, 57]) + [59]
  {
    var opcode: seq<byte> := [97];
    var arg: seq<byte> := [48, 49, 50, 51, 52, 53, 54, 55, 56, 57];
    EncodeTwo(opcode, arg);
    hide Encode;
    SmallNumerals();
    assert |opcode| == 1 && |arg| == 10;
    hide Decimal;
    assert FieldBytes(CanonicalField(opcode)) == [49] + [46] + opcode;
    assert FieldBytes(CanonicalField(arg)) == [49, 48] + [46] + arg;
    hide *;
    assert [49] + [46] + opcode == [49, 46, 97] && [49, 48] + [46] == [49, 48, 46];
  }

  lemma SmallNumerals()
    ensures Decimal(1) == [49] && Decimal(10) == [49, 48]
  {
    assert Decimal(10) == Decimal(1) + [48];
  }

  /** The parser on bytes that are no instruction.  It looks at terminators only for the semicolon, so
      "1.a?1.b" followed by '!' is the instruction "a" with argument "b". */
  lemma ParserIsLax()
    ensures ParseSpec([49, 46, 97, 63, 49, 46, 98, 33]) == Parsed(Ins([97], [[98]]))
  {
    OneDigit();
    var lax: seq<byte> := [49, 46, 97, 63, 49, 46, 98, 33];
    assert lax[0..1] == [49] && lax[2..3] == [97] && lax[4..5] == [49] && lax[6..7] == [98];
    hide Atoi;
    ElementAt(lax, 0, 1);
    ElementAt(lax, 4, 5);
    hide ParseElement;
    ParseStep(lax, 0, [97], 3, []);
    ParseStep(lax, 4, [98], 7, [[97]]);
    assert [] + [[97]] == [[97]] && [[97]] + [[98]] == [[97], [98]];
    assert [[97], [98]][1..] == [[98]];
  }

  /** Further: "1" has no '.' and "x.a;" no length; and the parser indexes out of range on the empty
      string, on a length that is too large ("5.a;") and on a negative one ("-1.a;"). */
  lemma ParserOnMalformedBytes()
    ensures ParseSpec([49]) == Incomplete && ParseSpec([120, 46, 97, 59]) == WrongPattern
    ensures ParseSpec([]) == Crash && ParseSpec([53, 46, 97, 59]) == Crash && ParseSpec([45, 49, 46, 97, 59]) == Crash
  {
    OneDigit();
    AtoiMeans([49]);
    AtoiMeans([120]);
    var none: seq<byte> := [120, 46, 97, 59];
    assert none[0..1] == [120] && !IsDigit(none[0]);
    var large: seq<byte> := [53, 46, 97, 59];
    assert large[0..1] == [53];
    var negative: seq<byte> := [45, 49, 46, 97, 59];
    assert negative[0..2] == [45] + [49];
    hide Atoi;
    assert ParseElement([49], 0) == Halt(Incomplete);
    assert DotFrom(none, 0) == 1 && ParseElement(none, 0) == Halt(WrongPattern);
    assert DotFrom(large, 0) == 1 && ParseElement(large, 0) == Halt(Crash);
    assert DotFrom(negative, 0) == 2 && ParseElement(negative, 0) == Halt(Crash);
  }

  lemma OneDigit()
    ensures Atoi([49]) == Some(1) && Atoi([53]) == Some(5) && Value([49]) == 1
  {
    assert Value([49]) == 1 && Value([53]) == 5;
  }

  // ---------- Lists of instructions and the end marker ----------

  function EncodeEach(xs: seq<Ins>): (es: seq<seq<byte>>)
    ensures |es| == |xs| && forall k :: 0 <= k < |xs| ==> es[k] == Encode(xs[k])
  {
    seq(|xs|, k requires 0 <= k < |xs| => Encode(xs[k]))
  }

  function EncodeAll(xs: seq<Ins>): seq<byte> {
    Concat(EncodeEach(xs))
  }

  /** Cut a stream into frames and parse each; frames the parser refuses are kept as such. */
  function DecodeAll(w: seq<byte>): (rs: seq<ParseResult>)
    ensures |rs| == |Frames(w)| && forall k :: 0 <= k < |rs| ==> rs[k] == ParseSpec(Frames(w)[k])
  {
    seq(|Frames(w)|, k requires 0 <= k < |Frames(w)| => ParseSpec(Frames(w)[k]))
  }

  function AllParsed(xs: seq<Ins>): (rs: seq<ParseResult>)
    ensures |rs| == |xs| && forall k :: 0 <= k < |xs| ==> rs[k] == Parsed(xs[k])
  {
    seq(|xs|, k requires 0 <= k < |xs| => Parsed(xs[k]))
  }

  lemma {:induction false} PieceNotLonger(xs: seq<seq<byte>>, k: nat)
    requires k < |xs|
    ensures |xs[k]| <= |Concat(xs)|
  {
    if k > 0 {
      PieceNotLonger(xs[1..], k - 1);
    }
  }

  /** Unique decoding of a stream of instructions. */
  lemma DecodeEncodeAll(xs: seq<Ins>)
    requires |EncodeAll(xs)| <= MAX_INT
    ensures Frames(EncodeAll(xs)) == EncodeEach(xs)
    ensures DecodeAll(EncodeAll(xs)) == AllParsed(xs)
  {
    var es := EncodeEach(xs);
    FramesOfConcat(es, []);
    assert Concat(es) + [] == Concat(es) && es + Frames([]) == es;
    forall k | 0 <= k < |xs| ensures ParseSpec(es[k]) == Parsed(xs[k]) {
      PieceNotLonger(es, k);
      assert es[k] + [] == es[k];
      RoundTrip(xs[k], []);
    }
  }

  /** The bytes "0." that open an instruction with the internal opcode. */
  const INTERNAL_PREFIX: seq<byte> := [ZERO, DOT]

  /** The marker "0.;" that closes a read response. */
  const END_MARKER: seq<byte> := [ZERO, DOT, SEMICOLON]

  lemma {:induction false} DecimalLeadingZero(n: nat)
    ensures Decimal(n)[0] == ZERO <==> n == 0
  {
    if n >= 10 {
      DecimalLeadingZero(n / 10);
      assert Decimal(n)[0] == Decimal(n / 10)[0];
    }
  }

  /** A canonical encoding starts with "0." exactly when its opcode is the internal one. */
  lemma InternalPrefixIffEmptyOpcode(i: Ins)
    ensures INTERNAL_PREFIX <= Encode(i) <==> i.opcode == []
  {
    var x := Encode(i);
    var d := Decimal(|i.opcode|);
    EncodingStarts(i);
    DecimalLeadingZero(|i.opcode|);
    assert x[0] == x[..|d|][0] == d[0];
    hide Encode, Decimal;
    if i.opcode == [] {
      assert x[..2] == [d[0], DOT] == INTERNAL_PREFIX;
    }
  }

  lemma EncodingStarts(i: Ins)
    ensures var x, d := Encode(i), Decimal(|i.opcode|);
            && |d| < |x| && x[..|d|] == d && x[|d|] == DOT && (i.opcode == [] ==> |d| == 1)
  {
    var fs := CanonicalFields(Elements(i));
    var x := Encode(i);
    FirstField(fs, []);
    assert x + [] == x && fs[0] == Field(Decimal(|i.opcode|), i.opcode);
  }

  lemma EndMarkerIsInternal()
    ensures END_MARKER == Encode(Ins([], [])) == [48, 46, 59]
    ensures INTERNAL_PREFIX == [48, 46]
  {
    var fs := CanonicalFields(Elements(Ins([], [])));
    assert fs == [Field([ZERO], [])] && fs[..0] == [];
  }

  // ---------- Internal instructions among arbitrary frames ----------

  /** The parser reads an instruction with the empty opcode. */
  predicate SaysInternal(x: seq<byte>) {
    ParseSpec(x).Parsed? && ParseSpec(x).ins.opcode == []
  }

  lemma PrefixIsFirstDigits(x: seq<byte>)
    requires IsFrame(x)
    ensures INTERNAL_PREFIX <= x <==> FieldsOf(x)[0].digits == [ZERO]
  {
    var fs := FieldsOf(x);
    var d := fs[0].digits;
    FirstField(fs, []);
    assert x + [] == x && x[|d|] == FieldBytes(fs[0])[|d|] == DOT;
    if INTERNAL_PREFIX <= x {
      assert x[0] == INTERNAL_PREFIX[0] && x[1] == INTERNAL_PREFIX[1];
      assert d == [x[0]];
    }
    if d == [ZERO] {
      assert x[..2] == [d[0], DOT] == INTERNAL_PREFIX;
    }
  }

  lemma ZeroInOneDigit(f: Field)
    requires WellFormed(f)
    ensures f.digits == [ZERO] <==> f.value == [] && |f.digits| == 1
  {
    if |f.digits| == 1 {
      assert f.digits == [f.digits[0]] && Value([]) == 0;
    }
  }

  lemma OpcodeOfFrame(x: seq<byte>)
    requires IsFrame(x) && |x| <= MAX_INT
    ensures SaysInternal(x) <==> HaveDigits(FieldsOf(x)) && FieldsOf(x)[0].value == []
  {
    hide ParseSpec;
    assert x[..|x|] == x;
    FrameIffGrammar(x, |x|);
    FramerParserAgree(x, |x|);
  }

  /** The pump takes a frame for internal by its first two bytes, a client by its opcode.  On a frame
      that parses they agree if and only if an empty opcode has a length of one digit. */
  lemma PrefixTellsInternalIff(x: seq<byte>)
    requires IsFrame(x) && |x| <= MAX_INT && HaveDigits(FieldsOf(x))
    ensures INTERNAL_PREFIX <= x ==> SaysInternal(x)
    ensures (INTERNAL_PREFIX <= x <==> SaysInternal(x)) <==>
            (FieldsOf(x)[0].value == [] ==> |FieldsOf(x)[0].digits| == 1)
  {
    hide SaysInternal, WellFormed, Value;
    OpcodeOfFrame(x);
    PrefixIsFirstDigits(x);
    assert WellFormed(FieldsOf(x)[0]);
    ZeroInOneDigit(FieldsOf(x)[0]);
  }

  /** They can differ: "00.;" has the empty opcode and passes for an ordinary instruction. */
  lemma DoubleZeroIsMissed()
    ensures var x := [ZERO, ZERO, DOT, SEMICOLON];
            IsFrame(x) && SaysInternal(x) && !(INTERNAL_PREFIX <= x)
  {
    var x := [ZERO, ZERO, DOT, SEMICOLON];
    var f := DoubleZero();
    assert AllWellFormed([f]) && x == Render([f]);
    UniqueFields(FieldsOf(x), [f], [], []);
    hide SaysInternal;
    OpcodeOfFrame(x);
    assert x[1] != INTERNAL_PREFIX[1];
  }

  function DoubleZero(): (f: Field)
    ensures WellFormed(f) && f == Field([ZERO, ZERO], []) && Render([f]) == [ZERO, ZERO, DOT, SEMICOLON]
  {
    var d: seq<byte> := [ZERO, ZERO];
    var f := Field(d, []);
    assert d[..1] == [ZERO] && Value([ZERO]) == 0;
    assert Value(d) == Value(d[..1]) * 10;
    RenderOne(f);
    f
  }

  /** What a client keeps of the frames of a body: those before the first internal one. */
  function UntilInternal(fs: seq<seq<byte>>): seq<seq<byte>> {
    if fs == [] || SaysInternal(fs[0]) then [] else [fs[0]] + UntilInternal(fs[1..])
  }

  lemma {:induction false} UntilInternalExact(fs: seq<seq<byte>>, m: seq<byte>)
    requires SaysInternal(m)
    ensures UntilInternal(fs + [m]) == fs <==> forall x :: x in fs ==> !SaysInternal(x)
    decreases |fs|
  {
    hide SaysInternal;
    var all := fs + [m];
    if fs == [] {
      assert all == [m];
    } else {
      assert all[1..] == fs[1..] + [m] && fs == [fs[0]] + fs[1..];
      UntilInternalExact(fs[1..], m);
      assert forall x :: x in fs <==> x == fs[0] || x in fs[1..];
      if !SaysInternal(fs[0]) {
        var rest := UntilInternal(all[1..]);
        assert UntilInternal(all) == [fs[0]] + rest && ([fs[0]] + rest)[1..] == rest;
      }
    }
  }

  lemma EncodingSaysInternal(i: Ins)
    requires |Encode(i)| <= MAX_INT
    ensures SaysInternal(Encode(i)) <==> i.opcode == []
  {
    RoundTrip(i, []);
    assert Encode(i) + [] == Encode(i);
  }

  /** Canonical encodings followed by the end marker decode to those instructions and one internal
      instruction that ends at the last byte; and a client that stops at the first internal
      instruction gets all of them if and only if none of them is internal. */
  lemma EndMarkerUnambiguous(xs: seq<Ins>)
    requires |EncodeAll(xs) + END_MARKER| <= MAX_INT
    ensures var body := EncodeAll(xs) + END_MARKER;
            && Concat(Frames(body)) == body
            && DecodeAll(body) == AllParsed(xs + [Ins([], [])])
            && (UntilInternal(Frames(body)) == EncodeEach(xs)
                <==> forall k :: 0 <= k < |xs| ==> xs[k].opcode != [])
  {
    hide Encode, SaysInternal, Frames, DecodeAll, AllParsed, UntilInternal;
    var m := Ins([], []);
    EndMarkerIsInternal();
    var es := EncodeEach(xs);
    assert EncodeEach(xs + [m]) == es + [END_MARKER];
    ConcatSnoc(es, END_MARKER);
    DecodeEncodeAll(xs + [m]);
    EncodingSaysInternal(m);
    UntilInternalExact(es, END_MARKER);
    forall k | 0 <= k < |xs| ensures SaysInternal(es[k]) <==> xs[k].opcode == [] {
      PieceNotLonger(es, k);
      EncodingSaysInternal(xs[k]);
    }
  }
}
