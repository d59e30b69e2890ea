/** Bytes, decimal numerals and the element grammar of the Guacamole wire format.

    An instruction is one or more fields "LENGTH.VALUE", separated by commas and closed by a
    semicolon; LENGTH counts the bytes of VALUE.  The grammar below is written without reference to
    any scanner, so that both the framer and the parser can be compared with it. */
module Wire {

  type byte = b: int | 0 <= b < 256

  const DOT: byte := 46
  const COMMA: byte := 44
  const SEMICOLON: byte := 59
  const ZERO: byte := 48

  predicate IsDigit(b: byte) {
    48 <= b <= 57
  }

  predicate AllDigits(s: seq<byte>) {
    forall k :: 0 <= k < |s| ==> IsDigit(s[k])
  }

  /** The number a digit string denotes; the empty string denotes 0, as in the framer's accumulator. */
  function Value(s: seq<byte>): nat
    requires AllDigits(s)
  {
    if s == [] then 0 else Value(s[..|s| - 1]) * 10 + (s[|s| - 1] - 48)
  }

  /** Decimal printing, as "%d" does for a length. */
  function Decimal(n: nat): (s: seq<byte>)
    ensures s != [] && AllDigits(s) && Value(s) == n
  {
    if n < 10 then [48 + n]
    else
      var front := Decimal(n / 10);
      var s := front + [48 + n % 10];
      assert s[..|s| - 1] == front;
      s
  }

  /** One field as it stands on the wire: the digits of the length and the value bytes. */
  datatype Field = Field(digits: seq<byte>, value: seq<byte>)

  predicate WellFormed(f: Field) {
    AllDigits(f.digits) && Value(f.digits) == |f.value|
  }

  predicate AllWellFormed(fs: seq<Field>) {
    forall k :: 0 <= k < |fs| ==> WellFormed(fs[k])
  }

  function FieldBytes(f: Field): seq<byte> {
    f.digits + [DOT] + f.value
  }

  /** Fields that are each followed by a comma: an instruction that still goes on. */
  function Heads(fs: seq<Field>): seq<byte> {
    if fs == [] then [] else FieldBytes(fs[0]) + [COMMA] + Heads(fs[1..])
  }

  /** Fields separated by commas, not yet closed. */
  function Open(fs: seq<Field>): seq<byte>
    requires fs != []
  {
    Heads(fs[..|fs| - 1]) + FieldBytes(fs[|fs| - 1])
  }

  /** A whole instruction. */
  function Render(fs: seq<Field>): seq<byte>
    requires fs != []
  {
    Open(fs) + [SEMICOLON]
  }

  ghost predicate IsFrame(x: seq<byte>) {
    exists fs: seq<Field> :: fs != [] && AllWellFormed(fs) && x == Render(fs)
  }

  function Values(fs: seq<Field>): (vs: seq<seq<byte>>)
    ensures |vs| == |fs| && forall k :: 0 <= k < |fs| ==> vs[k] == fs[k].value
  {
    seq(|fs|, k requires 0 <= k < |fs| => fs[k].value)
  }

  lemma Associative<T>(a: seq<T>, b: seq<T>, c: seq<T>)
    ensures (a + b) + c == a + (b + c)
  {
  }

  lemma {:induction false} HeadsAppend(fs: seq<Field>, gs: seq<Field>)
    ensures Heads(fs + gs) == Heads(fs) + Heads(gs)
  {
    if fs == [] {
      assert fs + gs == gs;
    } else {
      assert (fs + gs)[1..] == fs[1..] + gs;
      HeadsAppend(fs[1..], gs);
      Associative(FieldBytes(fs[0]) + [COMMA], Heads(fs[1..]), Heads(gs));
    }
  }

  lemma HeadsCons(f: Field, fs: seq<Field>)
    ensures Heads([f] + fs) == FieldBytes(f) + [COMMA] + Heads(fs)
  {
    assert ([f] + fs)[1..] == fs;
  }

  lemma RenderOne(f: Field)
    ensures Open([f]) == FieldBytes(f) && Render([f]) == FieldBytes(f) + [SEMICOLON]
  {
    assert [f][..0] == [];
  }

  lemma RenderCons(f: Field, fs: seq<Field>)
    requires fs != []
    ensures Render([f] + fs) == FieldBytes(f) + [COMMA] + Render(fs)
  {
    var all := [f] + fs;
    assert all[..|all| - 1] == [f] + fs[..|fs| - 1];
    HeadsCons(f, fs[..|fs| - 1]);
  }

  lemma OpenSnoc(fs: seq<Field>, f: Field)
    requires fs != []
    ensures Open(fs + [f]) == Open(fs) + ([COMMA] + FieldBytes(f))
  {
    var init, last := fs[..|fs| - 1], fs[|fs| - 1];
    assert (fs + [f])[..|fs|] == init + [last];
    HeadsAppend(init, [last]);
    HeadsCons(last, []);
    assert [last] + [] == [last];
  }

  function Concat(xs: seq<seq<byte>>): seq<byte> {
    if xs == [] then [] else xs[0] + Concat(xs[1..])
  }

  lemma {:induction false} ConcatAppend(xs: seq<seq<byte>>, ys: seq<seq<byte>>)
    ensures Concat(xs + ys) == Concat(xs) + Concat(ys)
  {
    if xs == [] {
      assert xs + ys == ys;
    } else {
      assert (xs + ys)[1..] == xs[1..] + ys;
      ConcatAppend(xs[1..], ys);
      Associative(xs[0], Concat(xs[1..]), Concat(ys));
    }
  }

  lemma ConcatSnoc(xs: seq<seq<byte>>, y: seq<byte>)
    ensures Concat(xs + [y]) == Concat(xs) + y
  {
    ConcatAppend(xs, [y]);
    assert Concat([y]) == y;
  }
}
