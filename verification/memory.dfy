/** Corrupted memory: scan a text for the instructions `mul(a,b)` (and, in
    the second part, `do()` and `don't()`), skipping one character wherever
    none starts, then add up the products; in the second part `don't()`
    switches the adding off and `do()` switches it back on. */
module Memory {
  import opened Common
  import Text

  datatype Instr = Mul(a: nat, b: nat) | Do | Dont

  // ---------------------------------------------------------------- tokens

  /** Does the text start with `tag`? */
  predicate StartsWith(s: string, tag: string) {
    |tag| <= |s| && s[..|tag|] == tag
  }

  /** Length of the leading run of ASCII digits. */
  function DigitRun(s: string): (n: nat)
    ensures n <= |s|
    ensures forall j :: 0 <= j < n ==> Text.IsDigit(s[j])
    ensures n < |s| ==> !Text.IsDigit(s[n])
  {
    if s != [] && Text.IsDigit(s[0]) then 1 + DigitRun(s[1..]) else 0
  }

  /** A `u32` token: the whole leading run of digits, which must be
      non-empty and below 2^32; its value and length. */
  function U32(s: string): (r: Option<(nat, nat)>)
    ensures r.Some? ==> 0 < r.value.1 <= |s| && r.value.0 < Text.U32_LIMIT
    ensures r.Some? ==> Text.AllDigits(s[..r.value.1]) && r.value.0 == Text.DecimalValue(s[..r.value.1])
    ensures r.Some? ==> r.value.1 == |s| || !Text.IsDigit(s[r.value.1])
  {
    var n := DigitRun(s);
    if n == 0 then None
    else
      var v := Text.DecimalValue(s[..n]);
      if v < Text.U32_LIMIT then Some((v, n)) else None
  }

  /** The `mul` parser: `mul(`, a `u32`, `,`, a `u32`, `)`. Gives the
      instruction and the number of characters it takes. */
  function MulAt(s: string): (r: Option<(Instr, nat)>)
    ensures r.Some? ==> r.value.0.Mul? && 8 <= r.value.1 <= |s|
    ensures r.Some? ==> StartsWith(s, "mul(") && s[r.value.1 - 1] == ')'
  {
    if !StartsWith(s, "mul(") then None
    else match U32(s[4..])
      case None => None
      case Some((a, n)) =>
        var i := 4 + n;
        if i < |s| && s[i] == ',' then
          match U32(s[i + 1..])
          case None => None
          case Some((b, m)) =>
            var j := i + 1 + m;
            if j < |s| && s[j] == ')' then Some((Mul(a, b), j + 1)) else None
        else None
  }

  /** Part one's `instruction`: a `mul` only. Part two's: `don't()` tried
      first, then `do()`, then `mul`. */
  function InstrAt(s: string, switches: bool): (r: Option<(Instr, nat)>)
    ensures r.Some? ==> 0 < r.value.1 <= |s|
    ensures r.Some? && !switches ==> r.value.0.Mul?
  {
    if switches && StartsWith(s, "don't()") then Some((Dont, 7))
    else if switches && StartsWith(s, "do()") then Some((Do, 4))
    else MulAt(s)
  }

  /** `many1(many_till(anychar, instruction))`, without the at-least-one
      check: at each position try an instruction, else skip one character. */
  function Scan(s: string, switches: bool): (r: seq<Instr>)
    decreases |s|
    ensures !switches ==> forall k :: 0 <= k < |r| ==> r[k].Mul?
  {
    if s == [] then []
    else match InstrAt(s, switches)
      case Some((ins, n)) => [ins] + Scan(s[n..], switches)
      case None => Scan(s[1..], switches)
  }

  /** `parse`: the instructions, or an error when there is none. */
  function Parse(s: string, switches: bool): (r: Option<seq<Instr>>)
    ensures r.Some? <==> Scan(s, switches) != []
    ensures r.Some? ==> r.value == Scan(s, switches)
  {
    var found := Scan(s, switches);
    if found == [] then None else Some(found)
  }

  // ---------------------------------------------------------------- rendering

  function Render(ins: Instr): string {
    match ins
    case Mul(a, b) => "mul(" + Text.ShowNat(a) + "," + Text.ShowNat(b) + ")"
    case Do => "do()"
    case Dont => "don't()"
  }

  predicate InRange(ins: Instr) {
    ins.Mul? ==> ins.a < Text.U32_LIMIT && ins.b < Text.U32_LIMIT
  }

  /** A rendered number followed by a non-digit is read back whole. */
  lemma U32Show(a: nat, rest: string)
    requires a < Text.U32_LIMIT && rest != [] && !Text.IsDigit(rest[0])
    ensures U32(Text.ShowNat(a) + rest) == Some((a, |Text.ShowNat(a)|))
  {
    var d := Text.ShowNat(a);
    var s := d + rest;
    DigitRunOf(d, rest);
    assert s[..|d|] == d;
    Text.ShowNatValue(a);
  }

  lemma {:induction false} DigitRunOf(d: string, rest: string)
    requires Text.AllDigits(d) && rest != [] && !Text.IsDigit(rest[0])
    ensures DigitRun(d + rest) == |d|
  {
    if d != [] {
      assert (d + rest)[1..] == d[1..] + rest;
      DigitRunOf(d[1..], rest);
    } else {
      assert d + rest == rest;
    }
  }

  /** A rendered `mul` in range is read back with its exact length. */
  lemma MulAtRender(a: nat, b: nat, rest: string)
    requires a < Text.U32_LIMIT && b < Text.U32_LIMIT
    ensures MulAt(Render(Mul(a, b)) + rest) == Some((Mul(a, b), |Render(Mul(a, b))|))
  {
    var da, db := Text.ShowNat(a), Text.ShowNat(b);
    var head := "mul(" + da + "," + db + ")";
    assert Render(Mul(a, b)) == head && |head| == 6 + |da| + |db|;
    assert U32(da + ("," + (db + (")" + rest)))) == Some((a, |da|)) by {
      U32Show(a, "," + (db + (")" + rest)));
    }
    assert U32(db + (")" + rest)) == Some((b, |db|)) by {
      U32Show(b, ")" + rest);
    }
    MulAtParts(a, da, b, db, rest);
    assert MulAt(head + rest) == Some((Mul(a, b), |head|));
  }

  /** `mul(`, a token read as `a`, `,`, a token read as `b` and `)`. */
  lemma MulAtParts(a: nat, da: string, b: nat, db: string, rest: string)
    requires U32(da + ("," + (db + (")" + rest)))) == Some((a, |da|))
    requires U32(db + (")" + rest)) == Some((b, |db|))
    ensures MulAt("mul(" + da + "," + db + ")" + rest) == Some((Mul(a, b), 6 + |da| + |db|))
  {
    MulAtNested(a, da, b, db, rest);
    var open, comma, close := "mul(", ",", ")";
    Associate(open + da + comma + db, close, rest);
    Associate(open + da + comma, db, close + rest);
    Associate(open + da, comma, db + (close + rest));
    Associate(open, da, comma + (db + (close + rest)));
  }

  lemma Associate(x: string, y: string, z: string)
    ensures x + y + z == x + (y + z)
  {
  }

  lemma MulAtNested(a: nat, da: string, b: nat, db: string, rest: string)
    requires U32(da + ("," + (db + (")" + rest)))) == Some((a, |da|))
    requires U32(db + (")" + rest)) == Some((b, |db|))
    ensures MulAt("mul(" + (da + ("," + (db + (")" + rest))))) == Some((Mul(a, b), 6 + |da| + |db|))
  {
    var tail := ")" + rest;
    var s := "mul(" + (da + ("," + (db + tail)));
    assert s[..4] == "mul(";
    assert s[4..] == da + ("," + (db + tail));
    assert s[4 + |da|] == ',';
    assert s[5 + |da|..] == db + tail;
    assert s[5 + |da| + |db|] == ')';
    MulAtOf(s, a, |da|, b, |db|);
  }

  /** `mul(`, a number token, `,`, a number token and `)` make a `mul`. */
  lemma MulAtOf(s: string, a: nat, n1: nat, b: nat, n2: nat)
    requires StartsWith(s, "mul(")
    requires U32(s[4..]) == Some((a, n1))
    requires 5 + n1 <= |s| && s[4 + n1] == ','
    requires U32(s[5 + n1..]) == Some((b, n2))
    requires 6 + n1 + n2 <= |s| && s[5 + n1 + n2] == ')'
    ensures MulAt(s) == Some((Mul(a, b), 6 + n1 + n2))
  {
  }

  /** A rendered instruction in range is read back with its exact length;
      `do()` is not mistaken for the start of `don't()`. */
  lemma InstrAtRender(ins: Instr, rest: string, switches: bool)
    requires InRange(ins) && (switches || ins.Mul?)
    ensures InstrAt(Render(ins) + rest, switches) == Some((ins, |Render(ins)|))
  {
    match ins
    case Mul(a, b) =>
      MulAtRender(a, b, rest);
      assert (Render(ins) + rest)[0] == 'm';
    case Do =>
      DoRender(rest);
    case Dont =>
      assert (Render(ins) + rest)[..7] == "don't()";
  }

  lemma DoRender(rest: string)
    ensures StartsWith("do()" + rest, "do()") && !StartsWith("do()" + rest, "don't()")
  {
    assert ("do()" + rest)[..4] == "do()";
    assert ("do()" + rest)[2] == '(';
  }

  /** A rendered instruction is collected and the scan goes on after it. */
  lemma ScanRender(ins: Instr, rest: string, switches: bool)
    requires InRange(ins) && (switches || ins.Mul?)
    ensures Scan(Render(ins) + rest, switches) == [ins] + Scan(rest, switches)
  {
    InstrAtRender(ins, rest, switches);
    assert (Render(ins) + rest)[|Render(ins)|..] == rest;
  }

  /** Text in which no instruction can start (no 'm', and no 'd' when the
      switches are read) is skipped a character at a time. */
  lemma {:induction false} ScanSkipsJunk(junk: string, rest: string, switches: bool)
    requires forall k :: 0 <= k < |junk| ==> junk[k] != 'm' && (switches ==> junk[k] != 'd')
    ensures Scan(junk + rest, switches) == Scan(rest, switches)
  {
    if junk != [] {
      var s := junk + rest;
      assert s[0] == junk[0];
      assert InstrAt(s, switches).None? by {
        assert !StartsWith(s, "mul(") by {
          assert s[0] != 'm';
        }
        assert switches ==> !StartsWith(s, "don't()") && !StartsWith(s, "do()") by {
          assert switches ==> s[0] != 'd';
        }
      }
      assert s[1..] == junk[1..] + rest;
      ScanSkipsJunk(junk[1..], rest, switches);
    } else {
      assert junk + rest == rest;
    }
  }

  // ---------------------------------------------------------------- adding up

  /** Part one: the sum of all products, which is at least each single
      product and zero when there are none. */
  function Products(ins: seq<Instr>): (r: nat)
    ensures forall k :: 0 <= k < |ins| && ins[k].Mul? ==> ins[k].a * ins[k].b <= r
    ensures (forall k :: 0 <= k < |ins| ==> !ins[k].Mul?) ==> r == 0
  {
    if ins == [] then 0
    else (if ins[0].Mul? then ins[0].a * ins[0].b else 0) + Products(ins[1..])
  }

  datatype Processing = Enabled | Disabled

  /** Part two's fold: `do()` enables and `don't()` disables whatever the
      state was; a product is added only while enabled. */
  function Run(ins: seq<Instr>, state: Processing, total: nat): (r: (Processing, nat))
    ensures r.1 >= total
  {
    if ins == [] then (state, total)
    else match ins[0]
      case Mul(a, b) => Run(ins[1..], state, if state == Enabled then total + a * b else total)
      case Do => Run(ins[1..], Enabled, total)
      case Dont => Run(ins[1..], Disabled, total)
  }

  /** Switching only ever drops products: the second sum is at most the first. */
  lemma {:induction false} RunAtMost(ins: seq<Instr>, state: Processing, total: nat)
    ensures Run(ins, state, total).1 <= total + Products(ins)
  {
    if ins != [] {
      match ins[0]
      case Mul(a, b) =>
        RunAtMost(ins[1..], state, if state == Enabled then total + a * b else total);
      case Do =>
        RunAtMost(ins[1..], Enabled, total);
      case Dont =>
        RunAtMost(ins[1..], Disabled, total);
    }
  }

  /** Without switches the fold, which starts enabled, adds every product. */
  lemma {:induction false} RunAllEnabled(ins: seq<Instr>, total: nat)
    requires forall k :: 0 <= k < |ins| ==> ins[k].Mul?
    ensures Run(ins, Enabled, total) == (Enabled, total + Products(ins))
  {
    if ins != [] {
      RunAllEnabled(ins[1..], total + ins[0].a * ins[0].b);
    }
  }

  /** After `don't()` the products up to the next `do()` are dropped: a
      disabled run over products alone adds nothing. */
  lemma {:induction false} RunDisabled(ins: seq<Instr>, total: nat)
    requires forall k :: 0 <= k < |ins| ==> ins[k].Mul?
    ensures Run(ins, Disabled, total) == (Disabled, total)
  {
    if ins != [] {
      RunDisabled(ins[1..], total);
    }
  }

  /** `process` of part one: an error when no `mul` is found. */
  function Part1(input: string): (r: Option<nat>)
    ensures r.Some? <==> Scan(input, false) != []
  {
    match Parse(input, false)
    case None => None
    case Some(ins) => Some(Products(ins))
  }

  /** `process` of part two, starting enabled from zero. */
  function Part2(input: string): (r: Option<nat>)
    ensures r.Some? <==> Scan(input, true) != []
  {
    match Parse(input, true)
    case None => None
    case Some(ins) => Some(Run(ins, Enabled, 0).1)
  }

  /** The second answer never exceeds the sum of the products it read. */
  lemma Part2Bound(input: string)
    requires Part2(input).Some?
    ensures Part2(input).value <= Products(Scan(input, true))
  {
    RunAtMost(Scan(input, true), Enabled, 0);
  }
}
