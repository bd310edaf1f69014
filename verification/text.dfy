/** The few string operations of Rust's standard library that the puzzle
    parsers rely on: `str::lines`, `str::split_once`, `str::trim`,
    `str::split_whitespace` and `str::parse` for unsigned integers. */
module Text {
  import opened Common

  /** Does `sep` occur in `s` starting at index `i`? */
  predicate OccursAt(s: string, i: nat, sep: string) {
    i + |sep| <= |s| && s[i..i + |sep|] == sep
  }

  /** Index of the first occurrence of `sep` in `s` at or after `from`. */
  function FindFrom(s: string, sep: string, from: nat): (r: Option<nat>)
    decreases |s| - from
    ensures r.Some? ==> from <= r.value && OccursAt(s, r.value, sep)
    ensures r.Some? ==> forall j :: from <= j < r.value ==> !OccursAt(s, j, sep)
    ensures r.None? ==> forall j :: from <= j ==> !OccursAt(s, j, sep)
  {
    if from + |sep| > |s| then None
    else if s[from..from + |sep|] == sep then Some(from)
    else FindFrom(s, sep, from + 1)
  }

  /** `s.split_once(sep)`: the text before and after the first occurrence of `sep`. */
  function SplitOnce(s: string, sep: string): (r: Option<(string, string)>)
    ensures r.Some? ==> s == r.value.0 + sep + r.value.1
    ensures r.Some? ==> forall j :: 0 <= j < |r.value.0| ==> !OccursAt(s, j, sep)
    ensures r.None? <==> forall j :: 0 <= j ==> !OccursAt(s, j, sep)
  {
    match FindFrom(s, sep, 0)
    case None => None
    case Some(i) =>
      assert s == s[..i] + s[i..i + |sep|] + s[i + |sep|..];
      Some((s[..i], s[i + |sep|..]))
  }

  /** Splitting at the first separator recovers the parts of any text that
      joins a separator-free head to an arbitrary tail. */
  lemma SplitOnceJoin(a: string, sep: string, b: string)
    requires forall j :: 0 <= j ==> !OccursAt(a + sep, j, sep) || j >= |a|
    ensures SplitOnce(a + sep + b, sep) == Some((a, b))
  {
    var s := a + sep + b;
    assert OccursAt(s, |a|, sep) by {
      assert s[|a|..|a| + |sep|] == sep;
    }
    forall j | 0 <= j < |a|
      ensures !OccursAt(s, j, sep)
    {
      if OccursAt(s, j, sep) {
        assert j + |sep| <= |a| + |sep|;
        assert (a + sep)[j..j + |sep|] == s[j..j + |sep|];
        assert OccursAt(a + sep, j, sep);
      }
    }
    var r := SplitOnce(s, sep);
    assert r.Some?;
    assert |r.value.0| == |a| by {
      if |r.value.0| < |a| {
        assert OccursAt(s, |r.value.0|, sep) by {
          assert s[|r.value.0|..|r.value.0| + |sep|] == sep;
        }
      }
    }
    assert r.value.0 == s[..|a|] == a;
    assert r.value.1 == s[|a| + |sep|..] == b;
  }

  /** Index of the first '\n' in `s`, or |s|. */
  function LineEnd(s: string): (i: nat)
    ensures i <= |s|
    ensures forall j :: 0 <= j < i ==> s[j] != '\n'
    ensures i < |s| ==> s[i] == '\n'
  {
    if s == [] || s[0] == '\n' then 0 else 1 + LineEnd(s[1..])
  }

  /** A line taken from before a '\n' loses one trailing '\r'. */
  function StripCR(line: string): string {
    if |line| > 0 && line[|line| - 1] == '\r' then line[..|line| - 1] else line
  }

  /** `s.lines()`: the text is cut at every '\n'; a line ended by "\r\n" loses
      the '\r' too; a final line break does not start an empty last line. */
  function Lines(s: string): (ls: seq<string>)
    ensures forall i, j :: 0 <= i < |ls| && 0 <= j < |ls[i]| ==> ls[i][j] != '\n'
    ensures s == [] <==> ls == []
  {
    if s == [] then []
    else
      var i := LineEnd(s);
      if i == |s| then [s]
      else [StripCR(s[..i])] + Lines(s[i + 1..])
  }

  /** Each line followed by a line break. */
  function JoinLines(ls: seq<string>): string {
    if ls == [] then [] else ls[0] + "\n" + JoinLines(ls[1..])
  }

  /** `lines` undoes `JoinLines` for lines that hold no line break and do not
      end in a carriage return. */
  lemma {:induction false} LinesJoinLines(ls: seq<string>)
    requires forall i, j :: 0 <= i < |ls| && 0 <= j < |ls[i]| ==> ls[i][j] != '\n'
    requires forall i :: 0 <= i < |ls| && |ls[i]| > 0 ==> ls[i][|ls[i]| - 1] != '\r'
    ensures Lines(JoinLines(ls)) == ls
  {
    if ls != [] {
      var s := JoinLines(ls);
      var l := ls[0];
      assert s == l + ("\n" + JoinLines(ls[1..]));
      LineEndOf(l, "\n" + JoinLines(ls[1..]));
      assert s[..|l|] == l;
      assert s[|l| + 1..] == JoinLines(ls[1..]);
      LinesJoinLines(ls[1..]);
    }
  }

  /** The line end of a line-free head followed by a line break. */
  lemma {:induction false} LineEndOf(l: string, rest: string)
    requires forall j :: 0 <= j < |l| ==> l[j] != '\n'
    requires |rest| > 0 && rest[0] == '\n'
    ensures LineEnd(l + rest) == |l|
  {
    if l != [] {
      assert (l + rest)[1..] == l[1..] + rest;
      LineEndOf(l[1..], rest);
    } else {
      assert l + rest == rest;
    }
  }

  /** Rust's `char::is_whitespace`: the Unicode White_Space property. */
  predicate IsWhitespace(c: char) {
    ('\U{9}' <= c <= '\U{D}') || c == ' ' || c == '\U{85}' || c == '\U{A0}'
    || c == '\U{1680}' || ('\U{2000}' <= c <= '\U{200A}') || c == '\U{2028}'
    || c == '\U{2029}' || c == '\U{202F}' || c == '\U{205F}' || c == '\U{3000}'
  }

  function TrimStart(s: string): (r: string)
    ensures |r| <= |s| && r == s[|s| - |r|..]
    ensures r == [] || !IsWhitespace(r[0])
    ensures forall j :: 0 <= j < |s| - |r| ==> IsWhitespace(s[j])
  {
    if s != [] && IsWhitespace(s[0]) then TrimStart(s[1..]) else s
  }

  function TrimEnd(s: string): (r: string)
    ensures |r| <= |s| && r == s[..|r|]
    ensures r == [] || !IsWhitespace(r[|r| - 1])
    ensures forall j :: |r| <= j < |s| ==> IsWhitespace(s[j])
  {
    if s != [] && IsWhitespace(s[|s| - 1]) then TrimEnd(s[..|s| - 1]) else s
  }

  /** `s.trim()`: leading and trailing white space removed. */
  function Trim(s: string): string {
    TrimEnd(TrimStart(s))
  }

  /** A non-empty run of characters none of which is white space. */
  predicate IsWord(w: string) {
    |w| > 0 && forall j :: 0 <= j < |w| ==> !IsWhitespace(w[j])
  }

  /** `s.split_whitespace()`: the maximal runs of non-white-space characters. */
  function SplitWhitespace(s: string): (ws: seq<string>)
    decreases |s|
    ensures forall i :: 0 <= i < |ws| ==> IsWord(ws[i])
  {
    var t := TrimStart(s);
    if t == [] then []
    else
      var n := WordLength(t);
      var w := t[..n];
      assert IsWord(w);
      var rest := SplitWhitespace(t[n..]);
      WordsCons(w, rest);
      [w] + rest
  }

  lemma WordsCons(w: string, rest: seq<string>)
    requires IsWord(w) && forall i :: 0 <= i < |rest| ==> IsWord(rest[i])
    ensures forall i :: 0 <= i < |rest| + 1 ==> IsWord(([w] + rest)[i])
  {
  }

  /** Length of the leading run of non-white-space characters. */
  function WordLength(s: string): (n: nat)
    ensures n <= |s|
    ensures forall j :: 0 <= j < n ==> !IsWhitespace(s[j])
    ensures n < |s| ==> IsWhitespace(s[n])
  {
    if s == [] || IsWhitespace(s[0]) then 0 else 1 + WordLength(s[1..])
  }

  /** Words joined with single spaces. */
  function Unwords(ws: seq<string>): string {
    if ws == [] then []
    else if |ws| == 1 then ws[0]
    else ws[0] + " " + Unwords(ws[1..])
  }

  /** Splitting at white space recovers the words that were joined with spaces. */
  lemma {:induction false} SplitUnwords(ws: seq<string>)
    requires forall i :: 0 <= i < |ws| ==> IsWord(ws[i])
    ensures SplitWhitespace(Unwords(ws)) == ws
  {
    if |ws| == 1 {
      SplitOneWord(ws[0]);
      assert ws == [ws[0]];
    } else if |ws| > 1 {
      SplitUnwords(ws[1..]);
      SplitUnwordsCons(ws);
      UnwordsCons(ws);
    }
  }

  lemma SplitOneWord(w: string)
    requires IsWord(w)
    ensures SplitWhitespace(w) == [w]
  {
    var e: string := [];
    assert w + e == w;
    SplitWordThen(w, e);
    assert SplitWhitespace(e) == [] by {
      assert TrimStart(e) == [];
    }
    assert [w] + [] == [w];
  }

  lemma SplitUnwordsCons(ws: seq<string>)
    requires |ws| > 1 && IsWord(ws[0])
    requires SplitWhitespace(Unwords(ws[1..])) == ws[1..]
    ensures SplitWhitespace(ws[0] + (" " + Unwords(ws[1..]))) == ws
  {
    var w, tail := ws[0], ws[1..];
    var rest := Unwords(tail);
    var spaced := " " + rest;
    assert spaced[0] == ' ';
    SplitWordThen(w, spaced);
    SplitSpaceThen(rest);
    ConsSplit(ws);
  }

  lemma ConsSplit(ws: seq<string>)
    requires ws != []
    ensures [ws[0]] + ws[1..] == ws
  {
  }

  lemma UnwordsCons(ws: seq<string>)
    requires |ws| > 1
    ensures Unwords(ws) == ws[0] + (" " + Unwords(ws[1..]))
  {
  }

  /** A word followed by white space (or nothing) is split off first. */
  lemma SplitWordThen(w: string, rest: string)
    requires IsWord(w)
    requires rest == [] || IsWhitespace(rest[0])
    ensures SplitWhitespace(w + rest) == [w] + SplitWhitespace(rest)
  {
    var s := w + rest;
    assert TrimStart(s) == s;
    WordLengthOf(w, rest);
    assert s[..|w|] == w;
    assert s[|w|..] == rest;
  }

  /** A leading space is skipped. */
  lemma SplitSpaceThen(rest: string)
    ensures SplitWhitespace(" " + rest) == SplitWhitespace(rest)
  {
    assert (" " + rest)[1..] == rest;
    assert TrimStart(" " + rest) == TrimStart(rest);
    var t := TrimStart(rest);
    assert TrimStart(t) == t;
  }

  lemma UnwordsStart(ws: seq<string>)
    requires |ws| > 0 && |ws[0]| > 0
    ensures |Unwords(ws)| > 0 && Unwords(ws)[0] == ws[0][0]
  {
  }

  lemma {:induction false} WordLengthOf(w: string, rest: string)
    requires forall j :: 0 <= j < |w| ==> !IsWhitespace(w[j])
    requires rest == [] || IsWhitespace(rest[0])
    ensures WordLength(w + rest) == |w|
  {
    if w != [] {
      assert (w + rest)[1..] == w[1..] + rest;
      WordLengthOf(w[1..], rest);
    } else {
      assert w + rest == rest;
    }
  }

  predicate IsDigit(c: char) {
    '0' <= c <= '9'
  }

  function DigitValue(c: char): (v: nat)
    requires IsDigit(c)
    ensures v < 10
  {
    c as int - '0' as int
  }

  function DigitChar(v: nat): (c: char)
    requires v < 10
    ensures IsDigit(c) && DigitValue(c) == v
  {
    ('0' as int + v) as char
  }

  predicate AllDigits(s: string) {
    forall j :: 0 <= j < |s| ==> IsDigit(s[j])
  }

  /** Decimal value of a string of digits, most significant first. */
  function DecimalValue(s: string): nat
    requires AllDigits(s)
  {
    if s == [] then 0 else 10 * DecimalValue(s[..|s| - 1]) + DigitValue(s[|s| - 1])
  }

  /** Shortest decimal rendering of `n`. */
  function ShowNat(n: nat): (s: string)
    ensures AllDigits(s) && |s| == Digits(n)
  {
    if n < 10 then [DigitChar(n)] else ShowNat(n / 10) + [DigitChar(n % 10)]
  }

  lemma {:induction false} ShowNatValue(n: nat)
    ensures DecimalValue(ShowNat(n)) == n
  {
    var s := ShowNat(n);
    if n >= 10 {
      ShowNatValue(n / 10);
      assert s[..|s| - 1] == ShowNat(n / 10);
    }
  }

  /** The value of a digit string never shrinks when a digit is appended. */
  lemma {:induction false} DecimalValueBound(s: string)
    requires AllDigits(s)
    ensures DecimalValue(s) < Pow10(|s|)
  {
    if s != [] {
      DecimalValueBound(s[..|s| - 1]);
    }
  }

  const U64_LIMIT: nat := 0x1_0000_0000_0000_0000
  const U32_LIMIT: nat := 0x1_0000_0000

  /** `s.parse::<u64>()` (and likewise for any unsigned width, given its
      limit): an optional '+', then one or more ASCII digits and nothing else;
      a value at or over the limit is an overflow error. */
  function ParseUnsigned(s: string, limit: nat): (r: Option<nat>)
    ensures r.Some? ==> r.value < limit
  {
    var d := if |s| > 0 && s[0] == '+' then s[1..] else s;
    if |d| > 0 && AllDigits(d) && DecimalValue(d) < limit then Some(DecimalValue(d)) else None
  }

  /** Parsing the rendering of an in-range number gives the number back. */
  lemma ParseShowNat(n: nat, limit: nat)
    requires n < limit
    ensures ParseUnsigned(ShowNat(n), limit) == Some(n)
    ensures ParseUnsigned("+" + ShowNat(n), limit) == Some(n)
  {
    ShowNatValue(n);
    assert ("+" + ShowNat(n))[1..] == ShowNat(n);
  }

  /** Empty text, a lone sign, a second sign or any other non-digit is refused. */
  lemma ParseRefuses(s: string, limit: nat, j: nat)
    requires s == [] || s == "+" || (j < |s| && !IsDigit(s[j]) && !(j == 0 && s[0] == '+'))
    ensures ParseUnsigned(s, limit) == None
  {
    if j < |s| && !IsDigit(s[j]) && j > 0 && s[0] == '+' {
      assert s[1..][j - 1] == s[j];
    }
  }
  const I32_LIMIT: nat := 0x8000_0000

  /** `s.parse::<i32>()` (and likewise for any signed width, given the size
      of its negative range): an optional '+' or '-', then one or more ASCII
      digits and nothing else, from minus the limit to one below it. */
  function ParseSigned(s: string, limit: nat): (r: Option<int>)
    requires limit > 0
    ensures r.Some? ==> -(limit as int) <= r.value < limit
  {
    if |s| > 0 && s[0] == '-' then
      var d := s[1..];
      if |d| > 0 && AllDigits(d) && DecimalValue(d) <= limit then Some(-(DecimalValue(d) as int)) else None
    else
      match ParseUnsigned(s, limit)
      case None => None
      case Some(n) => Some(n)
  }

  /** Decimal rendering with a leading '-' for negative numbers. */
  function ShowInt(n: int): string {
    if n < 0 then "-" + ShowNat(-n) else ShowNat(n)
  }

  /** Parsing the rendering of an in-range number gives the number back. */
  lemma ParseShowInt(n: int, limit: nat)
    requires -(limit as int) <= n < limit
    ensures ParseSigned(ShowInt(n), limit) == Some(n)
  {
    if n < 0 {
      ParseShowNegative(-n, limit);
    } else {
      ParseShowNat(n, limit);
      var s := ShowNat(n);
      assert IsDigit(s[0]);
    }
  }

  lemma ParseShowNegative(m: nat, limit: nat)
    requires 0 < m <= limit
    ensures ParseSigned("-" + ShowNat(m), limit) == Some(-(m as int))
  {
    var d := ShowNat(m);
    ShowNatValue(m);
    assert ("-" + d)[0] == '-' && ("-" + d)[1..] == d;
  }

  /** `ws.filter_map(|w| w.parse().ok())` for an unsigned width: the words
      that parse, in order; the others are dropped. */
  function Naturals(ws: seq<string>, limit: nat): (r: seq<nat>)
    ensures |r| <= |ws|
    ensures forall i :: 0 <= i < |r| ==> r[i] < limit
  {
    if ws == [] then []
    else match ParseUnsigned(ws[0], limit)
      case None => Naturals(ws[1..], limit)
      case Some(n) => [n] + Naturals(ws[1..], limit)
  }

  function ShowNats(ns: seq<nat>): (ws: seq<string>)
    ensures |ws| == |ns| && forall i :: 0 <= i < |ns| ==> ws[i] == ShowNat(ns[i])
  {
    if ns == [] then [] else [ShowNat(ns[0])] + ShowNats(ns[1..])
  }

  /** Rendered in-range numbers parse back to themselves, none dropped. */
  lemma {:induction false} NaturalsShowNats(ns: seq<nat>, limit: nat)
    requires forall i :: 0 <= i < |ns| ==> ns[i] < limit
    ensures Naturals(ShowNats(ns), limit) == ns
  {
    if ns != [] {
      ParseShowNat(ns[0], limit);
      assert ShowNats(ns)[1..] == ShowNats(ns[1..]);
      NaturalsShowNats(ns[1..], limit);
    }
  }
}
