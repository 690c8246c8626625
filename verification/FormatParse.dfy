/** From a format string and its arguments to chunks. */
module FormatParse {
  import opened Options
  import opened FormatModel

  const NUL: char := '\0'

  /** The characters of a C string; everything from its end on reads as the terminator. */
  function At(fmt: string, i: nat): char {
    if i < |fmt| then fmt[i] else NUL
  }

  datatype Arg = IntArg(v: int) | StrArg(s: Option<string>)

  function IntOf(args: seq<Arg>, a: nat): int {
    if a < |args| && args[a].IntArg? then args[a].v else 0
  }

  function StrOf(args: seq<Arg>, a: nat): Option<string> {
    if a < |args| && args[a].StrArg? then args[a].s else None
  }

  // ----- the parts of a directive

  function WithFlag(f: Flags, c: char): Flags {
    if c == '-' then f.(left := true)
    else if c == '+' then f.(plus := true)
    else if c == ' ' then f.(space := true)
    else if c == '#' then f.(hash := true)
    else f.(zero := true)
  }

  predicate IsFlag(c: char) {
    c == '-' || c == '+' || c == ' ' || c == '#' || c == '0'
  }

  predicate IsDigit(c: char) { '0' <= c <= '9' }

  function ParseFlags(fmt: string, i: nat, f: Flags): (r: (Flags, nat))
    ensures r.1 >= i
    decreases |fmt| - i
  {
    if i < |fmt| && IsFlag(At(fmt, i)) then ParseFlags(fmt, i + 1, WithFlag(f, At(fmt, i))) else (f, i)
  }

  function ParseNumber(fmt: string, i: nat, v: nat): (r: (nat, nat))
    ensures r.1 >= i
    decreases |fmt| - i
  {
    if i < |fmt| && IsDigit(At(fmt, i)) then ParseNumber(fmt, i + 1, v * 10 + (At(fmt, i) - '0') as nat) else (v, i)
  }

  datatype Length = Plain | HH | H | L | LL | J | Z | T | CapitalL

  function ParseLength(fmt: string, i: nat): (r: (Length, nat))
    ensures r.1 >= i
  {
    var c := At(fmt, i);
    if c == 'h' then (if At(fmt, i + 1) == 'h' then (HH, i + 2) else (H, i + 1))
    else if c == 'l' then (if At(fmt, i + 1) == 'l' then (LL, i + 2) else (L, i + 1))
    else if c == 'j' then (J, i + 1)
    else if c == 'z' then (Z, i + 1)
    else if c == 't' then (T, i + 1)
    else if c == 'L' then (CapitalL, i + 1)
    else (Plain, i)
  }

  /** A directive up to its conversion character, which is at `at`; `arg` is the next
      argument. */
  datatype Directive = Directive(flags: Flags, width: nat, precision: int, length: Length, at: nat, arg: nat)

  const UINT32: nat := 0x1_0000_0000

  function ParseWidth(fmt: string, i: nat, f: Flags, args: seq<Arg>, a: nat): (r: (Flags, nat, nat, nat))
    ensures r.2 >= i
  {
    if At(fmt, i) == '*' then
      var w := Wrap(IntOf(args, a), UINT32);
      if w < 0 then (f.(left := true), -w, i + 1, a + 1) else (f, w, i + 1, a + 1)
    else
      var (w, j) := ParseNumber(fmt, i, 0);
      (f, w, j, a)
  }

  function ParsePrecision(fmt: string, i: nat, args: seq<Arg>, a: nat): (r: (int, nat, nat))
    ensures r.1 >= i
  {
    if At(fmt, i) != '.' then (-1, i, a)
    else if At(fmt, i + 1) == '*' then (Wrap(IntOf(args, a), UINT32), i + 2, a + 1)
    else
      var (p, j) := ParseNumber(fmt, i + 1, 0);
      (p, j, a)
  }

  /** Parsing from just behind the '%'. */
  function ParseDirective(fmt: string, i: nat, args: seq<Arg>, a: nat): (d: Directive)
    ensures d.at >= i
  {
    var (f, j) := ParseFlags(fmt, i, NO_FLAGS);
    var (f', w, k, b) := ParseWidth(fmt, j, f, args, a);
    var (p, m, c) := ParsePrecision(fmt, k, args, b);
    var (l, at) := ParseLength(fmt, m);
    Directive(f', w, p, l, at, c)
  }

  // ----- conversions

  function SignedArg(length: Length, v: int): (r: int)
    ensures -0x8000_0000_0000_0000 <= r < 0x8000_0000_0000_0000
  {
    match length
    case HH => Wrap(v, 256)
    case H => Wrap(v, 65536)
    case L => Wrap(v, UINT64)
    case LL => Wrap(v, UINT64)
    case J => Wrap(v, UINT64)
    case Z => Wrap(v, UINT64)
    case T => Wrap(v, UINT64)
    case _ => Wrap(v, UINT32)
  }

  function UnsignedArg(length: Length, v: int): (r: nat)
    ensures r < UINT64
  {
    match length
    case HH => v % 256
    case H => v % 65536
    case L => v % UINT64
    case LL => v % UINT64
    case J => v % UINT64
    case Z => v % UINT64
    case T => v % UINT64
    case _ => v % UINT32
  }

  /** The width of the object `%n` stores into. */
  function ReportModulus(length: Length): (m: nat)
    ensures m > 0
  {
    match length
    case HH => 256
    case H => 65536
    case Plain => UINT32
    case CapitalL => UINT32
    case _ => UINT64
  }

  /** A signed decimal: the minus sign goes out first and does not count toward the width. */
  function SignedChunks(n: int, width: nat, f: Flags): (cs: seq<Chunk>)
    requires -0x8000_0000_0000_0000 <= n < 0x8000_0000_0000_0000
    ensures AllSensible(cs)
  {
    if n < 0 then [Literal("-"), Number(-n, 10, width, f.(plus := false, space := false))]
    else [Number(n, 10, width, f)]
  }

  predicate TakesArg(c: char) {
    c == 'd' || c == 'i' || c == 'u' || c == 'o' || c == 'x' || c == 'X' || c == 'c' || c == 's' || c == 'p' || c == 'n'
  }

  /** The chunks of one directive with conversion character `c`. */
  function Convert(d: Directive, c: char, args: seq<Arg>): (cs: seq<Chunk>)
    ensures AllSensible(cs)
  {
    var v := IntOf(args, d.arg);
    if c == 'd' || c == 'i' then SignedChunks(SignedArg(d.length, v), d.width, d.flags)
    else if c == 'u' then [Number(UnsignedArg(d.length, v), 10, d.width, d.flags)]
    else if c == 'o' then [Number(UnsignedArg(d.length, v), 8, d.width, d.flags)]
    else if c == 'x' then [Number(UnsignedArg(d.length, v), 16, d.width, d.flags)]
    else if c == 'X' then [Number(UnsignedArg(d.length, v), 16, d.width, d.flags.(upper := true))]
    else if c == 'c' then [Character((v % 256) as char, d.width, d.flags.left)]
    else if c == 's' then [Text(StrOf(args, d.arg), d.width, d.precision, d.flags)]
    else if c == 'p' then [Number(v % UINT64, 16, d.width, d.flags.(hash := true))]
    else if c == 'n' then [Report(d.arg, ReportModulus(d.length))]
    else [Literal("%"), Literal([c])]
  }

  /** The whole format from position `i`, with arguments from `a` on. */
  function Parse(fmt: string, i: nat, args: seq<Arg>, a: nat): (cs: seq<Chunk>)
    ensures AllSensible(cs)
    decreases |fmt| - i
  {
    if i >= |fmt| || At(fmt, i) == NUL then []
    else if At(fmt, i) != '%' then [Literal([At(fmt, i)])] + Parse(fmt, i + 1, args, a)
    else if At(fmt, i + 1) == '%' then [Literal("%")] + Parse(fmt, i + 2, args, a)
    else
      var d := ParseDirective(fmt, i + 1, args, a);
      var c := At(fmt, d.at);
      if c == NUL then []
      else Convert(d, c, args) + Parse(fmt, d.at + 1, args, if TakesArg(c) then d.arg + 1 else d.arg)
  }

  // ----- what the format says about its chunks

  /** A prefixed hex number that some size cuts badly: not zero, and no zero padding fills
      the place of the dropped prefix. */
  predicate BrittleHex(num: nat, width: nat, f: Flags) {
    && f.hash && num != 0
    && (f.left || !f.zero || width <= |Digits(num, 16, f.upper)| + 2 + |SignText(f)|)
  }

  predicate BrittleDirective(d: Directive, c: char, args: seq<Arg>) {
    var v := IntOf(args, d.arg);
    if c == 'p' then BrittleHex(v % UINT64, d.width, d.flags.(hash := true))
    else if c == 'x' then BrittleHex(UnsignedArg(d.length, v), d.width, d.flags)
    else if c == 'X' then BrittleHex(UnsignedArg(d.length, v), d.width, d.flags.(upper := true))
    else false
  }

  /** No directive from position `i` on is a prefixed hex number that some size cuts badly. */
  predicate NoBrittleDirective(fmt: string, i: nat, args: seq<Arg>, a: nat)
    decreases |fmt| - i
  {
    if i >= |fmt| || At(fmt, i) == NUL then true
    else if At(fmt, i) != '%' then NoBrittleDirective(fmt, i + 1, args, a)
    else if At(fmt, i + 1) == '%' then NoBrittleDirective(fmt, i + 2, args, a)
    else
      var d := ParseDirective(fmt, i + 1, args, a);
      var c := At(fmt, d.at);
      && !BrittleDirective(d, c, args)
      && (c == NUL || NoBrittleDirective(fmt, d.at + 1, args, if TakesArg(c) then d.arg + 1 else d.arg))
  }

  /** No directive from position `i` on is a `%c` with a width above one. */
  predicate NoPaddedDirective(fmt: string, i: nat, args: seq<Arg>, a: nat)
    decreases |fmt| - i
  {
    if i >= |fmt| || At(fmt, i) == NUL then true
    else if At(fmt, i) != '%' then NoPaddedDirective(fmt, i + 1, args, a)
    else if At(fmt, i + 1) == '%' then NoPaddedDirective(fmt, i + 2, args, a)
    else
      var d := ParseDirective(fmt, i + 1, args, a);
      var c := At(fmt, d.at);
      && !(c == 'c' && d.width > 1)
      && (c == NUL || NoPaddedDirective(fmt, d.at + 1, args, if TakesArg(c) then d.arg + 1 else d.arg))
  }

  lemma ChunksJoin(x: seq<Chunk>, y: seq<Chunk>)
    ensures NoBrittle(x + y) <==> NoBrittle(x) && NoBrittle(y)
    ensures NoPadded(x + y) <==> NoPadded(x) && NoPadded(y)
  {
    var z := x + y;
    assert forall k :: 0 <= k < |x| ==> x[k] == z[k];
    assert forall k :: 0 <= k < |y| ==> y[k] == z[|x| + k];
    hide Brittle, PaddedCharacter;
  }

  lemma OneChunk(ch: Chunk)
    ensures NoBrittle([ch]) <==> !Brittle(ch)
    ensures NoPadded([ch]) <==> !PaddedCharacter(ch)
  {
    assert [ch][0] == ch;
    hide Brittle, PaddedCharacter;
  }

  lemma TwoChunks(x: Chunk, y: Chunk)
    requires !Brittle(x) && !PaddedCharacter(x) && !Brittle(y) && !PaddedCharacter(y)
    ensures NoBrittle([x, y]) && NoPadded([x, y])
  {
    hide Brittle, PaddedCharacter;
  }

  lemma HexChunk(num: nat, width: nat, f: Flags)
    ensures Brittle(Number(num, 16, width, f)) <==> BrittleHex(num, width, f)
  {
    hide Digits;
  }

  lemma ConversionChunks(d: Directive, c: char, args: seq<Arg>)
    ensures NoBrittle(Convert(d, c, args)) <==> !BrittleDirective(d, c, args)
    ensures NoPadded(Convert(d, c, args)) <==> !(c == 'c' && d.width > 1)
  {
    hide SignedArg, UnsignedArg, Wrap, NumberPad, BrittleHex, NoBrittle, NoPadded;
    var cs, v := Convert(d, c, args), IntOf(args, d.arg);
    if |cs| == 1 {
      OneChunk(cs[0]);
      HexChunk(v % UINT64, d.width, d.flags.(hash := true));
      HexChunk(UnsignedArg(d.length, v), d.width, d.flags);
      HexChunk(UnsignedArg(d.length, v), d.width, d.flags.(upper := true));
    } else {
      TwoChunks(cs[0], cs[1]);
    }
  }

  /** The chunks of a format hold a brittle number or a padded character exactly when a
      directive asks for it. */
  lemma {:induction false} FormatDecidesChunks(fmt: string, i: nat, args: seq<Arg>, a: nat)
    ensures NoBrittle(Parse(fmt, i, args, a)) <==> NoBrittleDirective(fmt, i, args, a)
    ensures NoPadded(Parse(fmt, i, args, a)) <==> NoPaddedDirective(fmt, i, args, a)
    decreases |fmt| - i
  {
    hide ParseDirective, Convert, NoBrittle, NoPadded, At, TakesArg;
    if i >= |fmt| || At(fmt, i) == NUL {
      NothingToShow();
    } else if At(fmt, i) != '%' {
      LiteralsShowNothing([At(fmt, i)]);
      FormatDecidesChunks(fmt, i + 1, args, a);
      ChunksJoin([Literal([At(fmt, i)])], Parse(fmt, i + 1, args, a));
    } else if At(fmt, i + 1) == '%' {
      LiteralsShowNothing("%");
      FormatDecidesChunks(fmt, i + 2, args, a);
      ChunksJoin([Literal("%")], Parse(fmt, i + 2, args, a));
    } else {
      var d := ParseDirective(fmt, i + 1, args, a);
      var c := At(fmt, d.at);
      if c == NUL {
        NothingToShow();
      } else {
        var b := if TakesArg(c) then d.arg + 1 else d.arg;
        FormatDecidesChunks(fmt, d.at + 1, args, b);
        ConversionChunks(d, c, args);
        ChunksJoin(Convert(d, c, args), Parse(fmt, d.at + 1, args, b));
      }
    }
  }

  lemma NothingToShow()
    ensures NoBrittle([]) && NoPadded([])
  {
  }

  lemma LiteralsShowNothing(t: string)
    ensures NoBrittle([Literal(t)]) && NoPadded([Literal(t)])
  {
  }

  /** Truncation: the text for a smaller size is a prefix of the text for a larger one, for
      every two sizes, if and only if no directive is a brittle hex number. */
  lemma TruncationIsPrefixIff(fmt: string, args: seq<Arg>)
    ensures Prefixes(Parse(fmt, 0, args, 0)) <==> NoBrittleDirective(fmt, 0, args, 0)
  {
    hide Prefixes, NoBrittle;
    FormatDecidesChunks(fmt, 0, args, 0);
    PrefixesIff(Parse(fmt, 0, args, 0));
  }

  /** "%#x" of 10 is one prefixed hex number. */
  lemma HashHex()
    ensures Parse("%#x", 0, [IntArg(10)], 0) == [Number(10, 16, 0, NO_FLAGS.(hash := true))]
    ensures !NoBrittleDirective("%#x", 0, [IntArg(10)], 0)
  {
    var fmt, args, f := "%#x", [IntArg(10)], NO_FLAGS.(hash := true);
    assert fmt == ['%', '#', 'x'];
    var d := Directive(f, 0, -1, Plain, 2, 0);
    assert ParseDirective(fmt, 1, args, 0) == d by {
      assert ParseFlags(fmt, 2, f) == (f, 2);
      assert ParseFlags(fmt, 1, NO_FLAGS) == (f, 2);
      assert ParseNumber(fmt, 2, 0) == (0, 2);
    }
    hide ParseDirective;
    assert Parse(fmt, 3, args, 1) == [];
    assert Convert(d, 'x', args) == [Number(10, 16, 0, f)];
    hide Convert;
    assert BrittleDirective(d, 'x', args) by {
      TenInHex();
      HexChunk(10, 0, f);
    }
    hide BrittleDirective;
  }

  /** It gives "a" for one character and "0xa" for three. */
  lemma HashHexIsCutBadly()
    ensures var cs := Parse("%#x", 0, [IntArg(10)], 0);
            Out(cs, 1) == "a" && Out(cs, 3) == "0xa" && !Prefixes(cs)
  {
    hide Parse, NoBrittleDirective;
    HashHex();
    TruncationIsPrefixIff("%#x", [IntArg(10)]);
    TenInHex();
    hide Emit, Count, FullText, Prefixes, Brittle;
    var ch := Number(10, 16, 0, NO_FLAGS.(hash := true));
    OutSnoc([], ch, 1);
    OutSnoc([], ch, 3);
    assert [] + [ch] == [ch] && Out([], 1) == "" && Out([], 3) == "";
  }

  lemma TenInHex()
    ensures var ch := Number(10, 16, 0, NO_FLAGS.(hash := true));
            Sensible(ch) && Emit(ch, 1) == "a" && Emit(ch, 3) == "0xa" && Brittle(ch)
  {
    assert Digits(10, 16, false) == "a";
  }

  /** The return value is the untruncated length whatever the size, if and only if no `%c`
      has a width above one. */
  lemma LengthWhateverTheSizeIff(fmt: string, args: seq<Arg>)
    ensures var cs := Parse(fmt, 0, args, 0);
            (forall max: nat :: Ret(cs, max) == |Full(cs)|) <==> NoPaddedDirective(fmt, 0, args, 0)
  {
    FormatDecidesChunks(fmt, 0, args, 0);
    ReturnsFullLengthIff(Parse(fmt, 0, args, 0));
  }

  /** "%d" is the plain signed decimal of its argument. */
  lemma PercentD(n: int)
    requires -0x8000_0000 <= n < 0x8000_0000
    ensures Parse("%d", 0, [IntArg(n)], 0) == SignedChunks(n, 0, NO_FLAGS)
  {
    var fmt, args := "%d", [IntArg(n)];
    assert ParseFlags(fmt, 1, NO_FLAGS) == (NO_FLAGS, 1);
    assert ParseNumber(fmt, 1, 0) == (0, 1);
    assert ParseDirective(fmt, 1, args, 0) == Directive(NO_FLAGS, 0, -1, Plain, 1, 0);
    assert Wrap(n, UINT32) == n;
    assert Parse(fmt, 2, args, 1) == [];
    assert At(fmt, 1) == 'd';
  }
}

/** Parsing decimals back. */
module Decimal {
  import opened Options
  import opened FormatModel
  import opened FormatParse

  const INT_MIN: int := -0x8000_0000
  const INT_MAX: int := 0x7fff_ffff

  predicate IsBlank(c: char) { c == ' ' || c == '\t' || c == '\n' }

  function SkipBlanks(s: string): string {
    if s != [] && IsBlank(s[0]) then SkipBlanks(s[1..]) else s
  }

  /** The leading digits added to `acc`; nothing once an `int` would overflow. */
  function Accumulate(s: string, acc: nat): Option<nat> {
    if s == [] || !IsDigit(s[0]) then Some(acc) else
    var next := acc * 10 + (s[0] - '0') as nat;
    if next > INT_MAX then None else Accumulate(s[1..], next)
  }

  /** `atoi`; nothing when its signed arithmetic would overflow. */
  function Atoi(s: string): Option<int> {
    var t := SkipBlanks(s);
    var negative := t != [] && t[0] == '-';
    var u := if t != [] && (t[0] == '-' || t[0] == '+') then t[1..] else t;
    match Accumulate(u, 0)
    case None => None
    case Some(v) => Some(if negative then -(v as int) else v)
  }

  method SkipBlanksFrom(s: string) returns (i: nat)
    ensures i <= |s| && s[i..] == SkipBlanks(s)
  {
    i := 0;
    assert s[0..] == s;
    while i < |s| && IsBlank(s[i])
      invariant i <= |s| && SkipBlanks(s[i..]) == SkipBlanks(s)
    {
      assert s[i..][1..] == s[i + 1..];
      i := i + 1;
    }
  }

  method ReadDigits(s: string, at: nat) returns (r: Option<nat>)
    requires at <= |s|
    ensures r == Accumulate(s[at..], 0)
  {
    var i: nat, result: nat := at, 0;
    while i < |s| && IsDigit(s[i])
      invariant at <= i <= |s| && Accumulate(s[i..], result) == Accumulate(s[at..], 0)
    {
      var next: nat := result * 10 + (s[i] - '0') as nat;
      assert s[i..][0] == s[i] && s[i..][1..] == s[i + 1..];
      if next > INT_MAX {
        return None;
      }
      result := next;
      i := i + 1;
    }
    return Some(result);
  }

  /** `atoi` as its loops compute it; overflow is the only way not to return. */
  method ComputeAtoi(s: string) returns (r: Option<int>)
    ensures r == Atoi(s)
  {
    hide SkipBlanks, Accumulate;
    var i := SkipBlanksFrom(s);
    ghost var t := s[i..];
    var sign: int := 1;
    if i < |s| && s[i] == '-' {
      sign := -1;
      i := i + 1;
    } else if i < |s| && s[i] == '+' {
      i := i + 1;
    }
    assert s[i..] == if t != [] && (t[0] == '-' || t[0] == '+') then t[1..] else t;
    var v := ReadDigits(s, i);
    if v.None? {
      return None;
    }
    return Some(sign * v.value);
  }

  // ----- round trip

  predicate AllDigits(s: string) {
    forall i :: 0 <= i < |s| ==> IsDigit(s[i])
  }

  predicate StopsDigits(s: string) {
    s == [] || !IsDigit(s[0])
  }

  lemma DecimalDigit(d: nat)
    requires d < 10
    ensures IsDigit(DigitChar(d, false)) && IsDigit(DigitChar(d, true))
    ensures (DigitChar(d, false) - '0') as nat == d && (DigitChar(d, true) - '0') as nat == d
  {
    assert "0123456789abcdef" == ['0', '1', '2', '3', '4', '5', '6', '7', '8', '9', 'a', 'b', 'c', 'd', 'e', 'f'];
    assert "0123456789ABCDEF" == ['0', '1', '2', '3', '4', '5', '6', '7', '8', '9', 'A', 'B', 'C', 'D', 'E', 'F'];
  }

  lemma {:induction false} AccumulateZeros(k: nat, rest: string)
    ensures Accumulate(Repeat('0', k) + rest, 0) == Accumulate(rest, 0)
  {
    if k == 0 {
      assert Repeat('0', 0) + rest == rest;
    } else {
      var s := Repeat('0', k) + rest;
      assert s[0] == '0' && s[1..] == Repeat('0', k - 1) + rest;
      AccumulateZeros(k - 1, rest);
    }
  }

  /** Reading the digits of `n` and then something else gives `n`, or overflow. */
  lemma {:induction false} AccumulateDigits(n: nat, upper: bool, rest: string)
    ensures Accumulate(Digits(n, 10, upper) + rest, 0) == if n <= INT_MAX then Accumulate(rest, n) else None
  {
    hide DigitChar;
    var last := DigitChar(n % 10, upper);
    DecimalDigit(n % 10);
    if n < 10 {
      var s := [last] + rest;
      assert Digits(n, 10, upper) + rest == s;
      assert s[1..] == rest;
    } else {
      var s := [last] + rest;
      assert Digits(n, 10, upper) + rest == Digits(n / 10, 10, upper) + s;
      AccumulateDigits(n / 10, upper, s);
      assert s[1..] == rest;
    }
  }

  /** Blanks, tabs and newlines only. */
  predicate AllBlank(s: string) {
    forall i :: 0 <= i < |s| ==> s[i] == ' ' || s[i] == '\t' || s[i] == '\n'
  }

  lemma {:induction false} SkipSpaces(blanks: string, rest: string)
    requires AllBlank(blanks)
    ensures SkipBlanks(blanks + rest) == SkipBlanks(rest)
  {
    if blanks == "" {
      assert "" + rest == rest;
    } else {
      var s := blanks + rest;
      assert s[0] == blanks[0] && s[1..] == blanks[1..] + rest;
      SkipSpaces(blanks[1..], rest);
    }
  }

  lemma {:induction false} DigitsAreDigits(n: nat, upper: bool)
    ensures AllDigits(Digits(n, 10, upper))
  {
    hide DigitChar;
    DecimalDigit(n % 10);
    if n >= 10 {
      DigitsAreDigits(n / 10, upper);
    }
  }

  /** Blanks, tabs and newlines, an optional sign, zeros, the digits of `n` and a non-digit read
      back as `n` with that sign, or overflow. */
  lemma AtoiReads(blanks: string, sign: string, zeros: nat, n: nat, upper: bool, rest: string)
    requires StopsDigits(rest) && AllBlank(blanks) && (sign == "" || sign == "+" || sign == "-")
    ensures Atoi(blanks + (sign + (Repeat('0', zeros) + (Digits(n, 10, upper) + rest))))
            == if n > 0x7fff_ffff then None else Some(if sign == "-" then -(n as int) else n)
  {
    var ds := Digits(n, 10, upper);
    var body := Repeat('0', zeros) + (ds + rest);
    DigitsAreDigits(n, upper);
    assert body[0] == if zeros > 0 then '0' else ds[0];
    var t := sign + body;
    assert t[0] == if sign == "" then body[0] else sign[0];
    SkipSpaces(blanks, t);
    assert SkipBlanks(t) == t;
    assert sign != "" ==> t[1..] == body;
    assert sign == "" ==> t == body;
    AccumulateZeros(zeros, ds + rest);
    AccumulateDigits(n, upper, rest);
    hide Digits;
  }

  lemma NumberShape(n: nat, width: nat, f: Flags)
    ensures var pad := NumberPad(n, 10, width, f);
            NumberText(n, 10, width, f)
            == Repeat(' ', (if !f.left && !f.zero then pad else 0) + (if f.space && !f.plus then 1 else 0))
               + ((if f.plus then "+" else "")
                  + (Repeat('0', if !f.left && f.zero then pad else 0)
                     + (Digits(n, 10, f.upper) + Repeat(' ', if f.left then pad else 0))))
  {
    hide Digits;
  }

  /** A non-negative number reads back under any width and padding. */
  lemma NonNegativeReadsBack(n: nat, width: nat, f: Flags)
    requires n <= INT_MAX
    ensures Atoi(NumberText(n, 10, width, f)) == Some(n)
  {
    hide Digits, Layout, Atoi;
    NumberShape(n, width, f);
    var pad := NumberPad(n, 10, width, f);
    var rest := Repeat(' ', if f.left then pad else 0);
    assert StopsDigits(rest);
    AtoiReads(Repeat(' ', (if !f.left && !f.zero then pad else 0) + (if f.space && !f.plus then 1 else 0)), if f.plus then "+" else "",
              if !f.left && f.zero then pad else 0, n, f.upper, rest);
  }

  /** Behind a minus sign: the digits read back unless blanks come between. */
  lemma AtoiNegative(body: string)
    ensures Atoi("-" + body) == match Accumulate(body, 0) case None => None case Some(v) => Some(-(v as int))
  {
    var s := "-" + body;
    assert s[0] == '-' && s[1..] == body;
  }

  /** The text of a signed decimal with room for everything. */
  function SignedText(n: int, width: nat, f: Flags): string
    requires INT_MIN <= n <= INT_MAX
  {
    Full(SignedChunks(n, width, f))
  }

  lemma SignedTextIs(n: int, width: nat, f: Flags)
    requires INT_MIN <= n <= INT_MAX
    ensures SignedText(n, width, f)
            == if n < 0 then "-" + NumberText(-n, 10, width, f.(plus := false, space := false)) else NumberText(n, 10, width, f)
  {
    hide NumberText;
    var cs := SignedChunks(n, width, f);
    if n < 0 {
      assert cs[..1] == [Literal("-")];
      assert [Literal("-")][..0] == [];
      assert Full([Literal("-")]) == "" + "-" == "-";
    } else {
      assert cs[..0] == [];
      assert Full(cs) == "" + NumberText(n, 10, width, f);
    }
  }

  lemma UnsignedShape(n: nat, width: nat, f: Flags)
    requires !f.plus && !f.space
    ensures var pad, ds := NumberPad(n, 10, width, f), Digits(n, 10, f.upper);
            && pad == Minus(width, |ds|)
            && NumberText(n, 10, width, f)
               == if f.left then ds + Repeat(' ', pad) else Repeat(if f.zero then '0' else ' ', pad) + ds
  {
    hide Digits, Repeat;
    var pad, ds := NumberPad(n, 10, width, f), Digits(n, 10, f.upper);
    assert "" + "" + ds == ds && "" + "" + Repeat('0', pad) == Repeat('0', pad);
    assert Repeat(' ', pad) + "" + "" == Repeat(' ', pad);
  }

  lemma DigitsThenBlanks(n: nat, upper: bool, blanks: nat)
    ensures Accumulate(Digits(n, 10, upper) + Repeat(' ', blanks), 0) == if n <= INT_MAX then Some(n) else None
  {
    AccumulateDigits(n, upper, Repeat(' ', blanks));
    hide Digits;
  }

  lemma NegativeReadsBackIff(n: int, width: nat, f: Flags)
    requires INT_MIN <= n < 0 && !f.plus && !f.space
    ensures Atoi("-" + NumberText(-n, 10, width, f)) == Some(n)
            <==> n != INT_MIN && (f.left || f.zero || width <= |Digits(-n, 10, f.upper)|)
  {
    hide Atoi, NumberText, Digits;
    var pad, ds := NumberPad(-n, 10, width, f), Digits(-n, 10, f.upper);
    var body := NumberText(-n, 10, width, f);
    UnsignedShape(-n, width, f);
    AtoiNegative(body);
    if f.left {
      DigitsThenBlanks(-n, f.upper, pad);
    } else if f.zero {
      assert ds + Repeat(' ', 0) == ds;
      DigitsThenBlanks(-n, f.upper, 0);
      AccumulateZeros(pad, ds);
    } else if pad == 0 {
      assert body == ds + Repeat(' ', 0);
      DigitsThenBlanks(-n, f.upper, 0);
    } else {
      assert body[0] == ' ';
      assert Accumulate(body, 0) == Some(0);
    }
  }

  /** Printing an `int` as a signed decimal and parsing it gives it back if and only if it is
      not INT_MIN and, when negative, no blanks separate the sign from the digits. */
  lemma PrintedReadsBackIff(n: int, width: nat, f: Flags)
    requires INT_MIN <= n <= INT_MAX
    ensures Atoi(SignedText(n, width, f)) == Some(n)
            <==> n != INT_MIN && (n >= 0 || f.left || f.zero || width <= |Digits(-n, 10, f.upper)|)
  {
    hide Atoi, NumberText, Digits, SignedText;
    SignedTextIs(n, width, f);
    if n < 0 {
      NegativeReadsBackIff(n, width, f.(plus := false, space := false));
    } else {
      NonNegativeReadsBack(n, width, f);
    }
  }

  lemma SignedNeverBrittle(n: int, width: nat, f: Flags)
    requires INT_MIN <= n <= INT_MAX
    ensures NoBrittle(SignedChunks(n, width, f))
  {
    hide NumberPad;
  }

  /** "%d" into enough room, read by `atoi`, gives the number back if and only if it is not
      INT_MIN. */
  lemma PercentDReadsBackIff(n: int, room: nat)
    requires INT_MIN <= n <= INT_MAX && room >= |SignedText(n, 0, NO_FLAGS)|
    ensures Atoi(Out(Parse("%d", 0, [IntArg(n)], 0), room)) == Some(n) <==> n != INT_MIN
  {
    hide Atoi, Out, Full, Digits, Parse, SignedChunks;
    PercentD(n);
    SignedNeverBrittle(n, 0, NO_FLAGS);
    OutIsPrefix(SignedChunks(n, 0, NO_FLAGS), room);
    PrintedReadsBackIff(n, 0, NO_FLAGS);
  }
}
