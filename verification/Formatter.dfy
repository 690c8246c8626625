/** The bounded formatter in place: characters go into a buffer as long as there is room. */
module Formatter {
  import opened Options
  import opened FormatModel
  import opened FormatParse

  /** The characters written so far into the room that starts at `at`. */
  ghost predicate Wrote(str: array<char>, at: nat, room: nat, written: nat, out: string)
    reads str
  {
    at + room <= str.Length && written == |out| <= room && str[at..at + written] == out
  }

  /** Only the room was touched. */
  twostate predicate Outside(str: array<char>, at: nat, room: nat)
    reads str
  {
    forall i :: 0 <= i < str.Length && !(at <= i < at + room) ==> str[i] == old(str[i])
  }

  /** `if (written < size) str[written++] = c;` */
  method PutChar(str: array<char>, at: nat, room: nat, written: nat, c: char, ghost out: string) returns (w: nat)
    requires Wrote(str, at, room, written, out)
    modifies str
    ensures Wrote(str, at, room, w, Cap(out, [c], room)) && Outside(str, at, room)
  {
    w := written;
    if written < room {
      str[at + written] := c;
      w := written + 1;
    }
  }

  /** `while (n-- > 0 && written < size) str[written++] = c;` */
  method PutRepeat(str: array<char>, at: nat, room: nat, written: nat, c: char, n: nat,
                   ghost out: string) returns (w: nat)
    requires Wrote(str, at, room, written, out)
    modifies str
    ensures Wrote(str, at, room, w, Cap(out, Repeat(c, n), room)) && Outside(str, at, room)
  {
    w := written;
    var k := 0;
    assert out + Repeat(c, 0) == out;
    while k < n && w < room
      invariant 0 <= k <= n && w <= room
      invariant Wrote(str, at, room, w, out + Repeat(c, k)) && Outside(str, at, room)
      decreases n - k
    {
      str[at + w] := c;
      assert out + Repeat(c, k + 1) == out + Repeat(c, k) + [c];
      w := w + 1;
      k := k + 1;
    }
    assert Cap(out, Repeat(c, n), room) == out + Repeat(c, k);
  }

  /** Copies `t` as far as there is room. */
  method PutString(str: array<char>, at: nat, room: nat, written: nat, t: string, ghost out: string) returns (w: nat)
    requires Wrote(str, at, room, written, out)
    modifies str
    ensures Wrote(str, at, room, w, Cap(out, t, room)) && Outside(str, at, room)
  {
    w := written;
    var k := 0;
    while k < |t| && w < room
      invariant 0 <= k <= |t| && w <= room
      invariant Wrote(str, at, room, w, out + t[..k]) && Outside(str, at, room)
      decreases |t| - k
    {
      str[at + w] := t[k];
      assert out + t[..k + 1] == out + t[..k] + [t[k]];
      w := w + 1;
      k := k + 1;
    }
    assert Cap(out, t, room) == out + t[..k];
  }

  /** The prefix, when both of its characters fit. */
  method PutPrefix(str: array<char>, at: nat, room: nat, written: nat, base: nat, f: Flags, ghost out: string)
    returns (w: nat)
    requires Wrote(str, at, room, written, out)
    modifies str
    ensures Wrote(str, at, room, w, CapPrefix(out, base, f, room)) && Outside(str, at, room)
  {
    w := written;
    if Prefixed(base, f) && written + 1 < room {
      str[at + written] := '0';
      str[at + written + 1] := if f.upper then 'X' else 'x';
      w := written + 2;
    }
  }

  method PutSign(str: array<char>, at: nat, room: nat, written: nat, f: Flags, ghost out: string) returns (w: nat)
    requires Wrote(str, at, room, written, out)
    modifies str
    ensures Wrote(str, at, room, w, Cap(out, SignText(f), room)) && Outside(str, at, room)
  {
    if f.plus {
      w := PutChar(str, at, room, written, '+', out);
    } else if f.space {
      w := PutChar(str, at, room, written, ' ', out);
    } else {
      w := written;
    }
  }

  // ----- numbers

  function Reverse(s: string): (r: string)
    ensures |r| == |s| && forall i :: 0 <= i < |s| ==> r[i] == s[|s| - 1 - i]
  {
    seq(|s|, i requires 0 <= i < |s| => s[|s| - 1 - i])
  }

  lemma ReverseSnoc(s: string, c: char)
    ensures Reverse(s + [c]) == [c] + Reverse(s)
  {
  }

  /** The digits the conversion loop has still to produce. */
  function Leading(n: nat, base: nat, upper: bool): (s: string)
    requires 2 <= base <= 16
    ensures n > 0 ==> |s| >= 1
  {
    if n == 0 then "" else Digits(n, base, upper)
  }

  function LastDigit(n: nat, base: nat): (d: nat)
    requires 2 <= base <= 16
    ensures d < base
  {
    n % base
  }

  function OtherDigits(n: nat, base: nat): (q: nat)
    requires 2 <= base <= 16
    ensures n > 0 ==> q < n
  {
    QuotientSmaller(n, base);
    n / base
  }

  lemma LeadingStep(n: nat, base: nat, upper: bool)
    requires 2 <= base <= 16 && n > 0
    ensures Leading(n, base, upper)
            == Leading(OtherDigits(n, base), base, upper) + [DigitChar(LastDigit(n, base), upper)]
  {
    hide DigitChar;
    if n < base {
      SmallDivision(n, base);
    } else {
      QuotientPositive(n, base);
    }
  }

  lemma QuotientPositive(n: nat, base: nat)
    requires n >= base >= 1
    ensures n / base > 0
  {
  }

  /** The conversion loop, for a number above zero. */
  method FillDigits(num: nat, base: nat, upper: bool, buffer: array<char>) returns (pos: nat)
    requires 2 <= base <= 16 && 0 < num < UINT64 && buffer.Length == 64
    modifies buffer
    ensures 1 <= pos <= 64 && Reverse(buffer[..pos]) == Digits(num, base, upper)
  {
    DigitsFit(num, base, upper);
    hide DigitChar, Digits, Reverse, LastDigit, OtherDigits;
    pos := 0;
    var n: nat := num;
    assert buffer[..0] == [];
    while n > 0
      invariant pos <= 64 && Leading(n, base, upper) + Reverse(buffer[..pos]) == Digits(num, base, upper)
      decreases n
    {
      hide Leading;
      ghost var before := buffer[..pos];
      var c := DigitChar(LastDigit(n, base), upper);
      ghost var l := Leading(OtherDigits(n, base), base, upper);
      LeadingStep(n, base, upper);
      ReverseSnoc(before, c);
      assert (l + [c]) + Reverse(before) == l + ([c] + Reverse(before));
      buffer[pos] := c;
      pos := pos + 1;
      assert buffer[..pos] == before + [c];
      n := OtherDigits(n, base);
    }
  }

  /** Fills the 64-byte buffer with the digits in reverse; it never overflows. */
  method ConvertDigits(num: nat, base: nat, upper: bool) returns (buffer: array<char>, pos: nat)
    requires 2 <= base <= 16 && num < UINT64
    ensures fresh(buffer) && buffer.Length == 64 && 1 <= pos <= 64
    ensures Reverse(buffer[..pos]) == Digits(num, base, upper)
  {
    buffer := new char[64](_ => NUL);
    if num == 0 {
      buffer[0] := '0';
      pos := 1;
      ZeroDigit(base, upper);
      assert buffer[..1] == ['0'];
      assert Reverse(['0']) == ['0'];
    } else {
      pos := FillDigits(num, base, upper, buffer);
    }
  }

  lemma ZeroDigit(base: nat, upper: bool)
    requires 2 <= base <= 16
    ensures Digits(0, base, upper) == ['0']
  {
    SmallDivision(0, base);
  }

  /** Copies the buffered digits out, most significant first. */
  method PutDigits(str: array<char>, at: nat, room: nat, written: nat, buffer: array<char>, pos: nat, ghost out: string)
    returns (w: nat)
    requires Wrote(str, at, room, written, out) && pos <= buffer.Length && buffer != str
    modifies str
    ensures Wrote(str, at, room, w, Cap(out, Reverse(buffer[..pos]), room)) && Outside(str, at, room)
  {
    w := written;
    ghost var ds := Reverse(buffer[..pos]);
    var i := pos;
    assert Cap(out, ds[..0], room) == out;
    hide Cap, Reverse;
    while i > 0
      invariant 0 <= i <= pos
      invariant Wrote(str, at, room, w, Cap(out, ds[..pos - i], room)) && Outside(str, at, room)
    {
      i := i - 1;
      ghost var k := pos - i;
      assert ds[..k] == ds[..k - 1] + [buffer[i]];
      CapSnoc(out, ds[..k - 1], buffer[i], room);
      w := PutChar(str, at, room, w, buffer[i], Cap(out, ds[..k - 1], room));
    }
    assert ds[..pos] == ds;
  }

  lemma CapSnoc(out: string, t: string, c: char, room: nat)
    requires |out| <= room
    ensures Cap(Cap(out, t, room), [c], room) == Cap(out, t + [c], room)
  {
  }

  /** `write_num`: writes at most `room` characters and returns the length it would take. */
  method WriteNum(str: array<char>, at: nat, room: nat, num: nat, base: nat, width: nat, f: Flags) returns (total: nat)
    requires at + room <= str.Length && 2 <= base <= 16 && num < UINT64
    modifies str
    ensures var e := EmitNumber(num, base, width, f, room);
            str[at..at + |e|] == e && Outside(str, at, room)
    ensures total == |NumberText(num, base, width, f)|
  {
    hide Digits, Layout, Cap, CapPrefix, Repeat, Reverse, EmitLayout;
    var buffer, pos := ConvertDigits(num, base, f.upper);
    ghost var ds := Digits(num, base, f.upper);
    var length := pos;
    if Prefixed(base, f) {
      length := length + 2;
    }
    if f.plus || f.space {
      length := length + 1;
    }
    var padding := if width > length then width - length else 0;
    total := length + padding;
    assert padding == NumberPad(num, base, width, f);
    LayoutLength(ds, padding, base, f);
    if !f.left && f.zero {
      var _ := WriteZeroPadded(str, at, room, buffer, pos, padding, base, f);
    } else {
      var _ := WritePadded(str, at, room, buffer, pos, padding, base, f);
    }
  }

  method WriteZeroPadded(str: array<char>, at: nat, room: nat, buffer: array<char>, pos: nat, padding: nat, base: nat,
                         f: Flags) returns (w: nat)
    requires at + room <= str.Length && pos <= buffer.Length && buffer != str && !f.left && f.zero
    modifies str
    ensures Wrote(str, at, room, w, EmitLayout(Reverse(buffer[..pos]), padding, base, f, room)) && Outside(str, at, room)
  {
    hide Cap, CapPrefix, Repeat, SignText, Reverse;
    ghost var o1 := Cap("", SignText(f), room);
    ghost var o2 := CapPrefix(o1, base, f, room);
    w := PutSign(str, at, room, 0, f, "");
    var signed := w;
    w := PutPrefix(str, at, room, w, base, f, o1);
    var prefixed := w > signed;
    w := PutRepeat(str, at, room, w, '0', padding, o2);
    ghost var o3 := Cap(o2, Repeat('0', padding), room);
    if !prefixed {
      w := PutPrefix(str, at, room, w, base, f, o3);
      o3 := CapPrefix(o3, base, f, room);
    }
    w := PutDigits(str, at, room, w, buffer, pos, o3);
  }

  method WritePadded(str: array<char>, at: nat, room: nat, buffer: array<char>, pos: nat, padding: nat, base: nat,
                     f: Flags) returns (w: nat)
    requires at + room <= str.Length && pos <= buffer.Length && buffer != str && (f.left || !f.zero)
    modifies str
    ensures Wrote(str, at, room, w, EmitLayout(Reverse(buffer[..pos]), padding, base, f, room)) && Outside(str, at, room)
  {
    hide Cap, CapPrefix, Repeat, SignText, Reverse;
    w := 0;
    ghost var o := "";
    if !f.left {
      w := PutRepeat(str, at, room, w, ' ', padding, o);
      o := Cap("", Repeat(' ', padding), room);
    }
    w := PutSign(str, at, room, w, f, o);
    o := Cap(o, SignText(f), room);
    w := PutPrefix(str, at, room, w, base, f, o);
    o := CapPrefix(o, base, f, room);
    w := PutDigits(str, at, room, w, buffer, pos, o);
    o := Cap(o, Reverse(buffer[..pos]), room);
    if f.left {
      w := PutRepeat(str, at, room, w, ' ', padding, o);
    }
  }

  // ----- strings and characters

  method WriteString(str: array<char>, at: nat, room: nat, src: Option<string>, width: nat, precision: int, f: Flags)
    returns (total: nat)
    requires at + room <= str.Length
    modifies str
    ensures var e := Take(StringText(src, width, precision, f), room);
            str[at..at + |e|] == e && Outside(str, at, room)
    ensures total == |StringText(src, width, precision, f)|
  {
    hide SourceText, Cap, Take, Repeat;
    var s := SourceText(src, precision);
    var padding := if width > |s| then width - |s| else 0;
    total := |s| + padding;
    if f.left {
      var w := PutTwo(str, at, room, s, padding, ' ', true);
    } else {
      var w := PutTwo(str, at, room, s, padding, if f.zero then '0' else ' ', false);
    }
  }

  /** A text and its padding on one side. */
  method PutTwo(str: array<char>, at: nat, room: nat, s: string, padding: nat, c: char, left: bool) returns (w: nat)
    requires at + room <= str.Length
    modifies str
    ensures Wrote(str, at, room, w, Take(if left then s + Repeat(c, padding) else Repeat(c, padding) + s, room))
    ensures Outside(str, at, room)
  {
    hide Cap, Take, Repeat;
    if left {
      TwoCaps(s, Repeat(c, padding), room);
      w := PutString(str, at, room, 0, s, "");
      w := PutRepeat(str, at, room, w, c, padding, Cap("", s, room));
    } else {
      TwoCaps(Repeat(c, padding), s, room);
      w := PutRepeat(str, at, room, 0, c, padding, "");
      w := PutString(str, at, room, w, s, Cap("", Repeat(c, padding), room));
    }
  }

  lemma TwoCaps(a: string, b: string, room: nat)
    ensures Cap(Cap("", a, room), b, room) == Take(a + b, room)
  {
    CapIsTake("", a, room);
    CapIsTake(a, b, room);
    assert "" + a == a && Take("", room) == "";
  }

  /** The '%c' case: padding counts only as far as it is written. */
  method WriteCharacter(str: array<char>, at: nat, room: nat, c: char, width: nat, left: bool)
    returns (written: nat, count: nat)
    requires at + room <= str.Length
    modifies str
    ensures Wrote(str, at, room, written, Take(CharacterText(c, width, left), room)) && Outside(str, at, room)
    ensures count == Count(Character(c, width, left), room)
  {
    hide Cap, Take, Repeat;
    var pads := if width > 1 then width - 1 else 0;
    if !left {
      TwoCaps(Repeat(' ', pads), [c], room);
      written := PutRepeat(str, at, room, 0, ' ', pads, "");
      count := written + 1;
      written := PutChar(str, at, room, written, c, Cap("", Repeat(' ', pads), room));
    } else {
      TwoCaps([c], Repeat(' ', pads), room);
      written := PutChar(str, at, room, 0, c, "");
      var before := written;
      written := PutRepeat(str, at, room, written, ' ', pads, Cap("", [c], room));
      count := 1 + written - before;
    }
  }

  // ----- reading a directive

  method ReadFlags(fmt: string, at: nat) returns (f: Flags, i: nat)
    ensures (f, i) == ParseFlags(fmt, at, NO_FLAGS)
  {
    f, i := NO_FLAGS, at;
    while i < |fmt| && IsFlag(At(fmt, i))
      invariant ParseFlags(fmt, i, f) == ParseFlags(fmt, at, NO_FLAGS)
    {
      f := WithFlag(f, At(fmt, i));
      i := i + 1;
    }
  }

  method ReadNumber(fmt: string, at: nat) returns (v: nat, i: nat)
    ensures (v, i) == ParseNumber(fmt, at, 0)
  {
    v, i := 0, at;
    while i < |fmt| && IsDigit(At(fmt, i))
      invariant ParseNumber(fmt, i, v) == ParseNumber(fmt, at, 0)
    {
      v := v * 10 + (At(fmt, i) - '0') as nat;
      i := i + 1;
    }
  }

  method ReadWidth(fmt: string, at: nat, flags: Flags, args: seq<Arg>, arg: nat)
    returns (f: Flags, width: nat, i: nat, a: nat)
    ensures (f, width, i, a) == ParseWidth(fmt, at, flags, args, arg)
  {
    f, i, a := flags, at, arg;
    if At(fmt, i) == '*' {
      var w: int := Wrap(IntOf(args, a), UINT32);
      a := a + 1;
      if w < 0 {
        f := f.(left := true);
        w := -w;
      }
      width := w;
      i := i + 1;
    } else {
      width, i := ReadNumber(fmt, i);
    }
  }

  method ReadPrecision(fmt: string, at: nat, args: seq<Arg>, arg: nat) returns (precision: int, i: nat, a: nat)
    ensures (precision, i, a) == ParsePrecision(fmt, at, args, arg)
  {
    precision, i, a := -1, at, arg;
    if At(fmt, i) == '.' {
      i := i + 1;
      if At(fmt, i) == '*' {
        precision := Wrap(IntOf(args, a), UINT32);
        a := a + 1;
        i := i + 1;
      } else {
        precision, i := ReadNumber(fmt, i);
      }
    }
  }

  /** Flags, width, precision and length modifier, up to the conversion character. */
  method ReadDirective(fmt: string, at: nat, args: seq<Arg>, arg: nat) returns (d: Directive)
    ensures d == ParseDirective(fmt, at, args, arg)
  {
    hide ParseFlags, ParseWidth, ParsePrecision;
    var f, i := ReadFlags(fmt, at);
    var a: nat;
    var width: nat;
    f, width, i, a := ReadWidth(fmt, i, f, args, arg);
    var precision: int;
    precision, i, a := ReadPrecision(fmt, i, args, a);
    var length := Plain;
    if At(fmt, i) == 'h' {
      length := H;
      i := i + 1;
      if At(fmt, i) == 'h' {
        length := HH;
        i := i + 1;
      }
    } else if At(fmt, i) == 'l' {
      length := L;
      i := i + 1;
      if At(fmt, i) == 'l' {
        length := LL;
        i := i + 1;
      }
    } else if At(fmt, i) == 'j' {
      length := J;
      i := i + 1;
    } else if At(fmt, i) == 'z' {
      length := Z;
      i := i + 1;
    } else if At(fmt, i) == 't' {
      length := T;
      i := i + 1;
    } else if At(fmt, i) == 'L' {
      length := CapitalL;
      i := i + 1;
    }
    d := Directive(f, width, precision, length, i, a);
  }

  // ----- appending chunks

  /** `done` has been put out: its text is in the buffer and its length is counted. */
  ghost predicate Holds(str: array<char>, max: nat, written: nat, total: nat, done: seq<Chunk>)
    reads str
  {
    AllSensible(done) && Wrote(str, 0, max, written, Out(done, max)) && total == Ret(done, max)
  }

  method AppendLiteral(str: array<char>, max: nat, written: nat, total: nat, c: char, ghost done: seq<Chunk>)
    returns (w: nat, t: nat)
    requires Holds(str, max, written, total, done)
    modifies str
    ensures Holds(str, max, w, t, done + [Literal([c])]) && Outside(str, 0, max)
  {
    hide Out, Ret, AllSensible;
    OutSnoc(done, Literal([c]), max);
    w := PutChar(str, 0, max, written, c, Out(done, max));
    t := total + 1;
  }

  /** `written += (len > max_size - written) ? max_size - written : len` lands exactly behind
      what `write_num` wrote. */
  method AppendNumber(str: array<char>, max: nat, written: nat, total: nat, num: nat, base: nat, width: nat, f: Flags,
                      ghost done: seq<Chunk>) returns (w: nat, t: nat)
    requires Holds(str, max, written, total, done) && 2 <= base <= 16 && num < UINT64
    modifies str
    ensures Holds(str, max, w, t, done + [Number(num, base, width, f)]) && Outside(str, 0, max)
  {
    ghost var ch := Number(num, base, width, f);
    hide Out, Ret, EmitNumber, NumberText, EmitLayout, Layout, Digits, AllSensible, Repeat;
    OutSnoc(done, ch, max);
    EmitFills(num, base, width, f, max - written);
    ghost var before := str[..written];
    var len := WriteNum(str, written, max - written, num, base, width, f);
    w := written + if len > max - written then max - written else len;
    t := total + len;
    assert str[..written] == before;
    assert str[..w] == before + str[written..w];
  }

  method AppendString(str: array<char>, max: nat, written: nat, total: nat, src: Option<string>, width: nat,
                      precision: int, f: Flags, ghost done: seq<Chunk>) returns (w: nat, t: nat)
    requires Holds(str, max, written, total, done)
    modifies str
    ensures Holds(str, max, w, t, done + [Text(src, width, precision, f)]) && Outside(str, 0, max)
  {
    ghost var ch := Text(src, width, precision, f);
    hide Out, Ret, StringText, Take, AllSensible;
    OutSnoc(done, ch, max);
    ghost var before := str[..written];
    var len := WriteString(str, written, max - written, src, width, precision, f);
    w := written + if len > max - written then max - written else len;
    t := total + len;
    assert str[..written] == before;
    assert str[..w] == before + str[written..w];
  }

  method AppendCharacter(str: array<char>, max: nat, written: nat, total: nat, c: char, width: nat, left: bool,
                         ghost done: seq<Chunk>) returns (w: nat, t: nat)
    requires Holds(str, max, written, total, done)
    modifies str
    ensures Holds(str, max, w, t, done + [Character(c, width, left)]) && Outside(str, 0, max)
  {
    ghost var ch := Character(c, width, left);
    hide Out, Ret, CharacterText, Take, Count, AllSensible;
    OutSnoc(done, ch, max);
    ghost var before := str[..written];
    var n, count := WriteCharacter(str, written, max - written, c, width, left);
    w := written + n;
    t := total + count;
    assert str[..written] == before;
    assert str[..w] == before + str[written..w];
  }

  lemma NothingPutOut(str: array<char>, max: nat, written: nat, total: nat, done: seq<Chunk>, ch: Chunk)
    requires Holds(str, max, written, total, done) && ch.Report? && ch.modulus > 0
    ensures Holds(str, max, written, total, done + [ch])
  {
    OutSnoc(done, ch, max);
    hide Out, Ret;
  }

  /** What a directive adds to the stored counts. */
  lemma ReportsConvert(done: seq<Chunk>, d: Directive, c: char, args: seq<Arg>, max: nat)
    requires AllSensible(done)
    ensures AllSensible(done + Convert(d, c, args))
    ensures Reports(done + Convert(d, c, args), max)
            == Reports(done, max)
               + if c == 'n' then [(d.arg, Wrap(Ret(done, max), ReportModulus(d.length)))] else []
  {
    hide SignedArg, UnsignedArg, ReportModulus, Wrap, Ret, Reports, AllSensible, NumberPad, FullText;
    var cs := Convert(d, c, args);
    ReportsSnoc(done, cs[0], max);
    if |cs| == 1 {
      assert done + cs == done + [cs[0]];
    } else {
      assert done + cs == done + [cs[0]] + [cs[1]];
      ReportsSnoc(done + [cs[0]], cs[1], max);
    }
  }

  /** A signed decimal: the minus sign first, then the digits without sign flags. */
  method AppendSigned(str: array<char>, max: nat, written: nat, total: nat, num: int, width: nat, f: Flags,
                      ghost done: seq<Chunk>) returns (w: nat, t: nat)
    requires Holds(str, max, written, total, done) && -0x8000_0000_0000_0000 <= num < 0x8000_0000_0000_0000
    modifies str
    ensures Holds(str, max, w, t, done + SignedChunks(num, width, f)) && Outside(str, 0, max)
  {
    hide Holds;
    if num < 0 {
      w, t := AppendLiteral(str, max, written, total, '-', done);
      var g := f.(plus := false, space := false);
      ghost var signed := done + [Literal("-")];
      assert done + SignedChunks(num, width, f) == signed + [Number(-num, 10, width, g)];
      w, t := AppendNumber(str, max, w, t, -num, 10, width, g, signed);
    } else {
      w, t := AppendNumber(str, max, written, total, num, 10, width, f, done);
    }
  }

  /** The switch on the conversion character; what `%n` stores is in `reports`. */
  method AppendConversion(str: array<char>, max: nat, written: nat, total: nat, d: Directive, c: char, args: seq<Arg>,
                          ghost done: seq<Chunk>) returns (w: nat, t: nat, a: nat, reports: seq<(nat, int)>)
    requires Holds(str, max, written, total, done)
    modifies str
    ensures Holds(str, max, w, t, done + Convert(d, c, args)) && Outside(str, 0, max)
    ensures a == if TakesArg(c) then d.arg + 1 else d.arg
    ensures reports == if c == 'n' then [(d.arg, Wrap(total, ReportModulus(d.length)))] else []
  {
    hide Holds, SignedChunks, SignedArg, UnsignedArg, ReportModulus, Wrap;
    reports := [];
    w, t, a := written, total, d.arg + 1;
    var v := IntOf(args, d.arg);
    if c == 'd' || c == 'i' {
      w, t := AppendSigned(str, max, w, t, SignedArg(d.length, v), d.width, d.flags, done);
    } else if c == 'u' {
      w, t := AppendNumber(str, max, w, t, UnsignedArg(d.length, v), 10, d.width, d.flags, done);
    } else if c == 'o' {
      w, t := AppendNumber(str, max, w, t, UnsignedArg(d.length, v), 8, d.width, d.flags, done);
    } else if c == 'x' || c == 'X' {
      var f := if c == 'X' then d.flags.(upper := true) else d.flags;
      w, t := AppendNumber(str, max, w, t, UnsignedArg(d.length, v), 16, d.width, f, done);
    } else if c == 'c' {
      w, t := AppendCharacter(str, max, w, t, (v % 256) as char, d.width, d.flags.left, done);
    } else if c == 's' {
      w, t := AppendString(str, max, w, t, StrOf(args, d.arg), d.width, d.precision, d.flags, done);
    } else if c == 'p' {
      w, t := AppendNumber(str, max, w, t, v % UINT64, 16, d.width, d.flags.(hash := true), done);
    } else if c == 'n' {
      reports := [(d.arg, Wrap(total, ReportModulus(d.length)))];
      NothingPutOut(str, max, written, total, done, Report(d.arg, ReportModulus(d.length)));
    } else {
      a := d.arg;
      w, t := AppendLiteral(str, max, w, t, '%', done);
      ghost var percent := done + [Literal("%")];
      assert done + Convert(d, c, args) == percent + [Literal([c])];
      w, t := AppendLiteral(str, max, w, t, c, percent);
    }
  }

  /** The format loop. */
  method FormatLoop(str: array<char>, max: nat, fmt: string, args: seq<Arg>) returns (written: nat, total: nat,
                    reports: seq<(nat, int)>)
    requires max <= str.Length
    modifies str
    ensures Holds(str, max, written, total, Parse(fmt, 0, args, 0)) && Outside(str, 0, max)
    ensures reports == Reports(Parse(fmt, 0, args, 0), max)
  {
    hide Convert, ParseDirective, Parse, Holds, TakesArg, AllSensible, Reports, Ret, Out, Wrap, ReportModulus;
    HoldsAtStart(str, max);
    written, total, reports := 0, 0, [];
    var i: nat, a: nat := 0, 0;
    ghost var done: seq<Chunk> := [];
    ghost var all := Parse(fmt, 0, args, 0);
    assert [] + all == all;
    while i < |fmt| && At(fmt, i) != NUL
      invariant Holds(str, max, written, total, done) && Outside(str, 0, max)
      invariant all == done + Parse(fmt, i, args, a)
      invariant AllSensible(done) && reports == Reports(done, max)
      decreases |fmt| - i
    {
      ghost var rest := Parse(fmt, i, args, a);
      ghost var next: seq<Chunk>;
      if At(fmt, i) != '%' {
        ParsePlain(fmt, i, args, a);
        next := [Literal([At(fmt, i)])];
        ReportsSnoc(done, next[0], max);
        written, total := AppendLiteral(str, max, written, total, At(fmt, i), done);
        i := i + 1;
      } else if At(fmt, i + 1) == '%' {
        ParsePercent(fmt, i, args, a);
        next := [Literal("%")];
        ReportsSnoc(done, next[0], max);
        written, total := AppendLiteral(str, max, written, total, '%', done);
        i := i + 2;
      } else {
        ParseConversion(fmt, i, args, a);
        var d := ReadDirective(fmt, i + 1, args, a);
        var c := At(fmt, d.at);
        if c == NUL {
          assert rest == [] && done + [] == done;
          break;
        }
        next := Convert(d, c, args);
        Counted(str, max, written, total, done);
        ReportsConvert(done, d, c, args, max);
        var more: seq<(nat, int)>;
        written, total, a, more := AppendConversion(str, max, written, total, d, c, args, done);
        reports := reports + more;
        i := d.at + 1;
      }
      Regroup(done, next, Parse(fmt, i, args, a));
      done := done + next;
    }
    if i >= |fmt| || At(fmt, i) == NUL {
      ParseEnd(fmt, i, args, a);
    }
    assert all == done;
  }

  lemma Regroup(a: seq<Chunk>, b: seq<Chunk>, c: seq<Chunk>)
    ensures a + (b + c) == (a + b) + c
  {
  }

  lemma HoldsAtStart(str: array<char>, max: nat)
    requires max <= str.Length
    ensures Holds(str, max, 0, 0, []) && AllSensible([]) && Reports([], max) == []
  {
  }

  lemma Counted(str: array<char>, max: nat, written: nat, total: nat, done: seq<Chunk>)
    requires Holds(str, max, written, total, done)
    ensures AllSensible(done) && total == Ret(done, max)
  {
  }

  lemma ParseEnd(fmt: string, i: nat, args: seq<Arg>, a: nat)
    requires i >= |fmt| || At(fmt, i) == NUL
    ensures Parse(fmt, i, args, a) == []
  {
  }

  lemma ParsePlain(fmt: string, i: nat, args: seq<Arg>, a: nat)
    requires i < |fmt| && At(fmt, i) != NUL && At(fmt, i) != '%'
    ensures Parse(fmt, i, args, a) == [Literal([At(fmt, i)])] + Parse(fmt, i + 1, args, a)
  {
    hide ParseDirective, Convert;
  }

  lemma ParsePercent(fmt: string, i: nat, args: seq<Arg>, a: nat)
    requires i < |fmt| && At(fmt, i) == '%' && At(fmt, i + 1) == '%'
    ensures Parse(fmt, i, args, a) == [Literal("%")] + Parse(fmt, i + 2, args, a)
  {
    hide ParseDirective, Convert;
  }

  lemma ParseConversion(fmt: string, i: nat, args: seq<Arg>, a: nat)
    requires i < |fmt| && At(fmt, i) == '%' && At(fmt, i + 1) != '%'
    ensures var d := ParseDirective(fmt, i + 1, args, a);
            var c := At(fmt, d.at);
            Parse(fmt, i, args, a)
            == if c == NUL then []
               else Convert(d, c, args) + Parse(fmt, d.at + 1, args, if TakesArg(c) then d.arg + 1 else d.arg)
  {
    hide ParseDirective, Convert;
  }

  /** `vsnprintf`: nothing at or past `size` is written, the text is terminated, and text and
      return value are those of the chunks the format parses into. */
  method Vsnprintf(str: array?<char>, size: nat, format: Option<string>, args: seq<Arg>)
    returns (ret: int, reports: seq<(nat, int)>)
    requires str != null ==> size <= str.Length
    modifies str
    ensures str == null || size == 0 || format.None?
            ==> ret == -1 && reports == [] && (str != null ==> forall i :: 0 <= i < str.Length ==> str[i] == old(str[i]))
    ensures str != null && size > 0 && format.Some?
            ==> var chunks := Parse(format.value, 0, args, 0);
                var text := Out(chunks, size - 1);
                && ret == Ret(chunks, size - 1) && reports == Reports(chunks, size - 1) && str[..|text|] == text && str[|text|] == NUL
                && forall i :: size <= i < str.Length ==> str[i] == old(str[i])
  {
    hide Parse, Out, Ret, Reports, AllSensible, Sensible;
    if format.None? || str == null || size == 0 {
      return -1, [];
    }
    var max := size - 1;
    var written, total: nat;
    written, total, reports := FormatLoop(str, max, format.value, args);
    ghost var text := str[..written];
    str[written] := NUL;
    assert str[..written] == text;
    ret := total;
  }
}
