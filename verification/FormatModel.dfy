/** What the bounded formatter produces: a format is a list of chunks, each with a full text
    and a bounded emission. */
module FormatModel {
  import opened Options

  const UINT64: nat := 0x1_0000_0000_0000_0000

  datatype Flags = Flags(left: bool, plus: bool, space: bool, hash: bool, zero: bool, upper: bool)

  const NO_FLAGS: Flags := Flags(false, false, false, false, false, false)

  /** One piece of output. `Number` and `Text` carry what `write_num` and `write_string` get;
      `Report` puts nothing out but stores the count so far through argument `arg`. */
  datatype Chunk =
    | Literal(text: string)
    | Number(num: nat, base: nat, width: nat, flags: Flags)
    | Text(src: Option<string>, width: nat, precision: int, flags: Flags)
    | Character(c: char, width: nat, left: bool)
    | Report(arg: nat, modulus: nat)

  // ----- digits

  function DigitChar(d: nat, upper: bool): char
    requires d < 16
  {
    (if upper then "0123456789ABCDEF" else "0123456789abcdef")[d]
  }

  function DigitValue(c: char): nat {
    if '0' <= c <= '9' then (c - '0') as nat
    else if 'a' <= c <= 'f' then (c - 'a') as nat + 10
    else if 'A' <= c <= 'F' then (c - 'A') as nat + 10
    else 0
  }

  lemma QuotientSmaller(n: nat, base: nat)
    requires base >= 2
    ensures n > 0 ==> n / base < n
  {
  }

  /** Most significant digit first. */
  function Digits(n: nat, base: nat, upper: bool): (s: string)
    requires 2 <= base <= 16
    ensures |s| >= 1
  {
    (if n < base then [] else QuotientSmaller(n, base); Digits(n / base, base, upper)) + [DigitChar(n % base, upper)]
  }

  function Decode(s: string, base: nat): nat {
    if s == [] then 0 else Decode(s[..|s| - 1], base) * base + DigitValue(s[|s| - 1])
  }

  lemma DigitRoundTrip(d: nat, upper: bool)
    requires d < 16
    ensures DigitValue(DigitChar(d, upper)) == d
  {
    if upper {
      assert "0123456789ABCDEF" == ['0', '1', '2', '3', '4', '5', '6', '7', '8', '9', 'A', 'B', 'C', 'D', 'E', 'F'];
    } else {
      assert "0123456789abcdef" == ['0', '1', '2', '3', '4', '5', '6', '7', '8', '9', 'a', 'b', 'c', 'd', 'e', 'f'];
    }
  }

  lemma DecodeSnoc(s: string, c: char, base: nat)
    ensures Decode(s + [c], base) == Decode(s, base) * base + DigitValue(c)
  {
    assert (s + [c])[..|s|] == s;
    hide DigitValue;
  }

  /** The digits decode to the number, in every base from 2 to 16. */
  lemma {:induction false} DigitsDecode(n: nat, base: nat, upper: bool)
    requires 2 <= base <= 16
    ensures Decode(Digits(n, base, upper), base) == n
  {
    hide DigitChar, DigitValue, Decode;
    DigitRoundTrip(n % base, upper);
    if n < base {
      SmallDivision(n, base);
      DecodeSnoc([], DigitChar(n % base, upper), base);
      assert Decode([], base) == 0 by {
        DecodeNothing(base);
      }
    } else {
      QuotientSmaller(n, base);
      DigitsDecode(n / base, base, upper);
      DecodeSnoc(Digits(n / base, base, upper), DigitChar(n % base, upper), base);
      DivisionIdentity(n, base);
    }
  }

  lemma DivisionIdentity(n: nat, base: nat)
    requires base > 0
    ensures n == n / base * base + n % base
  {
  }

  lemma DecodeNothing(base: nat)
    ensures Decode([], base) == 0
  {
  }

  lemma SmallDivision(n: nat, base: nat)
    requires n < base
    ensures n / base == 0 && n % base == n
  {
  }

  function Pow2(k: nat): nat {
    if k == 0 then 1 else 2 * Pow2(k - 1)
  }

  lemma {:induction false} Pow2Adds(j: nat, k: nat)
    ensures Pow2(j + k) == Pow2(j) * Pow2(k)
  {
    if j > 0 {
      Pow2Adds(j - 1, k);
    }
  }

  lemma Pow2Of64()
    ensures Pow2(64) == UINT64
  {
    assert Pow2(8) == 256;
    Pow2Adds(8, 8);
    Pow2Adds(16, 16);
    Pow2Adds(32, 32);
  }

  lemma HalvesAtLeast(n: nat, base: nat, p: nat)
    requires base >= 2 && n < 2 * p
    ensures n / base < p
  {
    var q := n / base;
    assert q * base <= n;
    assert q * base >= q * 2;
  }

  lemma {:induction false} DigitCount(n: nat, base: nat, upper: bool, k: nat)
    requires 2 <= base <= 16 && n < Pow2(k) && k >= 1
    ensures |Digits(n, base, upper)| <= k
  {
    if n >= base {
      HalvesAtLeast(n, base, Pow2(k - 1));
      assert k > 1;
      DigitCount(n / base, base, upper, k - 1);
    }
  }

  /** Any 64-bit number fits the 64-byte digit buffer, whatever the base. */
  lemma DigitsFit(n: nat, base: nat, upper: bool)
    requires 2 <= base <= 16 && n < UINT64
    ensures |Digits(n, base, upper)| <= 64
  {
    Pow2Of64();
    DigitCount(n, base, upper, 64);
  }

  // ----- full texts

  function Repeat(c: char, n: nat): (s: string)
    ensures |s| == n && forall i :: 0 <= i < n ==> s[i] == c
  {
    seq(n, _ => c)
  }

  function Minus(a: nat, b: nat): nat {
    if a > b then a - b else 0
  }

  function SignText(f: Flags): string {
    if f.plus then "+" else if f.space then " " else ""
  }

  /** The "0x" prefix is written only in base 16 with the '#' flag. */
  predicate Prefixed(base: nat, f: Flags) {
    f.hash && base == 16
  }

  function PrefixText(base: nat, f: Flags): string {
    if !Prefixed(base, f) then "" else if f.upper then "0X" else "0x"
  }

  function NumberPad(num: nat, base: nat, width: nat, f: Flags): nat
    requires 2 <= base <= 16
  {
    Minus(width, |Digits(num, base, f.upper)| + |PrefixText(base, f)| + |SignText(f)|)
  }

  /** Sign, prefix, padding and digits in their order. */
  function Layout(ds: string, pad: nat, base: nat, f: Flags): string {
    if f.left then SignText(f) + PrefixText(base, f) + ds + Repeat(' ', pad)
    else if f.zero then SignText(f) + PrefixText(base, f) + Repeat('0', pad) + ds
    else Repeat(' ', pad) + SignText(f) + PrefixText(base, f) + ds
  }

  /** A number with room for everything. */
  function NumberText(num: nat, base: nat, width: nat, f: Flags): string
    requires 2 <= base <= 16
  {
    Layout(Digits(num, base, f.upper), NumberPad(num, base, width, f), base, f)
  }

  /** The source string cut at the precision; null prints as "(null)". */
  function SourceText(src: Option<string>, precision: int): string {
    var s := if src.None? then "(null)" else src.value;
    if 0 <= precision < |s| then s[..precision] else s
  }

  function StringText(src: Option<string>, width: nat, precision: int, f: Flags): string {
    var s := SourceText(src, precision);
    var pad := Minus(width, |s|);
    if f.left then s + Repeat(' ', pad) else Repeat(if f.zero then '0' else ' ', pad) + s
  }

  function CharacterText(c: char, width: nat, left: bool): string {
    if left then [c] + Repeat(' ', Minus(width, 1)) else Repeat(' ', Minus(width, 1)) + [c]
  }

  ghost predicate Sensible(ch: Chunk) {
    && (ch.Number? ==> 2 <= ch.base <= 16 && ch.num < UINT64)
    && (ch.Report? ==> ch.modulus > 0)
  }

  function FullText(ch: Chunk): string
    requires Sensible(ch)
  {
    match ch
    case Literal(t) => t
    case Number(num, base, width, f) => NumberText(num, base, width, f)
    case Text(src, width, precision, f) => StringText(src, width, precision, f)
    case Character(c, width, left) => CharacterText(c, width, left)
    case Report(_, _) => ""
  }

  // ----- bounded emission

  function Take(s: string, room: nat): (r: string)
    ensures |r| == if |s| <= room then |s| else room
  {
    if |s| <= room then s else s[..room]
  }

  /** `out` followed by as much of `t` as fits in `room` characters altogether. */
  function Cap(out: string, t: string, room: nat): (r: string)
    requires |out| <= room
    ensures out <= r && |r| == if |out| + |t| <= room then |out| + |t| else room
  {
    out + Take(t, room - |out|)
  }

  /** Writing piece by piece into limited room writes a prefix of the whole. */
  lemma CapIsTake(done: string, t: string, room: nat)
    ensures Cap(Take(done, room), t, room) == Take(done + t, room)
  {
  }

  /** The two-character prefix is written whole or not at all. */
  function CapPrefix(out: string, base: nat, f: Flags, room: nat): (r: string)
    requires |out| <= room
    ensures out <= r && |r| <= room
  {
    if Prefixed(base, f) && |out| + 1 < room then out + PrefixText(base, f) else out
  }

  /** The layout written into `room` characters, in the order of `write_num`. */
  function EmitLayout(ds: string, pad: nat, base: nat, f: Flags, room: nat): (r: string)
    ensures |r| <= room
  {
    if !f.left && f.zero then
      var o1 := Cap("", SignText(f), room);
      var o2 := CapPrefix(o1, base, f, room);
      var o3 := Cap(o2, Repeat('0', pad), room);
      var o4 := if |o2| > |o1| then o3 else CapPrefix(o3, base, f, room);
      Cap(o4, ds, room)
    else
      var o1 := if f.left then "" else Cap("", Repeat(' ', pad), room);
      var o2 := CapPrefix(Cap(o1, SignText(f), room), base, f, room);
      var o3 := Cap(o2, ds, room);
      if f.left then Cap(o3, Repeat(' ', pad), room) else o3
  }

  /** What `write_num` puts into `room` characters. */
  function EmitNumber(num: nat, base: nat, width: nat, f: Flags, room: nat): (r: string)
    requires 2 <= base <= 16
    ensures |r| <= room
  {
    EmitLayout(Digits(num, base, f.upper), NumberPad(num, base, width, f), base, f, room)
  }

  function Emit(ch: Chunk, room: nat): (r: string)
    requires Sensible(ch)
    ensures |r| <= room
  {
    match ch
    case Number(num, base, width, f) => EmitNumber(num, base, width, f, room)
    case _ => Take(FullText(ch), room)
  }

  /** What the chunk adds to the return value. The padding of a character counts only as far
      as it was written. */
  function Count(ch: Chunk, room: nat): nat
    requires Sensible(ch)
  {
    match ch
    case Character(c, width, left) =>
      var pads := Minus(width, 1);
      var space := if left then Minus(room, 1) else room;
      1 + if pads <= space then pads else space
    case _ => |FullText(ch)|
  }

  ghost predicate AllSensible(chunks: seq<Chunk>) {
    forall i :: 0 <= i < |chunks| ==> Sensible(chunks[i])
  }

  /** The text written for a list of chunks into `max` characters. */
  function Out(chunks: seq<Chunk>, max: nat): (r: string)
    requires AllSensible(chunks)
    ensures |r| <= max
  {
    if chunks == [] then "" else
    var o := Out(chunks[..|chunks| - 1], max);
    o + Emit(chunks[|chunks| - 1], max - |o|)
  }

  /** The return value. */
  function Ret(chunks: seq<Chunk>, max: nat): nat
    requires AllSensible(chunks)
  {
    if chunks == [] then 0 else
    var o := Out(chunks[..|chunks| - 1], max);
    Ret(chunks[..|chunks| - 1], max) + Count(chunks[|chunks| - 1], max - |o|)
  }

  /** A value as the C type of the given width would hold it. */
  function Wrap(v: int, modulus: nat): int
    requires modulus > 0
  {
    if v % modulus < modulus / 2 then v % modulus else v % modulus - modulus
  }

  /** What one chunk stores when `total` characters were counted before it. */
  function Stored(ch: Chunk, total: nat): seq<(nat, int)>
    requires Sensible(ch)
  {
    if ch.Report? then [(ch.arg, Wrap(total, ch.modulus))] else []
  }

  /** The counts stored through arguments, in order. */
  function Reports(chunks: seq<Chunk>, max: nat): seq<(nat, int)>
    requires AllSensible(chunks)
  {
    if chunks == [] then [] else
    var init := chunks[..|chunks| - 1];
    Reports(init, max) + Stored(chunks[|chunks| - 1], Ret(init, max))
  }

  function Full(chunks: seq<Chunk>): string
    requires AllSensible(chunks)
  {
    if chunks == [] then "" else Full(chunks[..|chunks| - 1]) + FullText(chunks[|chunks| - 1])
  }

  // ----- laws

  predicate PaddedCharacter(ch: Chunk) {
    ch.Character? && ch.width > 1
  }

  lemma ThreeCaps(a: string, b: string, c: string, room: nat)
    ensures Cap(Cap(Cap("", a, room), b, room), c, room) == Take(a + b + c, room)
  {
    assert Take("", room) == "" && "" + a == a;
    CapIsTake("", a, room);
    CapIsTake(a, b, room);
    CapIsTake(a + b, c, room);
    hide Take, Cap;
  }

  lemma NoPrefix(o: string, base: nat, f: Flags, room: nat)
    requires !Prefixed(base, f) && |o| <= room
    ensures CapPrefix(o, base, f, room) == o
  {
  }

  lemma PlainLayout(ds: string, pad: nat, base: nat, f: Flags, room: nat)
    requires !Prefixed(base, f)
    ensures EmitLayout(ds, pad, base, f, room) == Take(Layout(ds, pad, base, f), room)
  {
    hide Take, Cap, CapPrefix, Repeat, SignText, PrefixText, Prefixed;
    var sign := SignText(f);
    var pads := Repeat(if !f.left && f.zero then '0' else ' ', pad);
    NoPrefixText(sign, base, f);
    NoPrefixText(pads + sign, base, f);
    var s1, p1 := Cap("", sign, room), Cap("", pads, room);
    NoPrefix(s1, base, f, room);
    NoPrefix(Cap(s1, pads, room), base, f, room);
    NoPrefix(Cap(p1, sign, room), base, f, room);
    if f.left {
      ThreeCaps(sign, ds, pads, room);
    } else if f.zero {
      ThreeCaps(sign, pads, ds, room);
    } else {
      ThreeCaps(pads, sign, ds, room);
    }
  }

  lemma NoPrefixText(o: string, base: nat, f: Flags)
    requires !Prefixed(base, f)
    ensures o + PrefixText(base, f) == o
  {
  }

  lemma LayoutLength(ds: string, pad: nat, base: nat, f: Flags)
    ensures |Layout(ds, pad, base, f)| == |SignText(f)| + |PrefixText(base, f)| + |ds| + pad
  {
  }

  /** Every number fills its room exactly, prefix or not: no gap is ever left. */
  lemma LayoutFills(ds: string, pad: nat, base: nat, f: Flags, room: nat)
    requires |ds| >= 1
    ensures |EmitLayout(ds, pad, base, f, room)|
            == if |Layout(ds, pad, base, f)| <= room then |Layout(ds, pad, base, f)| else room
  {
    LayoutLength(ds, pad, base, f);
    hide Take, Layout, Repeat;
  }

  lemma EmitFills(num: nat, base: nat, width: nat, f: Flags, room: nat)
    requires 2 <= base <= 16
    ensures |EmitNumber(num, base, width, f, room)|
            == if |NumberText(num, base, width, f)| <= room then |NumberText(num, base, width, f)| else room
  {
    hide EmitLayout, Layout, Digits;
    LayoutFills(Digits(num, base, f.upper), NumberPad(num, base, width, f), base, f, room);
  }

  // ----- cutting a number short

  /** What stands before the "0x" prefix, and what stands behind it. */
  function Lead(pad: nat, f: Flags): string {
    if f.left || f.zero then SignText(f) else Repeat(' ', pad) + SignText(f)
  }

  function Tail(ds: string, pad: nat, f: Flags): string {
    if f.left then ds + Repeat(' ', pad) else if f.zero then Repeat('0', pad) + ds else ds
  }

  lemma LayoutSplits(ds: string, pad: nat, base: nat, f: Flags)
    ensures Layout(ds, pad, base, f) == Lead(pad, f) + PrefixText(base, f) + Tail(ds, pad, f)
  {
    hide Repeat, SignText, PrefixText;
    var sign, prefix, blanks, zeros := SignText(f), PrefixText(base, f), Repeat(' ', pad), Repeat('0', pad);
    assert sign + prefix + ds + blanks == sign + prefix + (ds + blanks);
    assert sign + prefix + zeros + ds == sign + prefix + (zeros + ds);
  }

  lemma CapTwice(o: string, a: string, b: string, room: nat)
    requires |o| <= room
    ensures Cap(Cap(o, a, room), b, room) == Cap(o, a + b, room)
  {
  }

  /** The second chance to write the prefix comes only when there is no room for it. */
  lemma PrefixOnce(o: string, t: string, base: nat, f: Flags, room: nat)
    requires |o| <= room && |CapPrefix(o, base, f, room)| == |o|
    ensures CapPrefix(o, base, f, room) == o
    ensures CapPrefix(Cap(o, t, room), base, f, room) == Cap(o, t, room)
  {
  }

  lemma EmitSplits(ds: string, pad: nat, base: nat, f: Flags, room: nat)
    ensures EmitLayout(ds, pad, base, f, room)
            == Cap(CapPrefix(Cap("", Lead(pad, f), room), base, f, room), Tail(ds, pad, f), room)
  {
    hide Repeat, SignText, PrefixText, Cap, CapPrefix, Take;
    var sign, blanks, zeros := SignText(f), Repeat(' ', pad), Repeat('0', pad);
    CapTwice("", blanks, sign, room);
    var o := CapPrefix(Cap("", sign, room), base, f, room);
    CapTwice(o, ds, blanks, room);
    CapTwice(o, zeros, ds, room);
    if |o| == |Cap("", sign, room)| {
      PrefixOnce(Cap("", sign, room), zeros, base, f, room);
    }
  }

  /** The prefix is dropped when one character is left for it: what comes instead is the
      first character behind it. */
  lemma PrefixCut(lead: string, tail: string, base: nat, f: Flags, room: nat)
    requires Prefixed(base, f) && |tail| >= 1
    ensures var whole := lead + PrefixText(base, f) + tail;
            var out := Cap(CapPrefix(Cap("", lead, room), base, f, room), tail, room);
            if room == |lead| + 1 then out == lead + tail[..1] else out == Take(whole, room)
  {
    var whole := lead + PrefixText(base, f) + tail;
    if room <= |lead| {
      assert Take(whole, room) == lead[..room];
    } else if room == |lead| + 1 {
    } else if room >= |whole| {
    } else {
      assert whole[..room] == lead + PrefixText(base, f) + tail[..room - |lead| - 2];
    }
  }

  /** Some room makes the number's text no prefix of its full text: a "0x" stands before a
      character other than '0'. */
  predicate Brittle(ch: Chunk) {
    && ch.Number? && Prefixed(ch.base, ch.flags) && ch.num != 0
    && (ch.flags.left || !ch.flags.zero || NumberPad(ch.num, ch.base, ch.width, ch.flags) == 0)
  }

  lemma {:induction false} LeadDigit(n: nat, base: nat, upper: bool)
    requires 2 <= base <= 16
    ensures Digits(n, base, upper)[0] == '0' <==> n == 0
  {
    if n < base {
      SmallDivision(n, base);
      ZeroOnly(n, upper);
    } else {
      QuotientSmaller(n, base);
      HalvesAtLeast(n, base, n);
      LeadDigit(n / base, base, upper);
      assert n / base > 0 by {
        DivisionIdentity(n, base);
      }
    }
  }

  lemma ZeroOnly(d: nat, upper: bool)
    requires d < 16
    ensures DigitChar(d, upper) == '0' <==> d == 0
  {
    DigitRoundTrip(d, upper);
    DigitRoundTrip(0, upper);
  }

  lemma TailStarts(ch: Chunk)
    requires Sensible(ch) && ch.Number?
    ensures var tail := Tail(Digits(ch.num, ch.base, ch.flags.upper), NumberPad(ch.num, ch.base, ch.width, ch.flags), ch.flags);
            |tail| >= 1 && (Prefixed(ch.base, ch.flags) ==> (tail[0] == '0' <==> !Brittle(ch)))
  {
    LeadDigit(ch.num, ch.base, ch.flags.upper);
    hide Digits;
  }

  lemma LeadTake(lead: string, prefix: string, tail: string)
    requires |prefix| == 2 && |tail| >= 1 && prefix[0] == tail[0]
    ensures lead + tail[..1] == Take(lead + prefix + tail, |lead| + 1)
  {
  }

  /** Every other chunk, cut to any room, is that prefix of its full text. */
  lemma EmitCuts(ch: Chunk, room: nat)
    requires Sensible(ch) && !Brittle(ch)
    ensures Emit(ch, room) == Take(FullText(ch), room)
  {
    if ch.Number? {
      var ds, pad := Digits(ch.num, ch.base, ch.flags.upper), NumberPad(ch.num, ch.base, ch.width, ch.flags);
      if Prefixed(ch.base, ch.flags) {
        TailStarts(ch);
        var prefix := PrefixText(ch.base, ch.flags);
        assert |prefix| == 2 && prefix[0] == '0';
        hide Digits, EmitLayout, Layout, Tail, Lead, NumberPad, PrefixText, Brittle, Take, Cap, CapPrefix;
        LayoutSplits(ds, pad, ch.base, ch.flags);
        EmitSplits(ds, pad, ch.base, ch.flags, room);
        PrefixCut(Lead(pad, ch.flags), Tail(ds, pad, ch.flags), ch.base, ch.flags, room);
        LeadTake(Lead(pad, ch.flags), prefix, Tail(ds, pad, ch.flags));
      } else {
        hide EmitLayout, Layout, Digits, Take;
        PlainLayout(ds, pad, ch.base, ch.flags, room);
      }
    }
  }

  /** Where a brittle chunk shows it: cut behind the position of its prefix. */
  function CutAt(ch: Chunk): nat
    requires Sensible(ch)
  {
    if ch.Number? then |Lead(NumberPad(ch.num, ch.base, ch.width, ch.flags), ch.flags)| else 0
  }

  lemma CutShows(lead: string, prefix: string, tail: string)
    requires |prefix| == 2 && |tail| >= 1
    ensures var k, whole, cut := |lead|, lead + prefix + tail, lead + tail[..1];
            k + 1 < |whole| && whole[k] == prefix[0] && |cut| == k + 1 && cut[k] == tail[0]
  {
  }

  lemma BrittleBreaks(ch: Chunk, room: nat)
    requires Sensible(ch) && Brittle(ch)
    ensures var k := CutAt(ch);
            && k + 1 < |FullText(ch)| && |Emit(ch, k + 1)| == k + 1 && Emit(ch, k + 1)[k] != FullText(ch)[k]
            && (room > k + 1 ==> Emit(ch, room) == Take(FullText(ch), room))
  {
    var ds, pad := Digits(ch.num, ch.base, ch.flags.upper), NumberPad(ch.num, ch.base, ch.width, ch.flags);
    TailStarts(ch);
    var lead, prefix, tail := Lead(pad, ch.flags), PrefixText(ch.base, ch.flags), Tail(ds, pad, ch.flags);
    assert |prefix| == 2 && prefix[0] == '0' && tail[0] != '0';
    hide Digits, EmitLayout, Layout, Tail, Lead, NumberPad, PrefixText, Take, Cap, CapPrefix, Brittle;
    LayoutSplits(ds, pad, ch.base, ch.flags);
    EmitSplits(ds, pad, ch.base, ch.flags, |lead| + 1);
    EmitSplits(ds, pad, ch.base, ch.flags, room);
    PrefixCut(lead, tail, ch.base, ch.flags, |lead| + 1);
    PrefixCut(lead, tail, ch.base, ch.flags, room);
    CutShows(lead, prefix, tail);
  }

  ghost predicate NoBrittle(chunks: seq<Chunk>) {
    forall i :: 0 <= i < |chunks| ==> !Brittle(chunks[i])
  }

  /** Without a brittle chunk the text for a given size is that prefix of the full text. */
  lemma {:induction false} OutIsPrefix(chunks: seq<Chunk>, max: nat)
    requires AllSensible(chunks) && NoBrittle(chunks)
    ensures Out(chunks, max) == Take(Full(chunks), max)
  {
    if chunks == [] {
    } else {
      var init, last := chunks[..|chunks| - 1], chunks[|chunks| - 1];
      OutIsPrefix(init, max);
      EmitCuts(last, max - |Out(init, max)|);
      CapIsTake(Full(init), FullText(last), max);
      hide Emit, FullText, Take;
    }
  }

  lemma ReportsSnoc(done: seq<Chunk>, ch: Chunk, max: nat)
    requires AllSensible(done) && Sensible(ch)
    ensures AllSensible(done + [ch])
    ensures Reports(done + [ch], max) == Reports(done, max) + Stored(ch, Ret(done, max))
  {
    hide Sensible, Stored, Ret;
    var all := done + [ch];
    assert all[..|all| - 1] == done && all[|all| - 1] == ch;
  }

  lemma OutSnoc(done: seq<Chunk>, ch: Chunk, max: nat)
    requires AllSensible(done) && Sensible(ch)
    ensures AllSensible(done + [ch])
    ensures var o := Out(done, max);
            && Out(done + [ch], max) == o + Emit(ch, max - |o|)
            && Ret(done + [ch], max) == Ret(done, max) + Count(ch, max - |o|)
  {
    hide Emit, Count, Sensible, FullText;
    var all := done + [ch];
    assert all[..|all| - 1] == done && all[|all| - 1] == ch;
    LastStep(all, max);
    hide Out, Ret;
  }

  lemma LastStep(all: seq<Chunk>, max: nat)
    requires AllSensible(all) && all != []
    ensures var init, last := all[..|all| - 1], all[|all| - 1];
            && Out(all, max) == Out(init, max) + Emit(last, max - |Out(init, max)|)
            && Ret(all, max) == Ret(init, max) + Count(last, max - |Out(init, max)|)
  {
    hide Emit, Count, Sensible, FullText;
  }

  /** Two sizes whose texts differ at a position both have. */
  ghost predicate Differ(chunks: seq<Chunk>, small: nat, large: nat, i: nat)
    requires AllSensible(chunks)
  {
    && small <= large && i < |Out(chunks, small)| && i < |Out(chunks, large)|
    && Out(chunks, small)[i] != Out(chunks, large)[i]
  }

  lemma LastBreaks(init: seq<Chunk>, last: Chunk)
    requires AllSensible(init) && Sensible(last) && NoBrittle(init) && Brittle(last)
    ensures var n, k := |Full(init)|, CutAt(last);
            && AllSensible(init + [last])
            && Differ(init + [last], n + k + 1, n + |FullText(last)|, n + k)
  {
    hide Emit, FullText, CutAt, Brittle, Out, Full, Sensible, AllSensible, NoBrittle, Count;
    var text, k := FullText(last), CutAt(last);
    var small, large := |Full(init)| + k + 1, |Full(init)| + |text|;
    BrittleBreaks(last, |text|);
    OutIsPrefix(init, small);
    OutIsPrefix(init, large);
    OutSnoc(init, last, small);
    OutSnoc(init, last, large);
  }

  lemma Longer(init: seq<Chunk>, last: Chunk, small: nat, large: nat, i: nat)
    requires AllSensible(init) && Sensible(last) && Differ(init, small, large, i)
    ensures AllSensible(init + [last]) && Differ(init + [last], small, large, i)
  {
    hide Emit, FullText, Out, Sensible, AllSensible, Count;
    OutSnoc(init, last, small);
    OutSnoc(init, last, large);
  }

  /** With a brittle chunk two sizes disagree: the first such chunk shows it. */
  lemma {:induction false} BrittleShows(chunks: seq<Chunk>) returns (small: nat, large: nat, i: nat)
    requires AllSensible(chunks) && !NoBrittle(chunks)
    ensures Differ(chunks, small, large, i)
  {
    hide Brittle, Sensible, Differ, CutAt, FullText, Full;
    var init, last := chunks[..|chunks| - 1], chunks[|chunks| - 1];
    assert chunks == init + [last];
    if NoBrittle(init) {
      small, large, i := |Full(init)| + CutAt(last) + 1, |Full(init)| + |FullText(last)|, |Full(init)| + CutAt(last);
      LastBreaks(init, last);
    } else {
      small, large, i := BrittleShows(init);
      Longer(init, last, small, large, i);
    }
  }

  ghost predicate Prefixes(chunks: seq<Chunk>)
    requires AllSensible(chunks)
  {
    forall small: nat, large: nat :: small <= large ==> Out(chunks, small) <= Out(chunks, large)
  }

  /** A smaller size gives a prefix of what a larger size gives, for every two sizes, if and
      only if no chunk is brittle. */
  lemma PrefixesIff(chunks: seq<Chunk>)
    requires AllSensible(chunks)
    ensures Prefixes(chunks) <==> NoBrittle(chunks)
  {
    if NoBrittle(chunks) {
      forall small: nat, large: nat | small <= large
        ensures Out(chunks, small) <= Out(chunks, large)
      {
        OutIsPrefix(chunks, small);
        OutIsPrefix(chunks, large);
      }
    } else {
      var small, large, i := BrittleShows(chunks);
      assert !(Out(chunks, small) <= Out(chunks, large));
    }
  }

  /** The most and the least a chunk can count. */
  lemma CountBound(ch: Chunk, room: nat)
    requires Sensible(ch)
    ensures Count(ch, room) <= |FullText(ch)|
    ensures !PaddedCharacter(ch) ==> Count(ch, room) == |FullText(ch)|
    ensures PaddedCharacter(ch) ==> Count(ch, 0) < |FullText(ch)|
  {
  }

  ghost predicate NoPadded(chunks: seq<Chunk>) {
    forall i :: 0 <= i < |chunks| ==> !PaddedCharacter(chunks[i])
  }

  lemma {:induction false} RetBound(chunks: seq<Chunk>, max: nat)
    requires AllSensible(chunks)
    ensures Ret(chunks, max) <= |Full(chunks)|
    ensures NoPadded(chunks) ==> Ret(chunks, max) == |Full(chunks)|
    ensures !NoPadded(chunks) ==> Ret(chunks, 0) < |Full(chunks)|
  {
    if chunks == [] {
    } else {
      var init, last := chunks[..|chunks| - 1], chunks[|chunks| - 1];
      assert AllSensible(init) && Sensible(last);
      assert NoPadded(chunks) <==> NoPadded(init) && !PaddedCharacter(last);
      CountBound(last, max - |Out(init, max)|);
      CountBound(last, 0);
      hide Count, FullText, PaddedCharacter, NoPadded, AllSensible, Sensible, Emit, Out;
      RetBound(init, max);
      RetBound(init, 0);
    }
  }

  /** The return value is the full length at every size if and only if no character carries
      padding. */
  lemma ReturnsFullLengthIff(chunks: seq<Chunk>)
    requires AllSensible(chunks)
    ensures (forall max: nat :: Ret(chunks, max) == |Full(chunks)|) <==> NoPadded(chunks)
  {
    forall max: nat
      ensures NoPadded(chunks) ==> Ret(chunks, max) == |Full(chunks)|
      ensures !NoPadded(chunks) ==> Ret(chunks, 0) < |Full(chunks)|
    {
      RetBound(chunks, max);
    }
    RetBound(chunks, 0);
  }
}
