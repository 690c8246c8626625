/** What a format means, on the text: how a directive is spelled, and what each conversion puts
    out for its argument. */
module FormatText {
  import opened Options
  import Decimal
  import opened FormatModel
  import opened FormatParse

  // ----- fields

  /** `t` is `head` and `body` in a field of at least `width` characters: blanks behind when
      left-justified, otherwise zeros between the two or blanks in front. */
  ghost predicate IsField(t: string, head: string, body: string, width: nat, left: bool, zero: bool) {
    var n := |head| + |body|;
    var pad := if width > n then width - n else 0;
    && |t| == n + pad
    && (left ==> t[..n] == head + body && forall k :: n <= k < |t| ==> t[k] == ' ')
    && (!left && zero ==> t[..|head|] == head && t[|head| + pad..] == body && forall k :: |head| <= k < |head| + pad ==> t[k] == '0')
    && (!left && !zero ==> t[pad..] == head + body && forall k :: 0 <= k < pad ==> t[k] == ' ')
  }

  /** `s` writes `n` in base `base`, without leading zeros and in the letter case asked for. */
  ghost predicate IsNumeral(s: string, n: nat, base: nat, upper: bool) {
    && |s| > 0 && Decode(s, base) == n && (|s| > 1 ==> s[0] != '0')
    && forall k :: 0 <= k < |s| ==> IsNumeralDigit(s[k], base, upper)
  }

  predicate IsNumeralDigit(c: char, base: nat, upper: bool) {
    ('0' <= c <= '9' || (if upper then 'A' <= c <= 'F' else 'a' <= c <= 'f')) && DigitValue(c) < base
  }

  lemma DigitOf(d: nat, base: nat, upper: bool)
    requires d < base <= 16
    ensures IsNumeralDigit(DigitChar(d, upper), base, upper)
  {
    DigitRoundTrip(d, upper);
    if upper {
      assert "0123456789ABCDEF" == ['0', '1', '2', '3', '4', '5', '6', '7', '8', '9', 'A', 'B', 'C', 'D', 'E', 'F'];
    } else {
      assert "0123456789abcdef" == ['0', '1', '2', '3', '4', '5', '6', '7', '8', '9', 'a', 'b', 'c', 'd', 'e', 'f'];
    }
  }

  lemma {:induction false} DigitsShape(n: nat, base: nat, upper: bool)
    requires 2 <= base <= 16
    ensures forall k :: 0 <= k < |Digits(n, base, upper)| ==> IsNumeralDigit(Digits(n, base, upper)[k], base, upper)
  {
    hide DigitChar, IsNumeralDigit;
    DigitOf(n % base, base, upper);
    if n >= base {
      QuotientSmaller(n, base);
      DigitsShape(n / base, base, upper);
    }
  }

  /** The digits of a number are its numeral. */
  lemma DigitsAreNumeral(n: nat, base: nat, upper: bool)
    requires 2 <= base <= 16
    ensures IsNumeral(Digits(n, base, upper), n, base, upper)
  {
    hide Decode, IsNumeralDigit;
    assert n == 0 ==> |Digits(n, base, upper)| == 1;
    hide Digits;
    DigitsDecode(n, base, upper);
    DigitsShape(n, base, upper);
    LeadDigit(n, base, upper);
  }

  /** A number is a field of its sign and prefix before its digits. */
  lemma NumberField(num: nat, base: nat, width: nat, f: Flags)
    requires 2 <= base <= 16
    ensures IsField(NumberText(num, base, width, f), SignText(f) + PrefixText(base, f), Digits(num, base, f.upper),
                    width, f.left, f.zero)
  {
    hide Digits, SignText, PrefixText;
    var ds := Digits(num, base, f.upper);
    var pad := NumberPad(num, base, width, f);
    LayoutIsField(ds, pad, base, width, f);
  }

  lemma LayoutIsField(ds: string, pad: nat, base: nat, width: nat, f: Flags)
    requires pad == Minus(width, |ds| + |PrefixText(base, f)| + |SignText(f)|)
    ensures IsField(Layout(ds, pad, base, f), SignText(f) + PrefixText(base, f), ds, width, f.left, f.zero)
  {
    hide SignText, PrefixText;
    LayoutField(SignText(f), PrefixText(base, f), ds, pad);
  }

  lemma LayoutField(sign: string, prefix: string, ds: string, pad: nat)
    ensures (sign + prefix + ds + Repeat(' ', pad))[..|sign + prefix| + |ds|] == (sign + prefix) + ds
    ensures (sign + prefix + Repeat('0', pad) + ds)[..|sign + prefix|] == sign + prefix
    ensures (sign + prefix + Repeat('0', pad) + ds)[|sign + prefix| + pad..] == ds
    ensures (Repeat(' ', pad) + sign + prefix + ds)[pad..] == (sign + prefix) + ds
  {
  }

  /** The string printed for `src`, cut at a precision that is not negative. */
  ghost predicate IsSource(body: string, src: Option<string>, precision: int) {
    var s := match src case Some(text) => text case None => "(null)";
    && body <= s
    && |body| == if 0 <= precision < |s| then precision else |s|
  }

  /** A string is a field of the source cut at the precision. */
  lemma StringField(src: Option<string>, width: nat, precision: int, f: Flags)
    ensures IsSource(SourceText(src, precision), src, precision)
    ensures IsField(StringText(src, width, precision, f), "", SourceText(src, precision), width, f.left, f.zero)
  {
    var body := SourceText(src, precision);
    assert IsSource(body, src, precision);
    hide SourceText, IsSource;
    LayoutField("", "", body, Minus(width, |body|));
    assert "" + "" + body == body && "" + body == body && "" + "" == "";
  }

  lemma CharacterField(c: char, width: nat, left: bool)
    ensures IsField(CharacterText(c, width, left), "", [c], width, left, false)
  {
    assert "" + [c] == [c];
  }

  // ----- spelling

  /** A width or a precision: not given, given by no digits at all, a number or an argument. */
  datatype Amount = Absent | Blank | Fixed(n: nat) | Star

  datatype Spec = Spec(flags: string, width: Amount, precision: Amount, letters: string, conv: char)

  function AmountText(x: Amount): string {
    match x
    case Fixed(n) => Digits(n, 10, false)
    case Star => "*"
    case _ => ""
  }

  function PrecisionText(x: Amount): string {
    if x == Absent then "" else "." + AmountText(x)
  }

  /** From behind the flags on, from behind the width on, and from behind the precision on. */
  function WidthOn(sp: Spec): string { AmountText(sp.width) + PrecisionOn(sp) }
  function PrecisionOn(sp: Spec): string { PrecisionText(sp.precision) + LettersOn(sp) }
  function LettersOn(sp: Spec): string { sp.letters + [sp.conv] }

  /** The directive as it stands in the format. */
  function Spelling(sp: Spec): string {
    "%" + (sp.flags + WidthOn(sp))
  }

  predicate LengthLetters(s: string) {
    s == "" || s == "hh" || s == "h" || s == "l" || s == "ll" || s == "j" || s == "z" || s == "t" || s == "L"
  }

  /** A character that ends a directive and is no part of the rest of it. */
  predicate Ends(c: char) {
    && c != NUL && c != '%' && !IsFlag(c) && !IsDigit(c) && c != '*' && c != '.'
    && c != 'h' && c != 'l' && c != 'j' && c != 'z' && c != 't' && c != 'L'
  }

  ghost predicate WellSpelled(sp: Spec) {
    && (forall k :: 0 <= k < |sp.flags| ==> IsFlag(sp.flags[k]))
    && sp.width != Blank && (sp.width.Fixed? ==> sp.width.n > 0)
    && LengthLetters(sp.letters) && Ends(sp.conv)
  }

  // ----- reading the parts

  ghost predicate StandsAt(fmt: string, i: nat, s: string) {
    i + |s| <= |fmt| && fmt[i..i + |s|] == s
  }

  lemma StandsParts(fmt: string, i: nat, a: string, b: string)
    requires StandsAt(fmt, i, a + b)
    ensures StandsAt(fmt, i, a) && StandsAt(fmt, i + |a|, b)
  {
    var ab := fmt[i..i + |a + b|];
    assert fmt[i..i + |a|] == ab[..|a|] == a;
    assert fmt[i + |a|..i + |a| + |b|] == ab[|a|..] == b;
  }

  lemma StandsFirst(fmt: string, i: nat, s: string)
    requires StandsAt(fmt, i, s) && s != ""
    ensures At(fmt, i) == s[0] && i < |fmt| && StandsAt(fmt, i + 1, s[1..])
  {
    assert fmt[i] == fmt[i..i + |s|][0];
    assert fmt[i + 1..i + 1 + |s[1..]|] == fmt[i..i + |s|][1..];
  }

  predicate Carries(s: string, c: char) { c in s }

  /** The flags `s` adds to `f`. */
  ghost predicate FlagsRead(f: Flags, s: string, r: Flags) {
    && (r.left <==> f.left || Carries(s, '-')) && (r.plus <==> f.plus || Carries(s, '+'))
    && (r.space <==> f.space || Carries(s, ' ')) && (r.hash <==> f.hash || Carries(s, '#'))
    && (r.zero <==> f.zero || Carries(s, '0')) && r.upper == f.upper
  }

  lemma OneFlag(f: Flags, c: char, s: string, r: Flags)
    requires IsFlag(c) && FlagsRead(WithFlag(f, c), s, r)
    ensures FlagsRead(f, [c] + s, r)
  {
    hide Carries;
    OneMore(c, s, '-');
    OneMore(c, s, '+');
    OneMore(c, s, ' ');
    OneMore(c, s, '#');
    OneMore(c, s, '0');
  }

  lemma OneMore(c: char, s: string, x: char)
    ensures Carries([c] + s, x) <==> x == c || Carries(s, x)
  {
  }

  lemma {:induction false} FlagsReadBack(fmt: string, i: nat, s: string, f: Flags)
    requires StandsAt(fmt, i, s) && (forall k :: 0 <= k < |s| ==> IsFlag(s[k])) && !IsFlag(At(fmt, i + |s|))
    ensures ParseFlags(fmt, i, f).1 == i + |s| && FlagsRead(f, s, ParseFlags(fmt, i, f).0)
    decreases |s|
  {
    hide WithFlag, FlagsRead;
    if s == "" {
      NoFlags(f);
    } else {
      StandsFirst(fmt, i, s);
      assert IsFlag(s[0]);
      FlagsReadBack(fmt, i + 1, s[1..], WithFlag(f, s[0]));
      OneFlag(f, s[0], s[1..], ParseFlags(fmt, i, f).0);
      assert s == [s[0]] + s[1..];
    }
  }

  lemma NoFlags(f: Flags)
    ensures FlagsRead(f, "", f)
  {
  }

  lemma {:induction false} NumberPasses(fmt: string, i: nat, n: nat)
    requires StandsAt(fmt, i, Digits(n, 10, false))
    ensures ParseNumber(fmt, i, 0) == ParseNumber(fmt, i + |Digits(n, 10, false)|, n)
  {
    var init, last := LastDigit(n);
    hide DigitChar, Digits, StandsAt;
    StandsParts(fmt, i, init, [last]);
    StandsFirst(fmt, i + |init|, [last]);
    if n >= 10 {
      NumberPasses(fmt, i, n / 10);
    }
  }

  lemma LastDigit(n: nat) returns (init: string, last: char)
    ensures Digits(n, 10, false) == init + [last] && IsDigit(last)
    ensures (last - '0') as nat == n % 10 && n == 10 * (n / 10) + (last - '0') as nat
    ensures if n < 10 then init == "" && n / 10 == 0 else init == Digits(n / 10, 10, false)
  {
    Decimal.DecimalDigit(n % 10);
    init := if n < 10 then "" else Digits(n / 10, 10, false);
    last := DigitChar(n % 10, false);
  }

  lemma NumberReadsBack(fmt: string, i: nat, n: nat)
    requires StandsAt(fmt, i, Digits(n, 10, false)) && !IsDigit(At(fmt, i + |Digits(n, 10, false)|))
    ensures ParseNumber(fmt, i, 0) == (n, i + |Digits(n, 10, false)|)
  {
    NumberPasses(fmt, i, n);
    hide Digits;
  }

  /** How many bytes the argument has, by the letters of the length modifier. */
  function ArgModulus(letters: string): nat {
    if letters == "hh" then 0x100
    else if letters == "h" then 0x1_0000
    else if letters == "" || letters == "L" then 0x1_0000_0000
    else 0x1_0000_0000_0000_0000
  }

  lemma LettersReadBack(fmt: string, i: nat, letters: string, c: char)
    requires LengthLetters(letters) && Ends(c) && StandsAt(fmt, i, letters + [c])
    ensures var (l, at) := ParseLength(fmt, i);
            && at == i + |letters| && At(fmt, at) == c
            && forall v :: UnsignedArg(l, v) == v % ArgModulus(letters) && SignedArg(l, v) == Wrap(v, ArgModulus(letters))
    ensures ReportModulus(ParseLength(fmt, i).0) == ArgModulus(letters)
  {
    var s := letters + [c];
    hide Wrap;
    StandsFirst(fmt, i, s);
    if |s| > 1 {
      StandsFirst(fmt, i + 1, s[1..]);
      if |s| > 2 {
        StandsFirst(fmt, i + 2, s[1..][1..]);
      }
    }
  }

  // ----- reading a directive

  ghost predicate IntAt(args: seq<Arg>, a: nat) {
    a < |args| && args[a].IntArg? && -0x8000_0000 <= args[a].v < 0x8000_0000
  }

  ghost predicate AmountGiven(x: Amount, args: seq<Arg>, a: nat) {
    x == Star ==> IntAt(args, a)
  }

  function Taken(x: Amount): nat {
    if x == Star then 1 else 0
  }

  /** The number an amount stands for, with `none` for one that is not given. */
  function Worth(x: Amount, args: seq<Arg>, a: nat, none: int): int {
    match x
    case Absent => none
    case Blank => 0
    case Fixed(n) => n
    case Star => IntOf(args, a)
  }

  lemma WidthReadsBack(fmt: string, i: nat, x: Amount, rest: string, f: Flags, args: seq<Arg>, a: nat)
    requires x != Blank && (x.Fixed? ==> x.n > 0) && AmountGiven(x, args, a)
    requires StandsAt(fmt, i, AmountText(x) + rest) && rest != "" && !IsDigit(rest[0]) && rest[0] != '*'
    ensures var asked := Worth(x, args, a, 0);
            ParseWidth(fmt, i, f, args, a)
            == (f.(left := f.left || asked < 0), if asked < 0 then -asked else asked, i + |AmountText(x)|, a + Taken(x))
  {
    hide Digits;
    StandsParts(fmt, i, AmountText(x), rest);
    StandsFirst(fmt, i + |AmountText(x)|, rest);
    match x {
      case Fixed(n) =>
        StandsFirst(fmt, i, Digits(n, 10, false));
        FirstIsDigit(n);
        NumberReadsBack(fmt, i, n);
      case Star =>
        StandsFirst(fmt, i, "*");
      case Absent =>
        assert i + |AmountText(x)| == i;
    }
  }

  lemma FirstIsDigit(n: nat)
    ensures IsDigit(Digits(n, 10, false)[0]) && (n > 0 ==> !IsFlag(Digits(n, 10, false)[0]))
  {
    DigitsShape(n, 10, false);
    LeadDigit(n, 10, false);
    var c := Digits(n, 10, false)[0];
    hide Digits;
    assert IsNumeralDigit(c, 10, false);
  }

  lemma PrecisionReadsBack(fmt: string, i: nat, x: Amount, rest: string, args: seq<Arg>, a: nat)
    requires AmountGiven(x, args, a)
    requires StandsAt(fmt, i, PrecisionText(x) + rest) && rest != "" && !IsDigit(rest[0]) && rest[0] != '.'
             && rest[0] != '*'
    ensures ParsePrecision(fmt, i, args, a) == (Worth(x, args, a, -1), i + |PrecisionText(x)|, a + Taken(x))
  {
    hide Digits, StandsAt, IsDigit, IsFlag, IntOf, Wrap;
    StandsParts(fmt, i, PrecisionText(x), rest);
    StandsFirst(fmt, i + |PrecisionText(x)|, rest);
    if x == Absent {
      assert i + |PrecisionText(x)| == i;
    } else {
      StandsParts(fmt, i, ".", AmountText(x));
      StandsFirst(fmt, i, ".");
      assert i + |"."| == i + 1 && i + |PrecisionText(x)| == i + 1 + |AmountText(x)|;
      match x {
        case Fixed(n) =>
          StandsFirst(fmt, i + 1, Digits(n, 10, false));
          FirstIsDigit(n);
          NoStar(Digits(n, 10, false)[0]);
          hide At;
          NumberReadsBack(fmt, i + 1, n);
        case Star =>
          StandsFirst(fmt, i + 1, "*");
          SmallInt(args, a);
        case Blank =>
      }
    }
  }

  lemma NoStar(c: char)
    requires IsDigit(c)
    ensures c != '*'
  {
  }

  lemma SmallInt(args: seq<Arg>, a: nat)
    requires IntAt(args, a)
    ensures Wrap(IntOf(args, a), FormatParse.UINT32) == IntOf(args, a)
  {
  }

  /** Behind its flags a directive goes on with something that is no flag, and so on. */
  lemma TailsGoOn(sp: Spec)
    requires WellSpelled(sp)
    ensures var s := LettersOn(sp); s != "" && !IsDigit(s[0]) && s[0] != '.' && s[0] != '*' && !IsFlag(s[0])
    ensures var s := PrecisionOn(sp); s != "" && !IsDigit(s[0]) && s[0] != '*' && !IsFlag(s[0])
    ensures var s := WidthOn(sp); s != "" && !IsFlag(s[0])
  {
    var l, p, w := LettersOn(sp), PrecisionOn(sp), WidthOn(sp);
    assert l[0] == if sp.letters == "" then sp.conv else sp.letters[0];
    assert p[0] == if sp.precision == Absent then l[0] else '.';
    if sp.width.Fixed? {
      FirstIsDigit(sp.width.n);
    }
    hide Digits;
    assert w[0] == if AmountText(sp.width) == "" then p[0] else AmountText(sp.width)[0];
  }

  ghost predicate FlagsAsked(sp: Spec, asked: int, f: Flags) {
    && (f.left <==> Carries(sp.flags, '-') || asked < 0) && (f.plus <==> Carries(sp.flags, '+'))
    && (f.space <==> Carries(sp.flags, ' ')) && (f.hash <==> Carries(sp.flags, '#'))
    && (f.zero <==> Carries(sp.flags, '0')) && !f.upper
  }

  /** What the parser hands to the conversion is what the directive spells. */
  ghost predicate Reads(sp: Spec, args: seq<Arg>, a: nat, d: Directive) {
    var asked := Worth(sp.width, args, a, 0);
    && FlagsAsked(sp, asked, d.flags)
    && d.width == (if asked < 0 then -asked else asked)
    && d.precision == Worth(sp.precision, args, a + Taken(sp.width), -1)
    && d.arg == a + Taken(sp.width) + Taken(sp.precision)
    && LengthMeans(d.length, ArgModulus(sp.letters))
  }

  ghost predicate LengthMeans(l: Length, m: nat) {
    m > 0 && ReportModulus(l) == m && forall v :: UnsignedArg(l, v) == v % m && SignedArg(l, v) == Wrap(v, m)
  }

  ghost predicate ArgumentsGiven(sp: Spec, args: seq<Arg>, a: nat) {
    AmountGiven(sp.width, args, a) && AmountGiven(sp.precision, args, a + Taken(sp.width))
  }

  /** Where the width, the precision and the length letters of a directive at `i` start. */
  function WidthAt(i: nat, sp: Spec): nat { i + 1 + |sp.flags| }
  function PrecisionAt(i: nat, sp: Spec): nat { WidthAt(i, sp) + |AmountText(sp.width)| }
  function LettersAt(i: nat, sp: Spec): nat { PrecisionAt(i, sp) + |PrecisionText(sp.precision)| }

  lemma FlagsStand(fmt: string, i: nat, sp: Spec)
    requires WellSpelled(sp) && StandsAt(fmt, i, Spelling(sp))
    ensures StandsAt(fmt, i + 1, sp.flags) && !IsFlag(At(fmt, WidthAt(i, sp)))
    ensures StandsAt(fmt, WidthAt(i, sp), WidthOn(sp))
  {
    TailsGoOn(sp);
    hide StandsAt, WidthOn, IsFlag, At, WellSpelled;
    StandsParts(fmt, i, "%", sp.flags + WidthOn(sp));
    assert i + |"%"| == i + 1;
    StandsParts(fmt, i + 1, sp.flags, WidthOn(sp));
    StandsFirst(fmt, WidthAt(i, sp), WidthOn(sp));
  }

  lemma PartsStand(fmt: string, i: nat, sp: Spec)
    requires StandsAt(fmt, WidthAt(i, sp), WidthOn(sp))
    ensures StandsAt(fmt, WidthAt(i, sp), AmountText(sp.width) + PrecisionOn(sp))
    ensures StandsAt(fmt, PrecisionAt(i, sp), PrecisionText(sp.precision) + LettersOn(sp))
    ensures StandsAt(fmt, LettersAt(i, sp), sp.letters + [sp.conv])
  {
    hide StandsAt, AmountText, PrecisionText, WidthAt;
    StandsParts(fmt, WidthAt(i, sp), AmountText(sp.width), PrecisionOn(sp));
    StandsParts(fmt, PrecisionAt(i, sp), PrecisionText(sp.precision), LettersOn(sp));
  }

  lemma SpellingLength(i: nat, sp: Spec)
    ensures i + |Spelling(sp)| == LettersAt(i, sp) + |sp.letters| + 1
  {
    hide AmountText, PrecisionText;
  }

  lemma WidthAndFlags(fmt: string, i: nat, sp: Spec, args: seq<Arg>, a: nat)
    requires WellSpelled(sp) && AmountGiven(sp.width, args, a) && StandsAt(fmt, i, Spelling(sp))
    ensures ParseFlags(fmt, i + 1, NO_FLAGS).1 == WidthAt(i, sp)
    ensures var (f, w, k, b) := ParseWidth(fmt, WidthAt(i, sp), ParseFlags(fmt, i + 1, NO_FLAGS).0, args, a);
            var asked := Worth(sp.width, args, a, 0);
            FlagsAsked(sp, asked, f) && w == (if asked < 0 then -asked else asked) && k == PrecisionAt(i, sp) && b == a + Taken(sp.width)
  {
    FlagsStand(fmt, i, sp);
    PartsStand(fmt, i, sp);
    TailsGoOn(sp);
    FlagsReadBack(fmt, i + 1, sp.flags, NO_FLAGS);
    var f := ParseFlags(fmt, i + 1, NO_FLAGS).0;
    WidthReadsBack(fmt, WidthAt(i, sp), sp.width, PrecisionOn(sp), f, args, a);
    hide ParseFlags, ParseWidth, StandsAt, AmountText, LettersOn, PrecisionOn, Spelling, At, IsFlag, IsDigit,
         Worth, Taken, WellSpelled;
  }

  /** Flags, width, precision and length letters are read as they are spelled, wherever the
      directive stands. */
  lemma DirectiveReadsBack(fmt: string, i: nat, sp: Spec, args: seq<Arg>, a: nat)
    requires WellSpelled(sp) && ArgumentsGiven(sp, args, a) && StandsAt(fmt, i, Spelling(sp))
    ensures var d := ParseDirective(fmt, i + 1, args, a);
            Reads(sp, args, a, d) && d.at + 1 == i + |Spelling(sp)| && At(fmt, d.at) == sp.conv
  {
    hide ParseFlags, ParseWidth, ParsePrecision, ParseLength, StandsAt, AmountText, PrecisionText, LettersOn, PrecisionOn,
         Spelling, LengthMeans, At, IsFlag, IsDigit, FlagsAsked, Worth, Taken, ArgModulus, AmountGiven;
    FlagsStand(fmt, i, sp);
    PartsStand(fmt, i, sp);
    TailsGoOn(sp);
    SpellingLength(i, sp);
    WidthAndFlags(fmt, i, sp, args, a);
    PrecisionReadsBack(fmt, PrecisionAt(i, sp), sp.precision, LettersOn(sp), args, a + Taken(sp.width));
    LengthReadsBack(fmt, LettersAt(i, sp), sp.letters, sp.conv);
    hide WellSpelled;
  }

  lemma LengthReadsBack(fmt: string, i: nat, letters: string, c: char)
    requires LengthLetters(letters) && Ends(c) && StandsAt(fmt, i, letters + [c])
    ensures var (l, at) := ParseLength(fmt, i);
            at == i + |letters| && At(fmt, at) == c && LengthMeans(l, ArgModulus(letters))
  {
    LettersReadBack(fmt, i, letters, c);
    hide ParseLength, StandsAt, UnsignedArg, SignedArg, Wrap;
  }

  // ----- what a directive puts out

  ghost predicate IsNumberField(t: string, head: string, n: nat, base: nat, upper: bool, width: nat, left: bool,
                                zero: bool) {
    exists ds: string :: IsNumeral(ds, n, base, upper) && IsField(t, head, ds, width, left, zero)
  }

  ghost predicate IsStringField(t: string, src: Option<string>, precision: int, width: nat, left: bool, zero: bool) {
    exists body: string :: IsSource(body, src, precision) && IsField(t, "", body, width, left, zero)
  }

  /** A signed number: a minus sign stands outside the field and replaces the other signs. */
  ghost predicate IsSignedField(t: string, sign: string, n: int, width: nat, left: bool, zero: bool) {
    if n >= 0 then IsNumberField(t, sign, n, 10, false, width, left, zero)
    else t != "" && t[0] == '-' && IsNumberField(t[1..], "", -n, 10, false, width, left, zero)
  }

  /** The remainder of `v` modulo `m` that lies from -m/2 up to m/2. */
  function SignedRemainder(v: int, m: nat): int
    requires m > 0
  {
    if 2 * (v % m) < m then v % m else v % m - m
  }

  /** The width asked for; a negative argument asks for left justification. */
  function WidthOf(sp: Spec, args: seq<Arg>, a: nat): nat {
    var asked := Worth(sp.width, args, a, 0);
    if asked < 0 then -asked else asked
  }

  predicate LeftOf(sp: Spec, args: seq<Arg>, a: nat) {
    Carries(sp.flags, '-') || Worth(sp.width, args, a, 0) < 0
  }

  predicate ZeroOf(sp: Spec) { Carries(sp.flags, '0') }

  function SignOf(sp: Spec): string {
    if Carries(sp.flags, '+') then "+" else if Carries(sp.flags, ' ') then " " else ""
  }

  function HashOf(sp: Spec, prefix: string): string {
    if Carries(sp.flags, '#') then prefix else ""
  }

  function PrecisionOf(sp: Spec, args: seq<Arg>, a: nat): int {
    Worth(sp.precision, args, a + Taken(sp.width), -1)
  }

  /** The argument converted. */
  function ArgOf(sp: Spec, a: nat): nat {
    a + Taken(sp.width) + Taken(sp.precision)
  }

  ghost predicate ShowsNumber(t: string, head: string, n: nat, base: nat, upper: bool, sp: Spec, args: seq<Arg>, a: nat) {
    IsNumberField(t, head, n, base, upper, WidthOf(sp, args, a), LeftOf(sp, args, a), ZeroOf(sp))
  }

  /** `t` is what the directive stands for. */
  ghost predicate Shows(t: string, sp: Spec, args: seq<Arg>, a: nat) {
    var at := ArgOf(sp, a);
    var v, m := IntOf(args, at), ArgModulus(sp.letters);
    if sp.conv == 'd' || sp.conv == 'i' then
      IsSignedField(t, SignOf(sp), SignedRemainder(v, m), WidthOf(sp, args, a), LeftOf(sp, args, a), ZeroOf(sp))
    else if sp.conv == 'u' then ShowsNumber(t, SignOf(sp), v % m, 10, false, sp, args, a)
    else if sp.conv == 'o' then ShowsNumber(t, SignOf(sp), v % m, 8, false, sp, args, a)
    else if sp.conv == 'x' then ShowsNumber(t, SignOf(sp) + HashOf(sp, "0x"), v % m, 16, false, sp, args, a)
    else if sp.conv == 'X' then ShowsNumber(t, SignOf(sp) + HashOf(sp, "0X"), v % m, 16, true, sp, args, a)
    else if sp.conv == 'p' then ShowsNumber(t, SignOf(sp) + "0x", v % 0x1_0000_0000_0000_0000, 16, false, sp, args, a)
    else if sp.conv == 's' then
      IsStringField(t, StrOf(args, at), PrecisionOf(sp, args, a), WidthOf(sp, args, a), LeftOf(sp, args, a), ZeroOf(sp))
    else if sp.conv == 'c' then IsField(t, "", [(v % 256) as char], WidthOf(sp, args, a), LeftOf(sp, args, a), false)
    else if sp.conv == 'n' then t == ""
    else t == "%" + [sp.conv]
  }

  lemma FullOne(ch: Chunk)
    requires Sensible(ch)
    ensures Full([ch]) == FullText(ch)
  {
    hide FullText, Sensible;
    assert [ch][..0] == [];
    assert Full([]) == "";
  }

  lemma FullTwo(x: Chunk, y: Chunk)
    requires Sensible(x) && Sensible(y)
    ensures Full([x, y]) == FullText(x) + FullText(y)
  {
    FullOne(x);
    hide FullText, Sensible;
    assert [x, y][..1] == [x];
  }

  lemma NumberShows(num: nat, base: nat, width: nat, f: Flags)
    requires 2 <= base <= 16 && num < UINT64
    ensures Full([Number(num, base, width, f)]) == NumberText(num, base, width, f)
    ensures IsNumberField(NumberText(num, base, width, f), SignText(f) + PrefixText(base, f), num, base, f.upper, width, f.left, f.zero)
  {
    FullOne(Number(num, base, width, f));
    DigitsAreNumeral(num, base, f.upper);
    NumberField(num, base, width, f);
    hide NumberText, Digits, IsNumeral, IsField, SignText, PrefixText;
  }

  lemma SignedShows(n: int, width: nat, f: Flags)
    requires -0x8000_0000_0000_0000 <= n < 0x8000_0000_0000_0000 && !f.upper
    ensures IsSignedField(Full(SignedChunks(n, width, f)), SignText(f), n, width, f.left, f.zero)
  {
    hide NumberText, IsNumberField;
    var g := if n < 0 then f.(plus := false, space := false) else f;
    var num: nat := if n < 0 then -n else n;
    NumberShows(num, 10, width, g);
    assert SignText(g) + PrefixText(10, g) == if n < 0 then "" else SignText(f);
    if n < 0 {
      var ch := Number(num, 10, width, g);
      FullTwo(Literal("-"), ch);
      var t := "-" + NumberText(num, 10, width, g);
      assert t[1..] == NumberText(num, 10, width, g) && t[0] == '-';
    }
    hide Full;
  }

  lemma StringShows(src: Option<string>, width: nat, precision: int, f: Flags)
    ensures IsStringField(Full([Text(src, width, precision, f)]), src, precision, width, f.left, f.zero)
  {
    FullOne(Text(src, width, precision, f));
    StringField(src, width, precision, f);
    hide StringText, SourceText, IsSource, IsField;
  }

  /** Sign and prefix as the flags of the directive spell them. */
  lemma HeadSpelled(sp: Spec, asked: int, f: Flags)
    requires FlagsAsked(sp, asked, f)
    ensures SignText(f) == SignText(f.(upper := true)) == SignText(f.(hash := true)) == SignOf(sp)
    ensures PrefixText(8, f) == PrefixText(10, f) == ""
    ensures PrefixText(16, f) == HashOf(sp, "0x") && PrefixText(16, f.(upper := true)) == HashOf(sp, "0X")
    ensures PrefixText(16, f.(hash := true)) == "0x"
    ensures f.zero == ZeroOf(sp) && !f.upper
  {
  }

  lemma AskedSpelled(sp: Spec, args: seq<Arg>, a: nat, d: Directive)
    requires Reads(sp, args, a, d)
    ensures d.width == WidthOf(sp, args, a) && d.flags.left == LeftOf(sp, args, a) && d.arg == ArgOf(sp, a)
    ensures d.precision == PrecisionOf(sp, args, a) && FlagsAsked(sp, Worth(sp.width, args, a, 0), d.flags)
    ensures LengthMeans(d.length, ArgModulus(sp.letters))
  {
    hide LengthMeans, ArgModulus, Taken, Worth;
  }

  lemma WrapIsRemainder(v: int, m: nat)
    requires m > 0 && m % 2 == 0
    ensures Wrap(v, m) == SignedRemainder(v, m)
  {
  }

  lemma ModulusEven(letters: string)
    ensures ArgModulus(letters) > 0 && ArgModulus(letters) % 2 == 0
  {
  }

  predicate IsUnsigned(c: char) { c == 'u' || c == 'o' || c == 'x' || c == 'X' || c == 'p' }

  /** The unsigned numbers among the conversions. */
  lemma UnsignedConverts(sp: Spec, args: seq<Arg>, a: nat, d: Directive)
    requires Reads(sp, args, a, d) && IsUnsigned(sp.conv)
    ensures Shows(Full(Convert(d, sp.conv, args)), sp, args, a)
  {
    hide Reads, SignText, PrefixText, NumberText, UnsignedArg, IsNumberField, Full, IntOf, ArgModulus, Worth,
         SignOf, HashOf,
         WidthOf, LeftOf, ZeroOf, ArgOf, FlagsAsked;
    AskedSpelled(sp, args, a, d);
    HeadSpelled(sp, Worth(sp.width, args, a, 0), d.flags);
    var v, m := IntOf(args, d.arg), ArgModulus(sp.letters);
    assert UnsignedArg(d.length, v) == v % m;
    hide LengthMeans;
    var base := if sp.conv == 'u' then 10 else if sp.conv == 'o' then 8 else 16;
    var num := if sp.conv == 'p' then v % UINT64 else v % m;
    var f := if sp.conv == 'X' then d.flags.(upper := true) else if sp.conv == 'p' then d.flags.(hash := true) else d.flags;
    NumberShows(num, base, d.width, f);
    assert SignText(f) + "" == SignText(f);
  }

  lemma SignedConverts(sp: Spec, args: seq<Arg>, a: nat, d: Directive)
    requires Reads(sp, args, a, d) && (sp.conv == 'd' || sp.conv == 'i')
    ensures Shows(Full(Convert(d, sp.conv, args)), sp, args, a)
  {
    hide Reads, SignText, PrefixText, SignedArg, UnsignedArg, SignedRemainder, IsSignedField, Full, IntOf,
         ArgModulus, Worth,
         SignOf, HashOf, WidthOf, LeftOf, ZeroOf, ArgOf, FlagsAsked, SignedChunks, Wrap;
    AskedSpelled(sp, args, a, d);
    HeadSpelled(sp, Worth(sp.width, args, a, 0), d.flags);
    var v, m := IntOf(args, d.arg), ArgModulus(sp.letters);
    ModulusEven(sp.letters);
    WrapIsRemainder(v, m);
    assert SignedArg(d.length, v) == SignedRemainder(v, m);
    hide LengthMeans;
    SignedShows(SignedRemainder(v, m), d.width, d.flags);
  }

  lemma OtherConverts(sp: Spec, args: seq<Arg>, a: nat, d: Directive)
    requires Reads(sp, args, a, d) && !IsUnsigned(sp.conv) && sp.conv != 'd' && sp.conv != 'i'
    ensures Shows(Full(Convert(d, sp.conv, args)), sp, args, a)
  {
    hide Reads, Full, IntOf, StrOf, Worth, CharacterText, IsField, IsStringField, ArgModulus, ReportModulus, StringText,
         SignOf, HashOf, WidthOf, LeftOf, ZeroOf, ArgOf, FlagsAsked, LengthMeans, PrecisionOf;
    AskedSpelled(sp, args, a, d);
    HeadSpelled(sp, Worth(sp.width, args, a, 0), d.flags);
    var v := IntOf(args, d.arg);
    if sp.conv == 'c' {
      FullOne(Character((v % 256) as char, d.width, d.flags.left));
      CharacterField((v % 256) as char, d.width, d.flags.left);
    } else if sp.conv == 's' {
      StringShows(StrOf(args, d.arg), d.width, d.precision, d.flags);
    } else if sp.conv == 'n' {
      FullOne(Report(d.arg, ReportModulus(d.length)));
    } else {
      FullTwo(Literal("%"), Literal([sp.conv]));
    }
  }

  lemma ConvertShows(sp: Spec, args: seq<Arg>, a: nat, d: Directive)
    requires Reads(sp, args, a, d)
    ensures Shows(Full(Convert(d, sp.conv, args)), sp, args, a)
  {
    hide Reads, Shows, Full, Convert, IsUnsigned;
    if IsUnsigned(sp.conv) {
      UnsignedConverts(sp, args, a, d);
    } else if sp.conv == 'd' || sp.conv == 'i' {
      SignedConverts(sp, args, a, d);
    } else {
      OtherConverts(sp, args, a, d);
    }
  }

  lemma SensibleJoin(x: seq<Chunk>, y: seq<Chunk>)
    requires AllSensible(x) && AllSensible(y)
    ensures AllSensible(x + y)
  {
    hide Sensible;
  }

  lemma {:induction false} FullJoin(x: seq<Chunk>, y: seq<Chunk>)
    requires AllSensible(x) && AllSensible(y)
    ensures AllSensible(x + y) && Full(x + y) == Full(x) + Full(y)
    decreases |y|
  {
    hide Sensible, FullText, Full;
    SensibleJoin(x, y);
    if y == [] {
      assert x + y == x;
      assert Full([]) == "" by {
        NothingFull();
      }
    } else {
      var init, last := y[..|y| - 1], y[|y| - 1];
      assert AllSensible(init) && Sensible(last);
      hide AllSensible;
      FullJoin(x, init);
      FullSnoc(x + init, last);
      FullSnoc(init, last);
      assert init + [last] == y && x + init + [last] == x + y;
    }
  }

  lemma NothingFull()
    ensures Full([]) == ""
  {
  }

  lemma FullSnoc(cs: seq<Chunk>, ch: Chunk)
    requires AllSensible(cs) && Sensible(ch)
    ensures AllSensible(cs + [ch]) && Full(cs + [ch]) == Full(cs) + FullText(ch)
  {
    hide Sensible, FullText;
    assert (cs + [ch])[..|cs|] == cs;
  }

  // ----- a whole format

  /** The conversions that take an argument. */
  predicate Converts(c: char) {
    c in ['d', 'i', 'u', 'o', 'x', 'X', 'c', 's', 'p', 'n']
  }

  lemma ConvertsTakes(c: char)
    ensures Converts(c) <==> TakesArg(c)
  {
  }

  /** A directive, wherever it stands, puts out what it stands for and takes one argument for
      every star and one for a conversion that has one; the rest of the format follows. */
  lemma DirectiveShows(fmt: string, i: nat, sp: Spec, args: seq<Arg>, a: nat) returns (t: string)
    requires WellSpelled(sp) && ArgumentsGiven(sp, args, a) && StandsAt(fmt, i, Spelling(sp))
    ensures Shows(t, sp, args, a)
    ensures Full(Parse(fmt, i, args, a))
            == t + Full(Parse(fmt, i + |Spelling(sp)|, args, ArgOf(sp, a) + if Converts(sp.conv) then 1 else 0))
  {
    hide Shows, Full, Convert, ParseDirective, StandsAt, Spelling, At, WellSpelled, TakesArg, Taken, Converts, FlagsAsked,
         LengthMeans, ArgModulus, Worth, AllSensible;
    DirectiveReadsBack(fmt, i, sp, args, a);
    var d := ParseDirective(fmt, i + 1, args, a);
    ConvertShows(sp, args, a, d);
    t := Full(Convert(d, sp.conv, args));
    ConvertsTakes(sp.conv);
    BehindPercent(fmt, i, sp);
    var b := if TakesArg(sp.conv) then d.arg + 1 else d.arg;
    FullJoin(Convert(d, sp.conv, args), Parse(fmt, d.at + 1, args, b));
  }

  lemma BehindPercent(fmt: string, i: nat, sp: Spec)
    requires WellSpelled(sp) && StandsAt(fmt, i, Spelling(sp))
    ensures i < |fmt| && At(fmt, i) == '%' && At(fmt, i + 1) != '%' && sp.conv != NUL
  {
    FlagsStand(fmt, i, sp);
    StandsFirst(fmt, i, Spelling(sp));
    if sp.flags == "" {
      TailsGoOn(sp);
      StandsFirst(fmt, i + 1, WidthOn(sp));
      NoPercent(sp);
    } else {
      StandsFirst(fmt, i + 1, sp.flags);
      assert IsFlag(sp.flags[0]);
    }
    hide StandsAt, WidthOn, At;
  }

  lemma NoPercent(sp: Spec)
    requires WellSpelled(sp)
    ensures WidthOn(sp) != "" && WidthOn(sp)[0] != '%'
  {
    var l, p, w := LettersOn(sp), PrecisionOn(sp), WidthOn(sp);
    assert l[0] == if sp.letters == "" then sp.conv else sp.letters[0];
    assert p[0] == if sp.precision == Absent then l[0] else '.';
    if sp.width.Fixed? {
      FirstIsDigit(sp.width.n);
    }
    hide Digits;
    assert w[0] == if AmountText(sp.width) == "" then p[0] else AmountText(sp.width)[0];
  }

  /** Any other character stands for itself, "%%" for one percent sign, and the terminator ends
      the text. */
  lemma LiteralShows(fmt: string, i: nat, args: seq<Arg>, a: nat)
    ensures i < |fmt| && fmt[i] != '%' && fmt[i] != NUL ==> Full(Parse(fmt, i, args, a)) == [fmt[i]] + Full(Parse(fmt, i + 1, args, a))
    ensures i + 1 < |fmt| && fmt[i] == '%' && fmt[i + 1] == '%' ==> Full(Parse(fmt, i, args, a)) == "%" + Full(Parse(fmt, i + 2, args, a))
    ensures i >= |fmt| || fmt[i] == NUL ==> Full(Parse(fmt, i, args, a)) == ""
  {
    if i < |fmt| {
      FullOne(Literal([fmt[i]]));
      FullOne(Literal("%"));
      FullJoin([Literal([fmt[i]])], Parse(fmt, i + 1, args, a));
      FullJoin([Literal("%")], Parse(fmt, i + 2, args, a));
    }
    hide ParseDirective, Convert;
  }

  // ----- room and counts

  lemma WholeChunk(ch: Chunk, room: nat)
    requires Sensible(ch) && |FullText(ch)| <= room
    ensures Emit(ch, room) == FullText(ch)
  {
    if Brittle(ch) {
      BrittleBreaks(ch, room);
    } else {
      EmitCuts(ch, room);
    }
    hide Emit, FullText, Brittle, CutAt;
  }

  /** With room for the whole text the whole text is written, brittle numbers or not. */
  lemma {:induction false} RoomForAll(cs: seq<Chunk>, max: nat)
    requires AllSensible(cs) && |Full(cs)| <= max
    ensures Out(cs, max) == Full(cs)
    decreases |cs|
  {
    hide Emit, FullText, Sensible;
    if cs == [] {
    } else {
      var init, last := cs[..|cs| - 1], cs[|cs| - 1];
      RoomForAll(init, max);
      WholeChunk(last, max - |Full(init)|);
    }
  }

  /** The chunks of plain text. */
  function Letters(s: string): (cs: seq<Chunk>)
    ensures AllSensible(cs)
  {
    if s == "" then [] else [Literal([s[0]])] + Letters(s[1..])
  }

  ghost predicate PlainText(s: string) {
    forall k :: 0 <= k < |s| ==> s[k] != '%' && s[k] != NUL
  }

  lemma {:induction false} LettersParse(fmt: string, i: nat, s: string, args: seq<Arg>, a: nat)
    requires StandsAt(fmt, i, s) && PlainText(s)
    ensures Parse(fmt, i, args, a) == Letters(s) + Parse(fmt, i + |s|, args, a)
    decreases |s|
  {
    hide ParseDirective, Convert, AllSensible;
    if s == "" {
      assert i + |s| == i && Letters(s) == [];
    } else {
      StandsFirst(fmt, i, s);
      assert s[0] != '%' && s[0] != NUL;
      LetterParses(fmt, i, args, a);
      LettersParse(fmt, i + 1, s[1..], args, a);
      hide Parse;
      var first, more := [Literal([s[0]])], Letters(s[1..]);
      assert first + (more + Parse(fmt, i + |s|, args, a)) == (first + more) + Parse(fmt, i + |s|, args, a);
    }
  }

  lemma LetterParses(fmt: string, i: nat, args: seq<Arg>, a: nat)
    requires i < |fmt| && fmt[i] != '%' && fmt[i] != NUL
    ensures Parse(fmt, i, args, a) == [Literal([fmt[i]])] + Parse(fmt, i + 1, args, a)
  {
    hide ParseDirective, Convert, AllSensible;
  }

  lemma {:induction false} LettersCount(done: seq<Chunk>, s: string, max: nat)
    requires AllSensible(done)
    ensures AllSensible(done + Letters(s)) && Ret(done + Letters(s), max) == Ret(done, max) + |s|
    ensures Reports(done + Letters(s), max) == Reports(done, max)
    decreases |s|
  {
    hide AllSensible, Ret, Reports;
    if s == "" {
      assert done + Letters(s) == done;
    } else {
      var ch := Literal([s[0]]);
      OneLetter(done, s[0], max);
      LettersCount(done + [ch], s[1..], max);
      assert done + [ch] + Letters(s[1..]) == done + Letters(s);
    }
  }

  lemma OneLetter(done: seq<Chunk>, c: char, max: nat)
    requires AllSensible(done)
    ensures var all := done + [Literal([c])];
            AllSensible(all) && Ret(all, max) == Ret(done, max) + 1 && Reports(all, max) == Reports(done, max)
  {
    var ch := Literal([c]);
    OutSnoc(done, ch, max);
    ReportsSnoc(done, ch, max);
    hide Ret, Reports, AllSensible, Out;
  }

  lemma ReportParses(fmt: string, i: nat, sp: Spec, args: seq<Arg>, a: nat)
    requires WellSpelled(sp) && ArgumentsGiven(sp, args, a) && sp.conv == 'n'
    requires StandsAt(fmt, i, Spelling(sp)) && i + |Spelling(sp)| == |fmt|
    ensures Parse(fmt, i, args, a) == [Report(ArgOf(sp, a), ArgModulus(sp.letters))]
  {
    hide ParseDirective, WellSpelled, Spelling, FlagsAsked, Taken, Worth, ArgModulus, StandsAt, AllSensible;
    DirectiveReadsBack(fmt, i, sp, args, a);
    BehindPercent(fmt, i, sp);
    var d := ParseDirective(fmt, i + 1, args, a);
    assert Parse(fmt, d.at + 1, args, d.arg + 1) == [];
  }

  /** "%n" behind plain text stores the length of the text, whatever the room, in the width its
      length letters ask for. */
  lemma CountIsStored(fmt: string, s: string, sp: Spec, args: seq<Arg>, max: nat)
    requires PlainText(s) && WellSpelled(sp) && ArgumentsGiven(sp, args, 0) && sp.conv == 'n' && fmt == s + Spelling(sp)
    ensures ArgModulus(sp.letters) > 0
    ensures Reports(Parse(fmt, 0, args, 0), max) == [(ArgOf(sp, 0), SignedRemainder(|s|, ArgModulus(sp.letters)))]
  {
    hide Parse, PlainText, WellSpelled, Spelling, Letters, Wrap, SignedRemainder, ArgOf, AllSensible, ArgumentsGiven;
    hide StandsAt, Reports, Sensible;
    TwoParts(s, Spelling(sp));
    LettersParse(fmt, 0, s, args, 0);
    ReportParses(fmt, |s|, sp, args, 0);
    ModulusEven(sp.letters);
    WrapIsRemainder(|s|, ArgModulus(sp.letters));
    hide ArgModulus;
    CountedAfter(s, Report(ArgOf(sp, 0), ArgModulus(sp.letters)), max);
  }

  lemma TwoParts(s: string, u: string)
    ensures StandsAt(s + u, 0, s) && StandsAt(s + u, |s|, u)
  {
  }

  lemma CountedAfter(s: string, ch: Chunk, max: nat)
    requires ch.Report? && ch.modulus > 0
    ensures AllSensible(Letters(s) + [ch]) && Reports(Letters(s) + [ch], max) == [(ch.arg, Wrap(|s|, ch.modulus))]
  {
    assert [] + Letters(s) == Letters(s);
    NothingCounted(max);
    LettersCount([], s, max);
    hide Wrap, Letters, Ret, Reports, AllSensible;
    ReportsSnoc(Letters(s), ch, max);
  }

  lemma NothingCounted(max: nat)
    ensures AllSensible([]) && Ret([], max) == 0 && Reports([], max) == []
  {
  }
}
