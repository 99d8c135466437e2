/** Formatted printing (__printf.c) and its inverse for decimal numbers (atoi.c). */
module Printf {

  import opened Arith

  const NUMBER_BUF_SIZE: nat := 12     // sizeof(long) * CHAR_BIT / 3 + 2

  // ----- Digits

  function DigitChar(d: nat): char
    requires d < 16
  {
    "0123456789abcdef"[d]
  }

  predicate Base(b: nat) { b == 8 || b == 10 || b == 16 }

  /** A number in base b, most significant digit first. */
  function Digits(n: nat, b: nat): (s: string)
    requires Base(b)
    ensures |s| > 0
  {
    if n < b then [DigitChar(n)] else Digits(n / b, b) + [DigitChar(n % b)]
  }

  lemma {:induction false} DigitCount(n: nat, b: nat, k: nat)
    requires Base(b) && k > 0 && n < Power(b, k)
    ensures |Digits(n, b)| <= k
  {
    assert Power(b, 1) == b * Power(b, 0) == b;
    if n >= b {
      assert n / b < Power(b, k - 1);
      DigitCount(n / b, b, k - 1);
    }
  }

  /** 32 bits take at most 11 digits, so digits and terminator fit in the buffer. */
  lemma DigitsFit(n: Word, b: nat)
    requires Base(b)
    ensures |Digits(n, b)| + 1 <= NUMBER_BUF_SIZE
  {
    assert Power(8, 11) == 0x2_0000_0000 by {
      assert Power(8, 1) == 8 && Power(8, 2) == 64 && Power(8, 3) == 512 && Power(8, 4) == 4096 && Power(8, 5) == 32768;
      assert Power(8, 6) == 262144 && Power(8, 7) == 2097152 && Power(8, 8) == 16777216 && Power(8, 9) == 134217728;
      assert Power(8, 10) == 1073741824;
    }
    PowerGrows(b, 11);
    DigitCount(n, b, 11);
  }

  lemma {:induction false} PowerGrows(b: nat, k: nat)
    requires b >= 8
    ensures Power(b, k) >= Power(8, k)
  {
    if k > 0 {
      PowerGrows(b, k - 1);
      MulMono(8, b, Power(b, k - 1));
      assert Power(b, k) == Power(b, k - 1) * b >= Power(b, k - 1) * 8;
    }
  }

  // ----- The value of a text

  predicate IsDigit(c: char) { '0' <= c <= '9' }
  predicate AllDigits(s: string) { forall i :: 0 <= i < |s| ==> IsDigit(s[i]) }
  function DigitValue(c: char): nat
    requires IsDigit(c)
  {
    c as int - '0' as int
  }

  /** The number that a string of decimal digits stands for. */
  function Value(s: string): nat
    requires AllDigits(s)
  {
    if s == "" then 0 else Value(s[..|s| - 1]) * 10 + DigitValue(s[|s| - 1])
  }

  lemma NoDigits()
    ensures AllDigits("") && Value("") == 0
  {
  }

  lemma ValueSnoc(s: string, c: char)
    requires AllDigits(s) && IsDigit(c)
    ensures AllDigits(s + [c]) && Value(s + [c]) == Value(s) * 10 + DigitValue(c)
  {
    assert (s + [c])[..|s|] == s;
  }

  lemma DigitRound(d: nat)
    requires d < 10
    ensures IsDigit(DigitChar(d)) && DigitValue(DigitChar(d)) == d
  {
  }

  lemma {:induction false} ValueOfDigits(n: nat)
    ensures AllDigits(Digits(n, 10)) && Value(Digits(n, 10)) == n
  {
    hide Value;
    hide AllDigits;
    DigitRound(n % 10);
    NoDigits();
    if n < 10 {
      ValueSnoc("", DigitChar(n));
      assert "" + [DigitChar(n)] == [DigitChar(n)];
    } else {
      ValueOfDigits(n / 10);
      ValueSnoc(Digits(n / 10, 10), DigitChar(n % 10));
    }
  }

  function Fill(c: char, k: nat): (s: string)
    ensures |s| == k
  {
    seq(k, _ => c)
  }

  lemma {:induction false} ValueOfPadded(k: nat, s: string)
    requires AllDigits(s)
    ensures AllDigits(Fill('0', k) + s) && Value(Fill('0', k) + s) == Value(s)
  {
    var t := Fill('0', k) + s;
    if s != "" {
      ValueOfPadded(k, s[..|s| - 1]);
      assert t[..|t| - 1] == Fill('0', k) + s[..|s| - 1];
    } else if k > 0 {
      ValueOfPadded(k - 1, s);
      assert t[..|t| - 1] == Fill('0', k - 1) + s;
    }
  }

  lemma {:induction false} ValueOfExtended(s: string, k: nat)
    requires AllDigits(s)
    ensures AllDigits(s + Fill('0', k)) && Value(s + Fill('0', k)) == Value(s) * Power(10, k)
  {
    var t := s + Fill('0', k);
    if k == 0 {
      assert t == s;
    } else {
      ValueOfExtended(s, k - 1);
      assert t[..|t| - 1] == s + Fill('0', k - 1) && t[|t| - 1] == '0';
      assert Value(t) == Value(s + Fill('0', k - 1)) * 10;
      hide Value;
      TimesTen(Value(s), Power(10, k - 1));
    }
  }

  lemma TimesTen(v: nat, p: nat)
    ensures v * p * 10 == v * (10 * p)
  {
  }

  // ----- atoi

  predicate Blank(c: char) { c == ' ' || c == '\t' }

  function SkipBlanks(s: string): string {
    if s != "" && Blank(s[0]) then SkipBlanks(s[1..]) else s
  }

  /** The digits a string starts with. */
  function DigitRun(s: string): (d: string)
    ensures |d| <= |s| && d == s[..|d|] && AllDigits(d) && (|d| < |s| ==> !IsDigit(s[|d|]))
  {
    if s != "" && IsDigit(s[0]) then [s[0]] + DigitRun(s[1..]) else ""
  }

  /** What atoi returns. */
  function AtoiOf(s: string): int {
    var t := SkipBlanks(s);
    var neg := t != "" && t[0] == '-';
    var u := if t != "" && (t[0] == '-' || t[0] == '+') then t[1..] else t;
    var v := Value(DigitRun(u)) % TWO32;
    ToSigned(ToWord(if neg then -v else v))
  }

  lemma ModStep(v: nat, d: nat)
    ensures ((v % TWO32) * 10 + d) % TWO32 == (v * 10 + d) % TWO32
  {
    var q, x := v / TWO32, (v % TWO32) * 10 + d;
    ModIs(v * 10 + d, TWO32, 10 * q + x / TWO32, x % TWO32);
  }

  /** The digit loop of atoi, from position `start`; unsigned arithmetic wraps around. */
  method ParseDigits(s: string, start: nat) returns (val: Word)
    requires start <= |s|
    ensures val == Value(DigitRun(s[start..])) % TWO32
  {
    ghost var u := s[start..];
    ghost var d := DigitRun(u);
    hide DigitRun;
    var i := start;
    val := 0;
    while i < |s|
      invariant start <= i <= start + |d| && val == Value(d[..i - start]) % TWO32
    {
      ghost var k := i - start;
      assert s[i] == u[k];
      if !IsDigit(s[i]) {
        break;
      }
      var digit := DigitValue(s[i]);
      assert d[..k + 1][..k] == d[..k] && d[k] == u[k];
      ModStep(Value(d[..k]), digit);
      val := (val as int * 10 + digit) % TWO32;
      i := i + 1;
    }
    assert d[..i - start] == d;
  }

  /** atoi. */
  method Atoi(s: string) returns (r: int)
    ensures r == AtoiOf(s)
  {
    hide DigitRun;
    var i := 0;
    assert s[0..] == s;
    while i < |s| && Blank(s[i])
      invariant 0 <= i <= |s| && SkipBlanks(s[i..]) == SkipBlanks(s)
    {
      assert s[i..][1..] == s[i + 1..];
      i := i + 1;
    }
    ghost var t := s[i..];
    assert t == SkipBlanks(s);
    var neg := false;
    if i < |s| && s[i] == '-' {
      neg := true;
      i := i + 1;
      assert t[1..] == s[i..];
    } else if i < |s| && s[i] == '+' {
      i := i + 1;
      assert t[1..] == s[i..];
    }
    var val := ParseDigits(s, i);
    var v: int := val;
    r := ToSigned(ToWord(if neg then -v else v));
  }

  // ----- printf as a function

  datatype Arg = Num(w: Word) | Str(s: string) | Null

  /** The PF structure; out is what has been sent. */
  datatype State = State(out: string, args: seq<Arg>, inPct: bool, num: Word, sign: bool, spacing: nat, rightspc: bool,
                         fillchar: char, base: nat, baseprefix: bool, altformat: bool)

  function EndField(st: State): State {
    State(st.out, st.args, false, 0, false, 0, false, ' ', 0, false, false)
  }

  /** The text of a field: two prefixes and the stuff, padded to the width. */
  function Field(st: State, prefix: string, prefix2: string, stuff: string): string {
    var len := |prefix| + |prefix2| + |stuff|;
    var pad := Fill(st.fillchar, if st.spacing > len then st.spacing - len else 0);
    if st.rightspc then prefix + prefix2 + stuff + pad
    else if st.fillchar == '0' then prefix + prefix2 + pad + stuff
    else pad + prefix + prefix2 + stuff
  }

  function Modified(st: State, ch: char): State
    requires IsModifier(ch)
  {
    if ch == '#' then st.(altformat := true)
    else if ch == '-' then st.(rightspc := true)
    else if ch == 'l' || ch == 'q' then st
    else if ch == '0' then (if st.spacing > 0 then st.(spacing := st.spacing * 10) else st.(fillchar := '0'))
    else st.(spacing := st.spacing * 10 + DigitValue(ch))
  }

  predicate IsModifier(ch: char) { ch in "#-ql0123456789" }
  predicate IsInteger(ch: char) { ch in "doupx" }

  /** The argument a conversion takes is there. */
  predicate Supplied(st: State, ch: char) {
    st.inPct && !IsModifier(ch) ==>
      && (IsInteger(ch) || ch == 'c' ==> st.args != [] && st.args[0].Num?)
      && (ch == 's' ==> st.args != [] && !st.args[0].Num?)
  }

  /** The number to print and its sign. */
  function Fetched(st: State, ch: char): State
    requires st.args != [] && st.args[0].Num?
  {
    var w := st.args[0].w;
    var rest := st.(args := st.args[1..]);
    if ch == 'd' && ToSigned(w) < 0 then rest.(sign := true, num := ToWord(-ToSigned(w))) else rest.(num := w)
  }

  function BaseOf(ch: char): nat { if ch == 'd' || ch == 'u' then 10 else if ch == 'o' then 8 else 16 }

  function SignPrefix(st: State): string { if st.sign then "-" else "" }
  function BasePrefix(st: State): string {
    if st.baseprefix && st.base == 16 then "0x" else if st.baseprefix && st.base == 8 then "0" else ""
  }

  function Printed(st: State, text: string): State { st.(out := st.out + text) }

  function PrintedNumber(st: State): State
    requires Base(st.base)
  {
    Printed(st, Field(st, SignPrefix(st), BasePrefix(st), Digits(st.num, st.base)))
  }

  /** A character as a C string: a null ends it at once. */
  function CharText(w: Word): string { if w % 256 == 0 then "" else [(w % 256) as char] }

  /** One character of the format. */
  function Sent(st: State, ch: char): State
    requires Supplied(st, ch)
  {
    if !st.inPct then (if ch == '%' then st.(inPct := true) else Printed(st, [ch]))
    else if IsModifier(ch) then Modified(st, ch)
    else if IsInteger(ch) then
      var g := Fetched(st, ch);
      EndField(PrintedNumber(g.(base := BaseOf(ch), baseprefix := g.baseprefix || g.altformat || ch == 'p')))
    else if ch == 's' then
      var rest := st.(args := st.args[1..]);
      EndField(Printed(rest, Field(rest, "", "", if st.args[0].Null? then "(null)" else st.args[0].s)))
    else if ch == 'c' then
      var rest := st.(args := st.args[1..]);
      EndField(Printed(rest, Field(rest, "", "", CharText(st.args[0].w))))
    else EndField(Printed(st, Field(st, "", "", [ch])))
  }

  /** The whole format has its arguments. */
  predicate Ready(st: State, format: string)
    decreases |format|
  {
    format == "" || (Supplied(st, format[0]) && Ready(Sent(st, format[0]), format[1..]))
  }

  function Run(st: State, format: string): State
    requires Ready(st, format)
    decreases |format|
  {
    if format == "" then st else Run(Sent(st, format[0]), format[1..])
  }

  lemma {:induction false} RunJoin(st: State, f: string, g: string)
    requires Ready(st, f) && Ready(Run(st, f), g)
    ensures Ready(st, f + g) && Run(st, f + g) == Run(Run(st, f), g)
    decreases |f|
  {
    if f == "" {
      assert f + g == g;
    } else {
      assert (f + g)[1..] == f[1..] + g;
      RunJoin(Sent(st, f[0]), f[1..], g);
    }
  }

  lemma RunOne(st: State, c: char)
    requires Supplied(st, c)
    ensures Ready(st, [c]) && Run(st, [c]) == Sent(st, c)
  {
    assert [c][1..] == "";
  }

  // ----- What a format means

  predicate Modifiers(m: string) { forall i :: 0 <= i < |m| ==> IsModifier(m[i]) }

  /** The modifiers that a text starts with. */
  function ModifierRun(s: string): (m: string)
    ensures |m| <= |s| && m == s[..|m|] && Modifiers(m) && (|m| < |s| ==> !IsModifier(s[|m|]))
  {
    if s != "" && IsModifier(s[0]) then [s[0]] + ModifierRun(s[1..]) else ""
  }

  /** The digits among them. */
  function Numbers(m: string): (d: string)
    ensures AllDigits(d)
  {
    if m == "" then ""
    else
      var front, c := Numbers(m[..|m| - 1]), m[|m| - 1];
      if IsDigit(c) then front + [c] else front
  }

  function Width(m: string): nat { Value(Numbers(m)) }
  predicate ZeroFill(m: string) { var d := Numbers(m); d != "" && d[0] == '0' }

  /** A text padded as the modifiers say: on the right, between the head and the body
      with zeros, or on the left. */
  function Padded(m: string, head: string, body: string): string {
    var len := |head| + |body|;
    var gap := Fill(if ZeroFill(m) then '0' else ' ', if Width(m) > len then Width(m) - len else 0);
    if '-' in m then head + body + gap
    else if ZeroFill(m) then head + gap + body
    else gap + head + body
  }

  /** What stands in front of the digits. */
  function Head(m: string, ch: char, w: Word): string {
    if ch == 'd' && ToSigned(w) < 0 then "-"
    else if (ch == 'x' && '#' in m) || ch == 'p' then "0x"
    else if ch == 'o' && '#' in m then "0"
    else ""
  }

  function Amount(ch: char, w: Word): nat { if ch == 'd' && ToSigned(w) < 0 then -ToSigned(w) else w }

  /** The text of a conversion with modifiers m and type ch. */
  function Converted(m: string, ch: char, args: seq<Arg>): string {
    if IsInteger(ch) then
      if args == [] || !args[0].Num? then ""
      else Padded(m, Head(m, ch, args[0].w), Digits(Amount(ch, args[0].w), BaseOf(ch)))
    else if ch == 's' then
      if args == [] || args[0].Num? then ""
      else Padded(m, "", if args[0].Null? then "(null)" else args[0].s)
    else if ch == 'c' then (if args == [] || !args[0].Num? then "" else Padded(m, "", CharText(args[0].w)))
    else Padded(m, "", [ch])
  }

  /** What is left of the arguments after it. */
  function Left(ch: char, args: seq<Arg>): seq<Arg> {
    if (IsInteger(ch) || ch == 's' || ch == 'c') && args != [] then args[1..] else args
  }

  /** The text of a whole format: plain characters as they are, and the conversions in
      order. An unfinished one at the end prints nothing. */
  function Text(format: string, args: seq<Arg>): string
    decreases |format|
  {
    if format == "" then ""
    else if format[0] != '%' then [format[0]] + Text(format[1..], args)
    else
      var m := ModifierRun(format[1..]);
      if |m| + 1 == |format| then ""
      else
        var ch := format[|m| + 1];
        Converted(m, ch, args) + Text(format[|m| + 2..], Left(ch, args))
  }

  /** The arguments are there that the conversions of a format take. */
  predicate Given(format: string, args: seq<Arg>)
    decreases |format|
  {
    if format == "" then true
    else if format[0] != '%' then Given(format[1..], args)
    else
      var m := ModifierRun(format[1..]);
      if |m| + 1 == |format| then true
      else
        var ch := format[|m| + 1];
        Takes(ch, args) && Given(format[|m| + 2..], Left(ch, args))
  }

  predicate Takes(ch: char, args: seq<Arg>) {
    && (IsInteger(ch) || ch == 'c' ==> args != [] && args[0].Num?)
    && (ch == 's' ==> args != [] && !args[0].Num?)
  }

  // ----- printf prints it

  lemma NumbersSnoc(m: string, c: char)
    ensures Numbers(m + [c]) == if IsDigit(c) then Numbers(m) + [c] else Numbers(m)
  {
    assert (m + [c])[..|m|] == m;
  }

  /** Only zeros are worth nothing. */
  lemma {:induction false} ValueZero(d: string)
    requires AllDigits(d) && d != "" && Value(d) == 0
    ensures d[0] == '0'
  {
    if |d| > 1 { ValueZero(d[..|d| - 1]); }
  }

  lemma WidthSnoc(m: string, c: char)
    requires IsDigit(c)
    ensures Width(m + [c]) == Width(m) * 10 + DigitValue(c)
    ensures ZeroFill(m + [c]) <==> ZeroFill(m) || (c == '0' && Width(m) == 0)
  {
    NumbersSnoc(m, c);
    ValueSnoc(Numbers(m), c);
    NoDigits();
    if Numbers(m) != "" && Value(Numbers(m)) == 0 { ValueZero(Numbers(m)); }
  }

  /** A conversion as far as its modifiers. */
  function Begun(st: State, m: string): State {
    st.(inPct := true, altformat := '#' in m, rightspc := '-' in m, spacing := Width(m),
        fillchar := if ZeroFill(m) then '0' else ' ')
  }

  /** Outside of a conversion nothing is remembered. */
  function Clean(out: string,
                 args: seq<Arg>): State { State(out, args, false, 0, false, 0, false, ' ', 0, false, false) }

  lemma {:induction false} RunModifiers(out: string, args: seq<Arg>, m: string)
    requires Modifiers(m)
    ensures Ready(Clean(out, args), "%" + m) && Run(Clean(out, args), "%" + m) == Begun(Clean(out, args), m)
  {
    var st := Clean(out, args);
    if m == "" {
      NoDigits();
      RunOne(st, '%');
      assert "%" + m == "%";
    } else {
      var front, c := m[..|m| - 1], m[|m| - 1];
      assert m == front + [c];
      RunModifiers(out, args, front);
      ModifierStep(st, front, c);
      hide Sent;
      hide Supplied;
      RunOne(Begun(st, front), c);
      RunJoin(st, "%" + front, [c]);
      assert "%" + m == "%" + front + [c];
    }
  }

  lemma ModifierStep(st: State, m: string, c: char)
    requires IsModifier(c)
    ensures Supplied(Begun(st, m), c) && Sent(Begun(st, m), c) == Begun(st, m + [c])
  {
    if IsDigit(c) {
      DigitStep(st, m, c);
    } else {
      FlagStep(st, m, c);
    }
    hide Modified;
    hide Begun;
  }

  lemma DigitStep(st: State, m: string, c: char)
    requires IsModifier(c) && IsDigit(c)
    ensures Modified(Begun(st, m), c) == Begun(st, m + [c])
  {
    hide Width;
    hide ZeroFill;
    hide Numbers;
    hide IsModifier;
    WidthSnoc(m, c);
    assert '#' in m + [c] <==> '#' in m;
    assert '-' in m + [c] <==> '-' in m;
  }

  lemma FlagStep(st: State, m: string, c: char)
    requires IsModifier(c) && !IsDigit(c)
    ensures Modified(Begun(st, m), c) == Begun(st, m + [c])
  {
    assert c in "#-ql";
    hide IsModifier;
    hide Width;
    hide ZeroFill;
    hide Numbers;
    NumbersSnoc(m, c);
    SameWidth(m, m + [c]);
    assert '#' in m + [c] <==> '#' in m || c == '#';
    assert '-' in m + [c] <==> '-' in m || c == '-';
  }

  lemma SameWidth(m: string, n: string)
    requires Numbers(m) == Numbers(n)
    ensures Width(m) == Width(n) && ZeroFill(m) == ZeroFill(n)
  {
  }

  /** The field that is printed is the padded text. */
  lemma FieldPadded(st: State, m: string, prefix: string, prefix2: string, stuff: string)
    requires st.spacing == Width(m) && st.rightspc == ('-' in m) && st.fillchar == if ZeroFill(m) then '0' else ' '
    ensures Field(st, prefix, prefix2, stuff) == Padded(m, prefix + prefix2, stuff)
  {
    hide Width;
    hide ZeroFill;
    var len := |prefix| + |prefix2| + |stuff|;
    var gap := Fill(st.fillchar, if st.spacing > len then st.spacing - len else 0);
    assert gap + prefix + prefix2 + stuff == gap + (prefix + prefix2) + stuff;
  }

  lemma IntegerSent(st: State, m: string, ch: char)
    requires IsInteger(ch) && st.args != [] && st.args[0].Num?
    ensures Supplied(Begun(Clean(st.out, st.args), m), ch)
    ensures Sent(Begun(Clean(st.out, st.args), m), ch) == Clean(st.out + Converted(m, ch, st.args), st.args[1..])
  {
    hide Width;
    hide ZeroFill;
    hide Digits;
    hide Field;
    hide Padded;
    var b, w := Begun(Clean(st.out, st.args), m), st.args[0].w;
    assert !IsModifier(ch) && ch != 's' && ch != 'c';
    var g := Fetched(b, ch);
    var g' := g.(base := BaseOf(ch), baseprefix := g.baseprefix || g.altformat || ch == 'p');
    assert g'.num == Amount(ch, w);
    FieldPadded(g', m, SignPrefix(g'), BasePrefix(g'), Digits(g'.num, g'.base));
    assert SignPrefix(g') + BasePrefix(g') == Head(m, ch, w);
  }

  lemma OtherSent(st: State, m: string, ch: char)
    requires !IsInteger(ch) && !IsModifier(ch) && Supplied(Begun(Clean(st.out, st.args), m), ch)
    ensures Sent(Begun(Clean(st.out, st.args), m), ch)
         == Clean(st.out + Converted(m, ch, st.args), Left(ch, st.args))
  {
    hide Width;
    hide ZeroFill;
    hide Field;
    hide Padded;
    var b := Begun(Clean(st.out, st.args), m);
    var rest := b.(args := Left(ch, st.args));
    var stuff := if ch == 's' then (if st.args[0].Null? then "(null)" else st.args[0].s)
                 else if ch == 'c' then CharText(st.args[0].w) else [ch];
    FieldPadded(rest, m, "", "", stuff);
    assert "" + "" == "";
  }

  lemma {:induction false} ReadySplit(st: State, f: string, g: string)
    requires Ready(st, f + g)
    ensures Ready(st, f) && Ready(Run(st, f), g)
    decreases |f|
  {
    hide Sent;
    hide Supplied;
    if f == "" {
      assert f + g == g;
    } else {
      assert (f + g)[0] == f[0] && (f + g)[1..] == f[1..] + g;
      ReadySplit(Sent(st, f[0]), f[1..], g);
    }
  }

  /** A conversion prints its text, takes its argument and leaves nothing else behind. */
  lemma ConversionSent(out: string, args: seq<Arg>, m: string, ch: char)
    requires Modifiers(m) && !IsModifier(ch) && Ready(Clean(out, args), "%" + m + [ch])
    ensures Run(Clean(out, args), "%" + m + [ch]) == Clean(out + Converted(m, ch, args), Left(ch, args))
  {
    var st := Clean(out, args);
    RunModifiers(out, args, m);
    ReadySplit(st, "%" + m, [ch]);
    assert Supplied(Begun(st, m), ch);
    if IsInteger(ch) { IntegerSent(st, m, ch); } else { OtherSent(st, m, ch); }
    hide Sent;
    hide Supplied;
    hide Converted;
    hide Begun;
    RunOne(Begun(st, m), ch);
    RunJoin(st, "%" + m, [ch]);
  }

  /** That is all a format needs. */
  lemma {:induction false} ReadyIff(out: string, args: seq<Arg>, format: string)
    ensures Ready(Clean(out, args), format) <==> Given(format, args)
    decreases |format|
  {
    hide Converted;
    hide Left;
    var st := Clean(out, args);
    if format == "" {
    } else if format[0] != '%' {
      assert Sent(st, format[0]) == Clean(out + [format[0]], args);
      ReadyIff(out + [format[0]], args, format[1..]);
    } else {
      var m := ModifierRun(format[1..]);
      RunModifiers(out, args, m);
      if |m| + 1 == |format| {
        assert format == "%" + m;
      } else {
        var ch, rest := format[|m| + 1], format[|m| + 2..];
        ReadyIff(out + Converted(m, ch, args), Left(ch, args), rest);
        ConversionReady(out, args, format, m);
      }
    }
  }

  lemma ConversionReady(out: string, args: seq<Arg>, format: string, m: string)
    requires Modifiers(m) && |m| + 1 < |format|
    requires format[..|m| + 1] == "%" + m && !IsModifier(format[|m| + 1])
    ensures var ch, rest := format[|m| + 1], format[|m| + 2..];
            Ready(Clean(out, args), format) <==>
              Takes(ch, args) && Ready(Clean(out + Converted(m, ch, args), Left(ch, args)), rest)
  {
    var ch, rest, st := format[|m| + 1], format[|m| + 2..], Clean(out, args);
    var f, b := "%" + m + [ch], Begun(st, m);
    assert format == f + rest;
    RunModifiers(out, args, m);
    assert Supplied(b, ch) <==> Takes(ch, args) by { hide IsModifier; hide IsInteger; }
    hide Sent;
    hide Supplied;
    hide Converted;
    hide Left;
    hide Begun;
    hide Clean;
    hide Takes;
    hide IsModifier;
    if Ready(st, format) {
      ReadySplit(st, f, rest);
      ReadySplit(st, "%" + m, [ch]);
      assert Supplied(b, ch);
      ConversionSent(out, args, m, ch);
    }
    if Takes(ch, args) && Ready(Clean(out + Converted(m, ch, args), Left(ch, args)), rest) {
      RunOne(b, ch);
      RunJoin(st, "%" + m, [ch]);
      ConversionSent(out, args, m, ch);
      RunJoin(st, f, rest);
    }
  }

  /** From outside of a conversion, any format prints its text, and if it ends outside of
      one, nothing but the arguments left over is remembered. */
  lemma {:induction false} TextPrinted(out: string, args: seq<Arg>, format: string)
    requires Ready(Clean(out, args), format)
    ensures var r := Run(Clean(out, args), format);
            r.out == out + Text(format, args) && (!r.inPct ==> r == Clean(r.out, r.args))
    decreases |format|
  {
    hide Converted;
    hide Left;
    var st := Clean(out, args);
    if format == "" {
      assert out + "" == out;
    } else if format[0] != '%' {
      assert Sent(st, format[0]) == Clean(out + [format[0]], args);
      TextPrinted(out + [format[0]], args, format[1..]);
      assert out + [format[0]] + Text(format[1..], args) == out + ([format[0]] + Text(format[1..], args));
    } else {
      var m := ModifierRun(format[1..]);
      if |m| + 1 == |format| {
        assert format == "%" + m;
        RunModifiers(out, args, m);
        assert out + "" == out;
      } else {
        ConversionThenText(out, args, format, m);
        TextPrinted(out + Converted(m, format[|m| + 1], args), Left(format[|m| + 1], args), format[|m| + 2..]);
        var a, b := Converted(m, format[|m| + 1], args), Text(format[|m| + 2..], Left(format[|m| + 1], args));
        assert out + a + b == out + (a + b);
      }
    }
  }

  lemma ConversionThenText(out: string, args: seq<Arg>, format: string, m: string)
    requires Ready(Clean(out, args), format) && Modifiers(m) && |m| + 1 < |format|
    requires format[..|m| + 1] == "%" + m && !IsModifier(format[|m| + 1])
    ensures var ch, rest := format[|m| + 1], format[|m| + 2..];
            var st' := Clean(out + Converted(m, ch, args), Left(ch, args));
            Ready(st', rest) && Run(Clean(out, args), format) == Run(st', rest)
  {
    hide Sent;
    hide Supplied;
    hide Converted;
    hide Left;
    hide IsModifier;
    hide Clean;
    var ch, rest := format[|m| + 1], format[|m| + 2..];
    var f := "%" + m + [ch];
    assert format == f + rest;
    ReadySplit(Clean(out, args), f, rest);
    ConversionSent(out, args, m, ch);
    RunJoin(Clean(out, args), f, rest);
  }

  // ----- printf as it is written

  /** Where the padding of a field goes. */
  lemma FieldParts(st: State, o: string, p1: string, prefix: string, prefix2: string, p2: string, stuff: string,
                   p3: string)
    requires var len := |prefix| + |prefix2| + |stuff|;
             var spc := if st.spacing > len then st.spacing - len else 0;
             && p1 == (if spc > 0 && !st.rightspc && st.fillchar != '0' then Fill(st.fillchar, spc) else "")
             && p2 == (if spc > 0 && !st.rightspc && st.fillchar == '0' then Fill(st.fillchar, spc) else "")
             && p3 == (if spc > 0 && st.rightspc then Fill(st.fillchar, spc) else "")
    ensures o + p1 + prefix + prefix2 + p2 + stuff + p3 == o + Field(st, prefix, prefix2, stuff)
  {
    var f := p1 + prefix + prefix2 + p2 + stuff + p3;
    assert o + p1 + prefix + prefix2 + p2 + stuff + p3 == o + f;
    assert f == Field(st, prefix, prefix2, stuff);
  }

  lemma DigitsUnfold(n: nat, b: nat)
    requires Base(b)
    ensures Digits(n, b) == (if n / b > 0 then Digits(n / b, b) else "") + [DigitChar(n % b)]
  {
  }

  lemma QuotientLess(n: nat, b: nat)
    requires Base(b)
    ensures n > 0 ==> n / b < n
  {
    if b == 8 {} else if b == 10 {} else {}
  }

  /** The digits still to come. */
  ghost function Remaining(n: nat, b: nat): (s: string)
    requires Base(b)
    ensures n > 0 ==> |s| > 0
  {
    if n > 0 then Digits(n, b) else ""
  }

  /** The last digit of a number, and what is left of it. */
  method LastDigit(n: nat, b: nat) returns (c: char, rest: nat)
    requires Base(b)
    ensures Digits(n, b) == Remaining(rest, b) + [c]
    ensures n > 0 ==> rest < n && Remaining(n, b) == Remaining(rest, b) + [c]
  {
    hide Digits;
    DigitsUnfold(n, b);
    QuotientLess(n, b);
    c := DigitChar(n % b);
    rest := n / b;
  }

  lemma Laid(a: string, c: char, tail: string)
    ensures a + [c] + tail == a + ([c] + tail)
  {
  }

  /** The conversion of __pf_printnum: digits are laid down from right to left, and
      never leave the buffer. */
  method Convert(num: Word, base: nat) returns (stuff: string)
    requires Base(base)
    ensures stuff == Digits(num, base)
  {
    hide Digits;
    hide Remaining;
    hide Base;
    DigitsFit(num, base);
    var buf := new char[NUMBER_BUF_SIZE](_ => 0 as char);
    var x := NUMBER_BUF_SIZE - 1;
    buf[x] := 0 as char;
    x := x - 1;
    var c, xnum := LastDigit(num, base);
    buf[x] := c;
    ghost var tail := [c];
    x := x - 1;
    while xnum > 0
      invariant -1 <= x < NUMBER_BUF_SIZE - 2 && tail == buf[x + 1..NUMBER_BUF_SIZE - 1]
      invariant Digits(num, base) == Remaining(xnum, base) + tail
    {
      ghost var n := xnum;
      c, xnum := LastDigit(xnum, base);
      Laid(Remaining(xnum, base), c, tail);
      assert |Remaining(n, base)| + |tail| < NUMBER_BUF_SIZE;
      buf[x] := c;
      tail := [c] + tail;
      x := x - 1;
    }
    assert Remaining(0, base) == "" by { NothingRemains(base); }
    assert "" + tail == tail;
    stuff := buf[x + 1..NUMBER_BUF_SIZE - 1];
  }

  lemma NothingRemains(b: nat)
    requires Base(b)
    ensures Remaining(0, b) == ""
  {
  }

  class Pf {
    var out: string
    var charcount: nat
    var args: seq<Arg>
    var inPct: bool
    var num: Word
    var sign: bool
    var spacing: nat
    var rightspc: bool
    var fillchar: char
    var base: nat
    var baseprefix: bool
    var altformat: bool

    ghost predicate Valid()
      reads this
    {
      charcount == |out|
    }

    ghost function View(): State
      reads this
    {
      State(out, args, inPct, num, sign, spacing, rightspc, fillchar, base, baseprefix, altformat)
    }

    constructor (ap: seq<Arg>)
      ensures Valid() && View() == EndField(State("", ap, false, 0, false, 0, false, ' ', 0, false, false))
    {
      out, charcount, args := "", 0, ap;
      inPct, num, sign, spacing, rightspc, fillchar, base, baseprefix, altformat := false, 0, false, 0, false, ' ', 0,
        false, false;
    }

    /** __pf_print. */
    method Print(txt: string)
      requires Valid()
      modifies this`out, this`charcount
      ensures Valid() && out == old(out) + txt
    {
      out := out + txt;
      charcount := charcount + |txt|;
    }

    /** __pf_endfield. */
    method Reset()
      modifies this`inPct, this`num, this`sign, this`spacing, this`rightspc, this`fillchar, this`base,
        this`baseprefix, this`altformat
      ensures View() == EndField(old(View()))
    {
      inPct, num, sign, spacing, rightspc, fillchar, base, baseprefix, altformat := false, 0, false, 0, false, ' ', 0,
        false, false;
    }

    /** __pf_fill. */
    method PrintFill(spc: nat)
      requires Valid()
      modifies this`out, this`charcount
      ensures Valid() && out == old(out) + Fill(fillchar, spc)
    {
      var i := 0;
      while i < spc
        invariant 0 <= i <= spc && Valid() && out == old(out) + Fill(fillchar, i)
      {
        Print([fillchar]);
        assert Fill(fillchar, i) + [fillchar] == Fill(fillchar, i + 1);
        i := i + 1;
      }
    }

    /** __pf_printstuff. */
    method PrintStuff(prefix: string, prefix2: string, stuff: string)
      requires Valid()
      modifies this`out, this`charcount
      ensures Valid() && out == old(out) + Field(old(View()), prefix, prefix2, stuff)
    {
      var len := |prefix| + |prefix2| + |stuff|;
      var spc := spacing;
      if spc > len {
        spc := spc - len;
      } else {
        spc := 0;
      }
      ghost var o, v, pad := out, View(), Fill(fillchar, spc);
      ghost var p1, p2, p3 := "", "", "";
      if spc > 0 && !rightspc && fillchar != '0' {
        p1 := pad;
        PrintFill(spc);
      }
      assert out == o + p1;
      Print(prefix);
      Print(prefix2);
      if spc > 0 && !rightspc && fillchar == '0' {
        p2 := pad;
        PrintFill(spc);
      }
      assert out == o + p1 + prefix + prefix2 + p2;
      Print(stuff);
      if spc > 0 && rightspc {
        p3 := pad;
        PrintFill(spc);
      }
      assert out == o + p1 + prefix + prefix2 + p2 + stuff + p3;
      FieldParts(v, o, p1, prefix, prefix2, p2, stuff, p3);
    }

    /** __pf_printnum: the digits are laid down from right to left and never leave the buffer. */
    method PrintNum()
      requires Valid() && Base(base)
      modifies this`out, this`charcount
      ensures Valid() && View() == PrintedNumber(old(View()))
    {
      var stuff := Convert(num, base);
      var bprefix := if baseprefix && base == 16 then "0x" else if baseprefix && base == 8 then "0" else "";
      var sprefix := if sign then "-" else "";
      PrintStuff(sprefix, bprefix, stuff);
    }

    /** __pf_modifier. */
    method Modifier(ch: char)
      requires IsModifier(ch)
      modifies this`altformat, this`rightspc, this`spacing, this`fillchar
      ensures View() == Modified(old(View()), ch)
    {
      if ch == '#' {
        altformat := true;
      } else if ch == '-' {
        rightspc := true;
      } else if ch == 'l' || ch == 'q' {
        // long and int have the same size
      } else if ch == '0' {
        if spacing > 0 {
          spacing := spacing * 10;
        } else {
          fillchar := '0';
        }
      } else {
        assert '0' < ch <= '9';
        spacing := spacing * 10 + DigitValue(ch);
      }
    }

    /** __pf_getnum. The negation wraps around at the smallest number. */
    method GetNum(ch: char)
      requires args != [] && args[0].Num?
      modifies this`args, this`num, this`sign
      ensures View() == Fetched(old(View()), ch)
    {
      var w := args[0].w;
      args := args[1..];
      num := w;
      if ch == 'd' {
        var signednum := ToSigned(w);
        if signednum < 0 {
          sign := true;
          num := ToWord(-signednum);
        }
      }
    }

    /** __pf_setbase. */
    method SetBase(ch: char)
      requires IsInteger(ch)
      modifies this`base, this`baseprefix
      ensures Base(base) && base == BaseOf(ch) && baseprefix == (old(baseprefix) || altformat || ch == 'p')
    {
      if ch == 'd' || ch == 'u' {
        base := 10;
      } else if ch == 'x' || ch == 'p' {
        base := 16;
      } else {
        base := 8;
      }
      if altformat || ch == 'p' {
        baseprefix := true;
      }
    }

    /** An integer conversion. */
    method SendInteger(ch: char)
      requires Valid() && Supplied(View(), ch) && inPct && !IsModifier(ch) && IsInteger(ch)
      modifies this
      ensures Valid() && View() == Sent(old(View()), ch)
    {
      hide Field;
      hide Digits;
      hide Modified;
      hide Fetched;
      hide IsModifier;
      hide IsInteger;
      hide BaseOf;
      GetNum(ch);
      SetBase(ch);
      PrintNum();
      Reset();
    }

    /** __pf_send. */
    method Send(ch: char)
      requires Valid() && Supplied(View(), ch)
      modifies this
      ensures Valid() && View() == Sent(old(View()), ch)
    {
      hide Field;
      hide Digits;
      hide Modified;
      hide Fetched;
      hide IsModifier;
      hide IsInteger;
      hide CharText;
      hide BaseOf;
      if !inPct && ch != '%' {
        Print([ch]);
      } else if !inPct {
        inPct := true;
      } else if IsModifier(ch) {
        Modifier(ch);
      } else if IsInteger(ch) {
        SendInteger(ch);
      } else if ch == 's' {
        var str := if args[0].Null? then "(null)" else args[0].s;
        args := args[1..];
        PrintStuff("", "", str);
        Reset();
      } else {
        var x := [ch];
        if ch == 'c' {
          x := CharText(args[0].w);
          args := args[1..];
        }
        PrintStuff("", "", x);
        Reset();
      }
    }
  }

  function Start(ap: seq<Arg>): State { State("", ap, false, 0, false, 0, false, ' ', 0, false, false) }

  /** __vprintf: the text is that of the format, and the count its length. */
  method Vprintf(format: string, ap: seq<Arg>) returns (out: string, count: nat)
    requires Given(format, ap)
    ensures Ready(Start(ap), format) && out == Run(Start(ap), format).out == Text(format, ap) && count == |out|
  {
    ReadyIff("", ap, format);
    TextPrinted("", ap, format);
    assert "" + Text(format, ap) == Text(format, ap);
    hide Text;
    hide Sent;
    hide Supplied;
    var pf := new Pf(ap);
    var i := 0;
    assert format[0..] == format;
    while i < |format|
      invariant 0 <= i <= |format| && pf.Valid() && Ready(pf.View(), format[i..])
      invariant Run(pf.View(), format[i..]) == Run(Start(ap), format)
    {
      assert format[i..][0] == format[i] && format[i..][1..] == format[i + 1..];
      pf.Send(format[i]);
      i := i + 1;
    }
    out, count := pf.out, pf.charcount;
  }

  // ----- Laws of printed text

  /** A format without conversions prints itself. */
  lemma {:induction false} PlainText(format: string, args: seq<Arg>)
    requires '%' !in format
    ensures Ready(Start(args), format) && Run(Start(args), format).out == format
  {
    PlainRun("", args, format);
    assert "" + format == format;
  }

  lemma {:induction false} PlainRun(out: string, args: seq<Arg>, format: string)
    requires '%' !in format
    ensures Ready(Clean(out, args), format) && Run(Clean(out, args), format) == Clean(out + format, args)
    decreases |format|
  {
    if format == "" {
      assert out + format == out;
    } else {
      PlainRun(out + [format[0]], args, format[1..]);
      assert out + [format[0]] + format[1..] == out + format;
    }
  }

  /** A format that ends outside of a conversion, followed by another: the text of the
      first, then that of the second with the arguments left over. */
  lemma Sequenced(f: string, g: string, args: seq<Arg>)
    requires Ready(Start(args), f + g) && Ready(Start(args), f) && !Run(Start(args), f).inPct
    ensures var rest := Run(Start(args), f).args;
            && Ready(Start(rest), g)
            && Run(Start(args), f + g).out == Run(Start(args), f).out + Run(Start(rest), g).out
  {
    hide Sent;
    hide Supplied;
    var r := Run(Start(args), f);
    TextPrinted("", args, f);
    ReadySplit(Start(args), f, g);
    RunJoin(Start(args), f, g);
    ReadyIff(r.out, r.args, g);
    ReadyIff("", r.args, g);
    TextPrinted(r.out, r.args, g);
    TextPrinted("", r.args, g);
    assert "" + Text(g, r.args) == Text(g, r.args);
  }

  /** The value of a digit in any base, by its place in the alphabet. */
  function HexValue(c: char): int {
    if '0' <= c <= '9' then c as int - '0' as int
    else if 'a' <= c <= 'f' then c as int - 'a' as int + 10
    else -1
  }

  /** The number that a text stands for in base b. */
  function ValueIn(s: string, b: nat): int {
    if s == "" then 0 else ValueIn(s[..|s| - 1], b) * b + HexValue(s[|s| - 1])
  }

  /** s is n written in base b: the digits are below b, stand for n, and have no leading zero. */
  predicate Writes(s: string, b: nat, n: nat) {
    && s != "" && (forall i :: 0 <= i < |s| ==> 0 <= HexValue(s[i]) < b)
    && ValueIn(s, b) == n && (s[0] == '0' ==> s == "0")
  }

  lemma {:induction false} DigitsWrite(n: nat, b: nat)
    requires Base(b)
    ensures Writes(Digits(n, b), b, n)
  {
    hide Writes;
    hide Digits;
    DigitsUnfold(n, b);
    QuotientLess(n, b);
    DivMod(n, b);
    var q, r := n / b, n % b;
    if q > 0 {
      DigitsWrite(q, b);
      WritesMore(Digits(q, b), b, q, r);
    } else {
      WritesDigit(b, r);
      assert "" + [DigitChar(r)] == [DigitChar(r)];
    }
  }

  lemma DivMod(n: nat, b: nat)
    requires Base(b)
    ensures n / b * b + n % b == n && n % b < b && (n / b == 0 ==> n % b == n)
  {
  }

  lemma WritesDigit(b: nat, d: nat)
    requires d < b <= 16
    ensures Writes([DigitChar(d)], b, d)
  {
    var s := [DigitChar(d)];
    HexRound(d);
    assert s[..0] == "" && ValueIn("", b) == 0;
    if s[0] == '0' { HexZero(d); }
  }

  /** One more digit. */
  lemma WritesMore(s: string, b: nat, n: nat, d: nat)
    requires Writes(s, b, n) && n > 0 && d < b <= 16
    ensures Writes(s + [DigitChar(d)], b, n * b + d)
  {
    HexRound(d);
    hide DigitChar;
    var t := s + [DigitChar(d)];
    assert t[..|s|] == s;
    assert ValueIn(t, b) == ValueIn(s, b) * b + HexValue(t[|s|]);
    assert ValueIn("0", b) == 0 by { assert "0"[..0] == ""; }
  }

  lemma HexRound(d: nat)
    requires d < 16
    ensures HexValue(DigitChar(d)) == d
  {
  }

  lemma HexZero(d: nat)
    requires d < 16 && DigitChar(d) == '0'
    ensures d == 0
  {
  }

  lemma IntegerSupplied(m: string, ch: char, w: Word)
    requires IsInteger(ch)
    ensures !IsModifier(ch) && Supplied(Begun(Start([Num(w)]), m), ch)
  {
  }

  /** %u, %o and %x: with any modifiers, the argument in base 10, 8 or 16, with the prefix
      that # asks for, padded. */
  lemma UnsignedPrints(m: string, ch: char, b: nat, w: Word) returns (ds: string)
    requires Modifiers(m) && ((ch == 'u' && b == 10) || (ch == 'o' && b == 8) || (ch == 'x' && b == 16))
    ensures Writes(ds, b, w) && Ready(Start([Num(w)]), "%" + m + [ch])
    ensures Run(Start([Num(w)]), "%" + m + [ch]).out
         == Padded(m, if '#' in m && b == 16 then "0x" else if '#' in m && b == 8 then "0" else "", ds)
  {
    hide Writes;
    hide Padded;
    hide Begun;
    ds := Digits(w, b);
    DigitsWrite(w, b);
    hide Digits;
    IntegerSupplied(m, ch, w);
    ConversionPrintsText(m, ch, [Num(w)]);
  }

  /** %d: the same for the absolute value of the argument taken as signed, after its sign. */
  lemma SignedPrints(m: string, n: int) returns (ds: string)
    requires Modifiers(m) && Int32(n)
    ensures Writes(ds, 10, if n < 0 then -n else n) && Ready(Start([Num(ToWord(n))]), "%" + m + "d")
    ensures Run(Start([Num(ToWord(n))]), "%" + m + "d").out == Padded(m, if n < 0 then "-" else "", ds)
  {
    hide Writes;
    hide Padded;
    hide Begun;
    var w := ToWord(n);
    assert ToSigned(w) == n;
    ds := Digits(Amount('d', w), 10);
    DigitsWrite(Amount('d', w), 10);
    hide Digits;
    IntegerSupplied(m, 'd', w);
    ConversionPrintsText(m, 'd', [Num(w)]);
  }

  /** %p: hexadecimal, always with the prefix. */
  lemma PointerPrints(m: string, w: Word) returns (ds: string)
    requires Modifiers(m)
    ensures Writes(ds, 16, w) && Ready(Start([Num(w)]), "%" + m + "p")
    ensures Run(Start([Num(w)]), "%" + m + "p").out == Padded(m, "0x", ds)
  {
    hide Writes;
    hide Padded;
    hide Begun;
    ds := Digits(w, 16);
    DigitsWrite(w, 16);
    hide Digits;
    IntegerSupplied(m, 'p', w);
    ConversionPrintsText(m, 'p', [Num(w)]);
  }

  /** %s: the string, or what stands for a null pointer. */
  lemma StringPrints(m: string, s: string)
    requires Modifiers(m)
    ensures Ready(Start([Str(s)]), "%" + m + "s") && Run(Start([Str(s)]), "%" + m + "s").out == Padded(m, "", s)
    ensures Ready(Start([Null]), "%" + m + "s") && Run(Start([Null]), "%" + m + "s").out == Padded(m, "", "(null)")
  {
    ConversionPrintsText(m, 's', [Str(s)]);
    ConversionPrintsText(m, 's', [Null]);
  }

  /** %c: the low byte of the argument as a character; and any other character, with %%
      among them, stands for itself. */
  lemma CharPrints(m: string, c: char, w: Word)
    requires Modifiers(m) && 0 < c as int < 256 && w % 256 == c as int
    ensures Ready(Start([Num(w)]), "%" + m + "c") && Run(Start([Num(w)]), "%" + m + "c").out == Padded(m, "", [c])
    ensures !IsModifier(c) && !IsInteger(c) && c != 's' && c != 'c' ==>
      Ready(Start([]), "%" + m + [c]) && Run(Start([]), "%" + m + [c]).out == Padded(m, "", [c])
  {
    hide Padded;
    ConversionPrintsText(m, 'c', [Num(w)]);
    if !IsModifier(c) && !IsInteger(c) && c != 's' && c != 'c' { ConversionPrintsText(m, c, []); }
  }

  lemma ConversionPrintsText(m: string, ch: char, args: seq<Arg>)
    requires Modifiers(m) && !IsModifier(ch) && Supplied(Begun(Start(args), m), ch)
    ensures Ready(Start(args), "%" + m + [ch]) && Run(Start(args), "%" + m + [ch]).out == Converted(m, ch, args)
  {
    RunModifiers("", args, m);
    hide Converted;
    RunOne(Begun(Start(args), m), ch);
    RunJoin(Start(args), "%" + m, [ch]);
    ConversionSent("", args, m, ch);
    assert "" + Converted(m, ch, args) == Converted(m, ch, args);
  }

  /** Padding makes the text as wide as asked, and takes nothing from it. */
  lemma PaddedLength(m: string, head: string, body: string)
    ensures |Padded(m, head, body)| == if Width(m) > |head| + |body| then Width(m) else |head| + |body|
    ensures Width(m) <= |head| + |body| ==> Padded(m, head, body) == head + body
  {
  }

  // ----- Printing a number and reading it back

  /** A %d conversion with the given flags and width (0 for none). */
  function Conversion(left: bool, zero: bool, width: nat): string {
    "%" + (if left then "-" else "") + (if zero then "0" else "") + (if width > 0 then Digits(width, 10) else "") + "d"
  }

  /** The digits of a width add up to it. */
  lemma {:induction false} RunWidth(st: State, w: nat)
    requires st.inPct && st.spacing == 0 && w > 0
    ensures Ready(st, Digits(w, 10)) && Run(st, Digits(w, 10)) == st.(spacing := w)
  {
    hide Sent;
    hide Supplied;
    hide Run;
    hide Ready;
    hide DigitChar;
    var c := DigitChar(w % 10);
    if w < 10 {
      WidthDigit(st, w);
      RunOne(st, c);
    } else {
      RunWidth(st, w / 10);
      var mid := st.(spacing := w / 10);
      WidthDigit(mid, w % 10);
      RunOne(mid, c);
      RunJoin(st, Digits(w / 10, 10), [c]);
    }
  }

  /** A digit after the first, or a first that is not 0, belongs to the width. */
  lemma WidthDigit(st: State, d: nat)
    requires st.inPct && d < 10 && (d > 0 || st.spacing > 0)
    ensures Supplied(st, DigitChar(d)) && Sent(st, DigitChar(d)) == st.(spacing := st.spacing * 10 + d)
  {
    var c := DigitChar(d);
    DigitRound(d);
    assert IsModifier(c);
  }

  function Abs(n: int): nat { if n < 0 then -n else n }
  function Sign(n: int): string { if n < 0 then "-" else "" }

  /** How much padding the conversion needs. */
  function Padding(n: int, width: nat): nat {
    var len := |Sign(n)| + |Digits(Abs(n), 10)|;
    if width > len then width - len else 0
  }

  /** What the conversion prints. */
  function Decimal(n: int, left: bool, zero: bool, width: nat): string {
    var ds, pad := Digits(Abs(n), 10), Fill(if zero then '0' else ' ', Padding(n, width));
    if left then Sign(n) + ds + pad else if zero then Sign(n) + pad + ds else pad + Sign(n) + ds
  }

  /** The state of printf before the final d. */
  function Primed(n: int, left: bool, zero: bool, width: nat): State {
    Start([Num(ToWord(n))]).(inPct := true, rightspc := left, fillchar := if zero then '0' else ' ', spacing := width)
  }

  lemma RunFlag(st: State, on: bool, c: char)
    requires st.inPct && st.spacing == 0 && (c == '-' || c == '0')
    ensures var f := if on then [c] else "";
            && Ready(st, f)
            && Run(st, f) == if on && c == '-' then st.(rightspc := true) else if on then st.(fillchar := '0') else st
  {
    if on { RunOne(st, c); }
  }

  lemma RunToD(n: int, left: bool, zero: bool, width: nat)
    ensures var f := Conversion(left, zero, width);
            Ready(Start([Num(ToWord(n))]), f[..|f| - 1])
              && Run(Start([Num(ToWord(n))]), f[..|f| - 1]) == Primed(n, left, zero, width)
  {
    var s0 := Start([Num(ToWord(n))]);
    var f1, f2, f3 := if left then "-" else "", if zero then "0" else "", if width > 0 then Digits(width, 10) else "";
    RunOne(s0, '%');
    var s1 := s0.(inPct := true);
    assert Sent(s0, '%') == s1;
    hide Sent;
    hide Supplied;
    hide Digits;
    RunFlag(s1, left, '-');
    var s2 := s1.(rightspc := left);
    RunFlag(s2, zero, '0');
    var s3 := s2.(fillchar := if zero then '0' else ' ');
    if width > 0 { RunWidth(s3, width); }
    RunJoin(s0, "%", f1);
    RunJoin(s0, "%" + f1, f2);
    RunJoin(s0, "%" + f1 + f2, f3);
    var f := Conversion(left, zero, width);
    assert f[..|f| - 1] == "%" + f1 + f2 + f3;
  }

  /** %d with any flags and width prints Decimal. */
  lemma ConversionPrints(n: int, left: bool, zero: bool, width: nat)
    requires Int32(n)
    ensures Ready(Start([Num(ToWord(n))]), Conversion(left, zero, width))
    ensures Run(Start([Num(ToWord(n))]), Conversion(left, zero, width)).out == Decimal(n, left, zero, width)
  {
    var s0, f, p := Start([Num(ToWord(n))]), Conversion(left, zero, width), Primed(n, left, zero, width);
    RunToD(n, left, zero, width);
    LastSent(n, left, zero, width);
    hide Sent;
    hide Supplied;
    RunOne(p, 'd');
    RunJoin(s0, f[..|f| - 1], "d");
    assert f == f[..|f| - 1] + "d";
  }

  lemma LastSent(n: int, left: bool, zero: bool, width: nat)
    requires Int32(n)
    ensures var p := Primed(n, left, zero, width); Supplied(p, 'd') && Sent(p, 'd').out == Decimal(n, left, zero, width)
  {
    hide Digits;
    hide Field;
    var p := Primed(n, left, zero, width);
    assert ToSigned(ToWord(n)) == n;
    var g := Fetched(p, 'd').(base := 10);
    FieldIsDecimal(g, n, left, zero, width);
    hide Decimal;
    assert IsInteger('d') && !IsModifier('d');
    hide IsInteger;
    hide IsModifier;
    hide CharText;
    hide Modified;
    assert "" + Decimal(n, left, zero, width) == Decimal(n, left, zero, width);
  }

  lemma FieldIsDecimal(g: State, n: int, left: bool, zero: bool, width: nat)
    requires g.spacing == width && g.rightspc == left && g.fillchar == if zero then '0' else ' '
    ensures Field(g, Sign(n), "", Digits(Abs(n), 10)) == Decimal(n, left, zero, width)
  {
    hide Digits;
    assert Sign(n) + "" == Sign(n);
    var ds, pad := Digits(Abs(n), 10), Fill(if zero then '0' else ' ', Padding(n, width));
    assert pad + Sign(n) + "" == pad + Sign(n);
  }

  /** The printed length is the larger of the width and the natural length. */
  lemma DecimalLength(n: int, left: bool, zero: bool, width: nat)
    ensures var natural := |Sign(n)| + |Digits(Abs(n), 10)|;
            |Decimal(n, left, zero, width)| == if width > natural then width else natural
  {
    hide Digits;
  }

  // ----- Reading it back

  lemma {:induction false} SkipsBlanks(blanks: string, t: string)
    requires (forall i :: 0 <= i < |blanks| ==> Blank(blanks[i])) && (t == "" || !Blank(t[0]))
    ensures SkipBlanks(blanks + t) == t
  {
    if blanks == "" {
      assert blanks + t == t;
    } else {
      assert (blanks + t)[1..] == blanks[1..] + t;
      SkipsBlanks(blanks[1..], t);
    }
  }

  lemma {:induction false} RunOfDigits(d: string, rest: string)
    requires AllDigits(d) && (rest == "" || !IsDigit(rest[0]))
    ensures DigitRun(d + rest) == d
  {
    if d == "" {
      assert d + rest == rest;
    } else {
      assert (d + rest)[1..] == d[1..] + rest;
      RunOfDigits(d[1..], rest);
    }
  }

  /** atoi of any text: blanks and tabs, a sign or none, digits, and what follows them. The
      digits count modulo 2^32, and none are 0. */
  lemma AtoiText(blanks: string, sign: string, d: string, rest: string)
    requires (forall i :: 0 <= i < |blanks| ==> Blank(blanks[i])) && (sign == "" || sign == "-" || sign == "+")
    requires AllDigits(d) && (rest == "" || !IsDigit(rest[0]))
    requires sign == "" && d == "" && rest != "" ==> !Blank(rest[0]) && rest[0] != '-' && rest[0] != '+'
    ensures var v: int := Value(d) % TWO32;
            AtoiOf(blanks + (sign + (d + rest))) == ToSigned(ToWord(if sign == "-" then -v else v))
  {
    hide Value;
    hide DigitRun;
    var t := sign + (d + rest);
    SkipsBlanks(blanks, t);
    hide SkipBlanks;
    if sign == "" {
      assert t == d + rest;
    } else {
      assert t[0] == sign[0] && t[1..] == d + rest;
    }
    RunOfDigits(d, rest);
  }

  lemma SignedBack(n: int, v: int)
    requires Int32(n) && 0 <= v < TWO32
    ensures ToSigned(ToWord(if n < 0 then -v else v)) == n <==> v == Abs(n)
  {
  }

  /** If an odd multiple of m is divisible by a power of two, so is m. */
  lemma {:induction false} OddCancel(m: nat, o: nat, e: nat, q: nat) returns (r: nat)
    requires o % 2 == 1 && m * o == q * Power(2, e)
    ensures m == r * Power(2, e)
  {
    if e == 0 {
      r := m;
    } else {
      var p := Power(2, e - 1);
      EvenFactor(m, o, q * p);
      var h := m / 2;
      assert 2 * (h * o) == 2 * (q * p);
      r := OddCancel(h, o, e - 1, q);
      assert m == 2 * (r * p) == r * (2 * p);
    }
  }

  lemma EvenFactor(m: nat, o: nat, x: nat)
    requires o % 2 == 1 && m * o == 2 * x
    ensures m % 2 == 0
  {
    var h := o / 2;
    assert m * o == m * (2 * h + 1) == 2 * (m * h) + m;
    var y := x - m * h;
    assert m == 2 * y;
  }

  lemma {:induction false} TenPowerEven(k: nat)
    requires k > 0
    ensures Power(10, k) % 2 == 0
  {
    assert Power(10, k) == 2 * (5 * Power(10, k - 1));
  }

  lemma {:induction false} TwoPower32()
    ensures Power(2, 32) == TWO32
  {
    assert Power(2, 4) == 16 by {
      assert Power(2, 1) == 2 && Power(2, 2) == 4 && Power(2, 3) == 8;
    }
    assert Power(2, 8) == 256 by {
      assert Power(2, 5) == 32 && Power(2, 6) == 64 && Power(2, 7) == 128;
    }
    assert Power(2, 12) == 4096 by {
      assert Power(2, 9) == 512 && Power(2, 10) == 1024 && Power(2, 11) == 2048;
    }
    assert Power(2, 16) == 65536 by {
      assert Power(2, 13) == 8192 && Power(2, 14) == 16384 && Power(2, 15) == 32768;
    }
    assert Power(2, 20) == 1048576 by {
      assert Power(2, 17) == 131072 && Power(2, 18) == 262144 && Power(2, 19) == 524288;
    }
    assert Power(2, 24) == 16777216 by {
      assert Power(2, 21) == 2097152 && Power(2, 22) == 4194304 && Power(2, 23) == 8388608;
    }
    assert Power(2, 28) == 268435456 by {
      assert Power(2, 25) == 33554432 && Power(2, 26) == 67108864 && Power(2, 27) == 134217728;
    }
    assert Power(2, 29) == 536870912 && Power(2, 30) == 1073741824 && Power(2, 31) == 2147483648;
  }

  /** Trailing zeros always change a number other than 0, also modulo 2^32. */
  lemma ZerosMatter(a: nat, k: nat)
    requires 0 < a < TWO32 && k > 0
    ensures a * Power(10, k) % TWO32 != a
  {
    var p := Power(10, k);
    if a * p % TWO32 == a {
      TenPowerEven(k);
      TwoPower32();
      PowerPositive(k);
      hide Power;
      OneLess(a, p);
      var r := OddCancel(a, p - 1, 32, a * p / TWO32);
    }
  }

  lemma OneLess(a: nat, p: nat)
    requires p >= 1
    ensures a * (p - 1) == a * p - a
  {
  }

  lemma ZerosHarmless(a: nat, k: nat)
    requires a < TWO32
    ensures a * Power(10, k) % TWO32 == a <==> k == 0 || a == 0
  {
    if k == 0 { assert Power(10, 0) == 1; } else if a != 0 { ZerosMatter(a, k); }
  }

  lemma {:induction false} PowerPositive(k: nat)
    ensures Power(10, k) >= 1
  {
    if k > 0 { PowerPositive(k - 1); }
  }

  /** Zeros on the right multiply by a power of ten. */
  lemma BothFlags(n: int, width: nat)
    requires Int32(n)
    ensures AtoiOf(Decimal(n, true, true, width)) == n <==> Padding(n, width) == 0 || n == 0
  {
    var ds, k := Digits(Abs(n), 10), Padding(n, width);
    ValueOfDigits(Abs(n));
    hide *;
    ValueOfExtended(ds, k);
    DecimalShape(n, true, true, width);
    TextMeans(n, 0, ds + Fill('0', k), "");
    var m := Magnitude(n);
    ZerosHarmless(m, k);
  }

  lemma OneFlag(n: int, left: bool, zero: bool, width: nat)
    requires Int32(n) && !(left && zero)
    ensures AtoiOf(Decimal(n, left, zero, width)) == n
  {
    var ds, k := Digits(Abs(n), 10), Padding(n, width);
    ValueOfDigits(Abs(n));
    hide *;
    DecimalShape(n, left, zero, width);
    var m := Magnitude(n);
    if left {
      TextMeans(n, 0, ds, Fill(' ', k));
    } else if zero {
      ValueOfPadded(k, ds);
      TextMeans(n, 0, Fill('0', k) + ds, "");
    } else {
      TextMeans(n, k, ds, "");
    }
  }

  lemma Magnitude(n: int) returns (m: nat)
    requires Int32(n)
    ensures m == Abs(n) < TWO32 && m % TWO32 == m && (m == 0 <==> n == 0)
  {
    m := Abs(n);
  }

  /** atoi undoes %d for every number and width, except that zeros cannot be padded on
      the right: with both flags it does so only if there is nothing to pad, or for 0. */
  lemma RoundTrip(n: int, left: bool, zero: bool, width: nat)
    requires Int32(n)
    ensures AtoiOf(Decimal(n, left, zero, width)) == n <==> !(left && zero) || Padding(n, width) == 0 || n == 0
  {
    hide *;
    if left && zero { BothFlags(n, width); } else { OneFlag(n, left, zero, width); }
  }

  lemma TextMeans(n: int, k: nat, d: string, rest: string)
    requires Int32(n) && d != "" && AllDigits(d) && (rest == "" || (rest == Fill(' ', |rest|)))
    ensures AtoiOf(Fill(' ', k) + (Sign(n) + (d + rest))) == n <==> Value(d) % TWO32 == Abs(n)
  {
    hide AtoiOf;
    hide Value;
    AtoiText(Fill(' ', k), Sign(n), d, rest);
    SignedBack(n, Value(d) % TWO32);
  }

  lemma DecimalShape(n: int, left: bool, zero: bool, width: nat)
    ensures var ds, k := Digits(Abs(n), 10), Padding(n, width);
            var s, d, rest := if left || zero then 0 else k,
                              if zero then (if left then ds + Fill('0', k) else Fill('0', k) + ds) else ds,
                              if left && !zero then Fill(' ', k) else "";
            Decimal(n, left, zero, width) == Fill(' ', s) + (Sign(n) + (d + rest))
  {
    hide Digits;
    hide Padding;
    assert Fill(' ', 0) == "";
    var ds, k := Digits(Abs(n), 10), Padding(n, width);
    if left && zero {
      assert Sign(n) + ds + Fill('0', k) == "" + (Sign(n) + (ds + Fill('0', k) + ""));
    } else if left {
      assert Sign(n) + ds + Fill(' ', k) == "" + (Sign(n) + (ds + Fill(' ', k)));
    } else if zero {
      assert Sign(n) + Fill('0', k) + ds == "" + (Sign(n) + (Fill('0', k) + ds + ""));
    } else {
      assert Fill(' ', k) + Sign(n) + ds == Fill(' ', k) + (Sign(n) + (ds + ""));
    }
  }

  /** Print with %d, then parse. */
  method PrintAndParse(n: int, left: bool, zero: bool, width: nat) returns (text: string, back: int)
    requires Int32(n)
    ensures back == n <==> !(left && zero) || Padding(n, width) == 0 || n == 0
    ensures var natural := |Sign(n)| + |Digits(Abs(n), 10)|; |text| == if width > natural then width else natural
  {
    hide Digits;
    hide AtoiOf;
    hide Decimal;
    ConversionPrints(n, left, zero, width);
    DecimalLength(n, left, zero, width);
    RoundTrip(n, left, zero, width);
    ReadyIff("", [Num(ToWord(n))], Conversion(left, zero, width));
    hide Text;
    hide Run;
    hide Ready;
    hide Given;
    var count;
    text, count := Vprintf(Conversion(left, zero, width), [Num(ToWord(n))]);
    back := Atoi(text);
  }
}
