/**
 The printf interpreter (src/printf.c).

 A C string is a sequence that holds a NUL; its text is what comes before the
 first one. The variable arguments are a list, taken from the front.
 */
module Printf {
  import opened Bits
  import opened Bytes

  type i32 = x: int | -0x8000_0000 <= x < 0x8000_0000

  type CString = s: string | '\0' in s witness "\0"

  type word = x: nat | x < WORD_MOD witness 0

  /** What comes before the NUL. */
  function Text(z: string): (r: string)
    ensures r <= z && '\0' !in r
    ensures '\0' in z ==> |r| < |z| && z[|r|] == '\0'
  {
    if z == [] || z[0] == '\0' then [] else [z[0]] + Text(z[1..])
  }

  // ---------- Numerals ----------

  const HEX: string := "0123456789abcdef"

  /** The digits of n without a special case: none for zero. */
  function Digits(n: nat, base: nat): string
    requires 2 <= base <= 16
    decreases n
  {
    if n == 0 then "" else QuotientIsSmaller(n, base); Digits(n / base, base) + [HEX[n % base]]
  }

  lemma Division(n: nat, base: nat)
    requires base > 0
    ensures n / base >= 0 && n % base < base && n == n / base * base + n % base
  {
  }

  lemma QuotientIsSmaller(n: nat, base: nat)
    requires n > 0 && base >= 2
    ensures 0 <= n / base <= n / 2 < n
  {
    Division(n, base);
    MulMonotone(2, base, n / base);
  }

  lemma DigitsStep(n: nat, base: nat)
    requires 2 <= base <= 16
    ensures n == 0 ==> Digits(n, base) == ""
    ensures n > 0 ==> 0 <= n / base < n && Digits(n, base) == Digits(n / base, base) + [HEX[n % base]]
  {
    if n > 0 {
      QuotientIsSmaller(n, base);
    }
  }

  function Numeral(n: nat, base: nat): string
    requires 2 <= base <= 16
  {
    if n == 0 then "0" else Digits(n, base)
  }

  function DigitValue(c: char): (r: nat)
    ensures r < 16 ==> c == HEX[r]
  {
    if '0' <= c <= '9' then (c - '0') as nat
    else if 'a' <= c <= 'f' then (c - 'a') as nat + 10
    else 16
  }

  /** The number that a string of digits stands for. */
  function Value(s: string, base: nat): nat {
    if s == "" then 0 else Value(s[..|s| - 1], base) * base + DigitValue(s[|s| - 1])
  }

  /** A string of digits of the base without a leading zero. */
  predicate IsNumeral(s: string, base: nat) {
    && s != ""
    && (forall i :: 0 <= i < |s| ==> DigitValue(s[i]) < base)
    && (s[0] == '0' ==> s == "0")
  }

  lemma {:induction false} DigitsDecode(n: nat, base: nat)
    requires 2 <= base <= 16
    ensures Value(Digits(n, base), base) == n
    ensures n > 0 ==> IsNumeral(Digits(n, base), base) && Digits(n, base)[0] != '0'
  {
    if n == 0 {
    } else {
      hide Digits, Value, IsNumeral, DigitValue;
      var q := n / base;
      DigitsStep(n, base);
      DigitsDecode(q, base);
      DigitsStep(q, base);
      HexDigit(n % base);
      Division(n, base);
      Extend(Digits(q, base), base, HEX[n % base]);
    }
  }

  lemma HexDigit(r: nat)
    requires r < 16
    ensures DigitValue(HEX[r]) == r && (HEX[r] == '0' <==> r == 0) && HEX[r] != '\0'
    ensures HEX[r] as int == if r < 10 then 48 + r else 87 + r   // ASCII
  {
  }

  /** One more digit. */
  lemma Extend(s: string, base: nat, c: char)
    requires DigitValue(c) < base
    requires if s == "" then c != '0' else IsNumeral(s, base) && s[0] != '0'
    ensures Value(s + [c], base) == Value(s, base) * base + DigitValue(c)
    ensures IsNumeral(s + [c], base) && (s + [c])[0] != '0'
  {
    assert (s + [c])[..|s|] == s;
  }

  /** A string of digits that does not start with zero is the one Digits gives for its value. */
  lemma {:induction false} DigitsAreUnique(s: string, base: nat)
    requires 2 <= base <= 16 && IsNumeral(s, base) && s[0] != '0'
    ensures Value(s, base) > 0 && Digits(Value(s, base), base) == s
  {
    hide Digits, DigitValue;
    var front, c := s[..|s| - 1], s[|s| - 1];
    if front != "" {
      DigitsAreUnique(front, base);
    } else {
      DigitsStep(0, base);
      assert c == s[0] && HEX[0] == '0';
    }
    AppendDigit(Value(front, base), base, DigitValue(c));
    assert s == front + [c];
  }

  lemma AppendDigit(q: nat, base: nat, d: nat)
    requires 2 <= base <= 16 && d < base && q + d > 0
    ensures q * base + d > 0 && Digits(q * base + d, base) == Digits(q, base) + [HEX[d]]
  {
    hide Digits;
    DivMod(base, q, d);
    MulMonotone(2, base, q);
    DigitsStep(q * base + d, base);
  }

  /** The output of write_num is the only numeral that decodes to its argument. */
  lemma NumeralIff(s: string, n: nat, base: nat)
    requires 2 <= base <= 16
    ensures s == Numeral(n, base) <==> IsNumeral(s, base) && Value(s, base) == n
  {
    DigitsDecode(n, base);
    if IsNumeral(s, base) && s[0] != '0' {
      DigitsAreUnique(s, base);
    }
  }

  /** One digit a bit is enough in every base. */
  lemma {:induction false} DigitsFit(n: nat, base: nat, k: nat)
    requires 2 <= base <= 16 && n < Shl(1, k)
    ensures |Digits(n, base)| <= k
  {
    if n == 0 {
    } else {
      QuotientIsSmaller(n, base);
      DigitsFit(n / base, base, k - 1);
    }
  }

  lemma WordDigits(n: word, base: nat)
    requires 2 <= base <= 16
    ensures |Digits(n, base)| <= 64
  {
    ShlValues(1);
    assert Shl(1, 24) == 0x100_0000;
    assert Shl(1, 28) == 0x1000_0000;
    assert Shl(1, 32) == 0x1_0000_0000;
    assert Shl(1, 36) == 0x10_0000_0000;
    assert Shl(1, 40) == 0x100_0000_0000;
    assert Shl(1, 44) == 0x1000_0000_0000;
    assert Shl(1, 48) == 0x1_0000_0000_0000;
    assert Shl(1, 52) == 0x10_0000_0000_0000;
    assert Shl(1, 56) == 0x100_0000_0000_0000;
    assert Shl(1, 60) == 0x1000_0000_0000_0000;
    assert Shl(1, 64) == 0x1_0000_0000_0000_0000;
    DigitsFit(n, base, 64);
  }

  // ---------- Output ----------

  /** struct sprintf_payload, with its write_char function. */
  class Payload {
    const buff: array<char>
    var n: nat

    constructor (buff: array<char>)
      ensures this.buff == buff && n == 0
    {
      this.buff := buff;
      n := 0;
    }

    ghost predicate Valid()
      reads this
    {
      n <= buff.Length
    }

    ghost function Written(): string
      reads this, buff
      requires Valid()
    {
      buff[..n]
    }

    /** Nothing is written behind the output. */
    ghost predicate Untouched(was: seq<char>)
      reads this, buff
    {
      |was| == buff.Length && forall k :: n <= k < buff.Length ==> buff[k] == was[k]
    }

    method WriteChar(c: char)
      requires Valid() && n < buff.Length
      modifies this`n, buff
      ensures Untouched(old(buff[..]))
      ensures Valid() && n == old(n) + 1 && Written() == old(Written()) + [c]
    {
      buff[n] := c;
      n := n + 1;
    }

    method WriteString(str: CString)
      requires Valid() && n + |Text(str)| <= buff.Length
      modifies this`n, buff
      ensures Untouched(old(buff[..]))
      ensures Valid() && Written() == old(Written()) + Text(str)
    {
      hide Text;
      ghost var t := Text(str);
      var i := 0;
      while str[i] != '\0'
        invariant i <= |t| && n == old(n) + i && Valid() && Untouched(old(buff[..]))
        invariant Written() == old(Written()) + t[..i]
        decreases |t| - i
      {
        WriteChar(str[i]);
        i := i + 1;
      }
    }

    method WriteNum(base: nat, n0: word)
      requires Valid() && 2 <= base <= 16 && n + |Numeral(n0, base)| <= buff.Length
      modifies this`n, buff
      ensures Untouched(old(buff[..]))
      ensures Valid() && Written() == old(Written()) + Numeral(n0, base)
    {
      hide Digits, Text;
      NumeralText(n0, base);
      if n0 == 0 {
        assert "0" + "\0" == "0\0";
        WriteString("0\0");
        return;
      }
      var digits := new char[80];
      var k := FillDigits(digits, base, n0);
      WriteString(digits[k + 1..]);
    }
  }

  /** The loop of write_num: fills the buffer from its end; k is the last free place. */
  method FillDigits(digits: array<char>, base: nat, n0: word) returns (k: nat)
    requires digits.Length == 80 && 2 <= base <= 16
    modifies digits
    ensures k <= 78 && digits[k + 1..] == Digits(n0, base) + "\0"
  {
    hide Digits;
    WordDigits(n0, base);
    DigitsStep(0, base);
    k := 79;
    digits[k] := '\0';
    k := k - 1;
    var m: nat := n0;
    while m > 0
      invariant k == 78 - |Digits(n0, base)| + |Digits(m, base)|
      invariant k <= 78 && digits[79] == '\0'
      invariant Digits(n0, base) == Digits(m, base) + digits[k + 1..79]
    {
      DigitsStep(m, base);
      ghost var low := digits[k + 1..79];
      digits[k] := HEX[m % base];
      assert digits[k..79] == [HEX[m % base]] + low;
      m := m / base;
      k := k - 1;
    }
    assert digits[k + 1..] == digits[k + 1..79] + "\0";
  }

  lemma {:induction false} TextOf(s: string)
    requires '\0' !in s
    ensures Text(s + "\0") == s
  {
    if s != "" {
      TextOf(s[1..]);
      assert (s + "\0")[1..] == s[1..] + "\0";
    } else {
      assert (s + "\0")[0] == '\0';
    }
  }

  lemma NumeralText(n: nat, base: nat)
    requires 2 <= base <= 16
    ensures Text(Numeral(n, base) + "\0") == Numeral(n, base)
  {
    NoNul(n, base);
    TextOf(Numeral(n, base));
  }

  lemma {:induction false} NoNul(n: nat, base: nat)
    requires 2 <= base <= 16
    ensures '\0' !in Digits(n, base)
  {
    if n == 0 {
    } else {
      QuotientIsSmaller(n, base);
      NoNul(n / base, base);
    }
  }

  // ---------- The interpreter ----------

  /** An argument as it was passed: an int, an unsigned long or pointer, or a string. */
  datatype Arg = Int(d: i32) | Long(ul: word) | Str(s: CString)

  /** What follows the modifiers of a directive. */
  datatype Spec =
    Percent | String | Pointer | Hex | Decimal(unsigned: bool) | Character | LongDecimal | LongHex
    | LongUnknown(c: char) | Unknown(c: char)
  {
    predicate WellFormed() {
      && (LongUnknown? ==> c != 'u' && c != 'x' && c != '\0')
      && (Unknown? ==> c !in "0123456789-.spxduc%l\0")
    }

    predicate Takes() {
      !Percent? && !LongUnknown? && !Unknown?
    }

    predicate Accepts(a: Arg) {
      match this
      case String => a.Str?
      case Pointer | LongDecimal | LongHex => a.Long?
      case Hex | Decimal(_) | Character => a.Int?
      case _ => false
    }

    function Letters(): string {
      match this
      case Percent => "%"
      case String => "s"
      case Pointer => "p"
      case Hex => "x"
      case Decimal(unsigned) => if unsigned then "u" else "d"
      case Character => "c"
      case LongDecimal => "lu"
      case LongHex => "lx"
      case LongUnknown(c) => "l" + [c]
      case Unknown(c) => [c]
    }

    /** The output for a value. */
    function Shown(a: Arg): string
      requires Accepts(a)
    {
      match this
      case String => Text(a.s)
      case Pointer | LongHex => Numeral(a.ul, 16)
      case LongDecimal => Numeral(a.ul, 10)
      case Hex => Numeral(Unsigned(a.d), 16)
      case Decimal(_) => Numeral(Unsigned(a.d), 10)
      case Character => [CharOf(a.d)]
      case _ => assert false; ""
    }
  }

  /** The conversion of an int to unsigned long. */
  function Unsigned(d: i32): word {
    d % WORD_MOD
  }

  /** The conversion of an int to char. */
  function CharOf(d: i32): char {
    (d % 256) as char
  }

  predicate IsModifier(c: char) {
    c in "0123456789-."
  }

  /** What was written and the arguments that are left; Undefined where the C program has no meaning. */
  datatype Outcome = Done(text: string, rest: seq<Arg>) | Undefined

  function Emit(text: string, o: Outcome): Outcome {
    if o.Done? then Done(text + o.text, o.rest) else Undefined
  }

  lemma EmitTwice(s: string, t: string, o: Outcome)
    ensures Emit(s, Emit(t, o)) == Emit(s + t, o)
  {
    assert o.Done? ==> (s + t) + o.text == s + (t + o.text);
  }

  /** The rest of a run on the rest f of the format. */
  function Interpret(f: string, escape: bool, args: seq<Arg>): Outcome
    decreases |f|, 0
  {
    if f == "" then Done("", args)
    else if !escape && f[0] != '%' then Emit([f[0]], Interpret(f[1..], false, args))
    else if f[0] == '%' then
      if escape then Emit("%", Interpret(f[1..], false, args)) else Interpret(f[1..], true, args)
    else if IsModifier(f[0]) then Interpret(f[1..], true, args)
    else match f[0]
      case 's' => Convert(String, f[1..], args)
      case 'p' => Convert(Pointer, f[1..], args)
      case 'x' => Convert(Hex, f[1..], args)
      case 'd' => Convert(Decimal(false), f[1..], args)
      case 'u' => Convert(Decimal(true), f[1..], args)
      case 'c' => Convert(Character, f[1..], args)
      case 'l' =>
        if |f| == 1 then Undefined   // the next turn reads past the NUL
        else if f[1] == 'u' then Convert(LongDecimal, f[2..], args)
        else if f[1] == 'x' then Convert(LongHex, f[2..], args)
        else Emit("?", Interpret(f[2..], false, args))
      case _ => Emit("?", Interpret(f[1..], false, args))
  }

  function Convert(spec: Spec, f: string, args: seq<Arg>): Outcome
    decreases |f|, 1
  {
    if args != [] && spec.Accepts(args[0]) then Emit(spec.Shown(args[0]), Interpret(f, false, args[1..])) else Undefined
  }

  /** The turns of the loop that take no argument. */
  lemma Turn(f: string, i: nat, args: seq<Arg>)
    requires i < |f|
    ensures f[i] != '%' ==> Interpret(f[i..], false, args) == Emit([f[i]], Interpret(f[i + 1..], false, args))
    ensures f[i] == '%' ==> Interpret(f[i..], false, args) == Emit("", Interpret(f[i + 1..], true, args))
    ensures f[i] == '%' ==> Interpret(f[i..], true, args) == Emit("%", Interpret(f[i + 1..], false, args))
    ensures IsModifier(f[i]) ==> Interpret(f[i..], true, args) == Emit("", Interpret(f[i + 1..], true, args))
  {
    assert f[i..][0] == f[i] && f[i..][1..] == f[i + 1..];
    EmitNothing(Interpret(f[i + 1..], true, args));
  }

  lemma EmitNothing(o: Outcome)
    ensures Emit("", o) == o
  {
    assert o.Done? ==> "" + o.text == o.text;
  }

  method Vxprintf(p: Payload, format: CString, args: seq<Arg>)
    requires p.Valid() && Interpret(Text(format), false, args).Done?
    requires p.n + |Interpret(Text(format), false, args).text| <= p.buff.Length
    modifies p`n, p.buff
    ensures p.Untouched(old(p.buff[..]))
    ensures p.Valid() && p.Written() == old(p.Written()) + Interpret(Text(format), false, args).text
  {
    hide Text, Interpret, IsModifier;
    ghost var f := Text(format);
    ghost var whole := Interpret(f, false, args);
    ghost var out, text := "", "";
    assert f[0..] == f;
    EmitNothing(whole);
    var i, escapeMode, rest := 0, false, args;
    while format[i] != '\0'
      invariant i <= |f| && Emit(out, Interpret(f[i..], escapeMode, rest)) == whole
      invariant p.Valid() && p.Written() == old(p.Written()) + out && p.Untouched(old(p.buff[..]))
      decreases |f| - i
    {
      assert format[i] == f[i];
      Turn(f, i, rest);
      text := "";
      if !escapeMode && format[i] != '%' {
        text := [format[i]];
        p.WriteChar(format[i]);
      } else if format[i] == '%' {
        if !escapeMode {
          escapeMode := true;
        } else {
          text := "%";
          p.WriteChar(format[i]);
          escapeMode := false;
        }
      } else if !IsModifier(format[i]) {
        i, rest, text := PrintDirective(p, format, i, rest);
        escapeMode := false;
      }
      i := i + 1;
      EmitTwice(out, text, Interpret(f[i..], escapeMode, rest));
      out := out + text;
    }
    assert f[i..] == "";
    AtEnd(escapeMode, rest);
  }

  lemma AtEnd(escape: bool, args: seq<Arg>)
    ensures Interpret("", escape, args) == Done("", args)
  {
  }

  /** The switch of vxprintf; j is the last character it looked at and rest the arguments it left. */
  method PrintDirective(p: Payload, format: CString, i: nat, args: seq<Arg>)
    returns (j: nat, rest: seq<Arg>, ghost text: string)
    requires i < |Text(format)| && format[i] != '%' && !IsModifier(format[i])
    requires p.Valid() && Interpret(Text(format)[i..], true, args).Done?
    requires p.n + |Interpret(Text(format)[i..], true, args).text| <= p.buff.Length
    modifies p`n, p.buff
    ensures p.Untouched(old(p.buff[..]))
    ensures i <= j < |Text(format)|
    ensures Interpret(Text(format)[i..], true, args) == Emit(text, Interpret(Text(format)[j + 1..], false, rest))
    ensures p.Valid() && p.Written() == old(p.Written()) + text
  {
    hide Text, Numeral, CharOf, Unsigned, Interpret, IsModifier;
    ghost var f := Text(format);
    j, rest := i, args;
    assert format[i] == f[i];
    if format[i] == 's' {
      Switch(f, i, String, args);
      text := Text(args[0].s);
      p.WriteString(args[0].s);
      rest := args[1..];
    } else if format[i] == 'p' {
      Switch(f, i, Pointer, args);
      text := Numeral(args[0].ul, 16);
      p.WriteNum(16, args[0].ul);
      rest := args[1..];
    } else if format[i] == 'x' {
      Switch(f, i, Hex, args);
      text := Numeral(Unsigned(args[0].d), 16);
      p.WriteNum(16, Unsigned(args[0].d));
      rest := args[1..];
    } else if format[i] == 'd' || format[i] == 'u' {
      Switch(f, i, Decimal(format[i] == 'u'), args);
      text := Numeral(Unsigned(args[0].d), 10);
      p.WriteNum(10, Unsigned(args[0].d));
      rest := args[1..];
    } else if format[i] == 'c' {
      Switch(f, i, Character, args);
      text := [CharOf(args[0].d)];
      p.WriteChar(CharOf(args[0].d));
      rest := args[1..];
    } else if format[i] == 'l' {
      j := i + 1;
      SwitchLong(f, i, args);
      assert format[j] == f[j];
      if format[j] == 'u' {
        text := Numeral(args[0].ul, 10);
        p.WriteNum(10, args[0].ul);
        rest := args[1..];
      } else if format[j] == 'x' {
        text := Numeral(args[0].ul, 16);
        p.WriteNum(16, args[0].ul);
        rest := args[1..];
      } else {
        text := "?";
        p.WriteChar('?');
      }
    } else {
      SwitchUnknown(f, i, args);
      text := "?";
      p.WriteChar('?');
    }
  }

  /** A directive of one letter that takes a value. */
  lemma Switch(f: string, i: nat, spec: Spec, args: seq<Arg>)
    requires i < |f| && spec.Takes() && |spec.Letters()| == 1 && spec.Letters()[0] == f[i]
    requires Interpret(f[i..], true, args).Done?
    ensures args != [] && spec.Accepts(args[0])
    ensures Interpret(f[i..], true, args) == Emit(spec.Shown(args[0]), Interpret(f[i + 1..], false, args[1..]))
  {
    hide Interpret, Spec.Shown, Spec.Accepts;
    assert f[i..] == spec.Letters() + f[i + 1..];
    SpecIsInterpreted(spec, f[i + 1..], args);
  }

  lemma SwitchLong(f: string, i: nat, args: seq<Arg>)
    requires i < |f| && f[i] == 'l' && Interpret(f[i..], true, args).Done?
    ensures i + 1 < |f|
    ensures f[i + 1] == 'u' || f[i + 1] == 'x' ==> args != [] && args[0].Long?
    ensures f[i + 1] == 'u' || f[i + 1] == 'x' ==>
      Interpret(f[i..], true, args)
      == Emit(Numeral(args[0].ul, if f[i + 1] == 'u' then 10 else 16), Interpret(f[i + 2..], false, args[1..]))
    ensures f[i + 1] != 'u' && f[i + 1] != 'x' ==>
      Interpret(f[i..], true, args) == Emit("?", Interpret(f[i + 2..], false, args))
  {
    assert f[i..][0] == 'l' && |f[i..]| == |f| - i;
    if i + 1 < |f| {
      assert f[i..][1] == f[i + 1] && f[i..][2..] == f[i + 2..];
    }
  }

  lemma SwitchUnknown(f: string, i: nat, args: seq<Arg>)
    requires i < |f| && '\0' !in f && f[i] !in "%spxducl" && !IsModifier(f[i])
    ensures Interpret(f[i..], true, args) == Emit("?", Interpret(f[i + 1..], false, args))
  {
    assert f[i..][0] == f[i] && f[i..][1..] == f[i + 1..];
  }

  method Sprintf(buff: array<char>, format: CString, args: seq<Arg>) returns (n: nat)
    requires Interpret(Text(format), false, args).Done?
    requires |Interpret(Text(format), false, args).text| <= buff.Length
    modifies buff
    ensures n == |Interpret(Text(format), false, args).text| && buff[..n] == Interpret(Text(format), false, args).text
    ensures buff[n..] == old(buff[..])[n..]
  {
    hide Text, Interpret;
    var p := new Payload(buff);
    Vxprintf(p, format, args);
    n := p.n;
  }

  // ---------- Formats as lists of directives ----------

  datatype Item = Literal(c: char) | Directive(modifiers: string, spec: Spec) {
    predicate WellFormed() {
      match this
      case Literal(c) => c != '%' && c != '\0'
      case Directive(modifiers, spec) => (forall c :: c in modifiers ==> IsModifier(c)) && spec.WellFormed()
    }

    /** How the item is written in a format. */
    function Written(): string {
      match this
      case Literal(c) => [c]
      case Directive(modifiers, spec) => "%" + modifiers + spec.Letters()
    }

    predicate Takes() {
      Directive? && spec.Takes()
    }

    /** What it prints; a directive without a value prints itself, or a question mark. */
    function Meaning(args: seq<Arg>): string
      requires Takes() ==> args != [] && spec.Accepts(args[0])
    {
      match this
      case Literal(c) => [c]
      case Directive(_, spec) => if spec.Takes() then spec.Shown(args[0]) else if spec.Percent? then "%" else "?"
    }
  }

  ghost predicate WellFormed(items: seq<Item>) {
    forall x :: x in items ==> x.WellFormed()
  }

  function Format(items: seq<Item>): string {
    if items == [] then "" else items[0].Written() + Format(items[1..])
  }

  /** The arguments that are left after the item. */
  function After(x: Item, args: seq<Arg>): seq<Arg>
    requires x.Takes() ==> args != []
  {
    if x.Takes() then args[1..] else args
  }

  /** There is one argument of the right type for every directive that takes one, in order. */
  predicate Supplies(items: seq<Item>, args: seq<Arg>) {
    items == []
    || ((items[0].Takes() ==> args != [] && items[0].spec.Accepts(args[0]))
        && Supplies(items[1..], After(items[0], args)))
  }

  function Meaning(items: seq<Item>, args: seq<Arg>): string
    requires Supplies(items, args)
  {
    if items == [] then "" else items[0].Meaning(args) + Meaning(items[1..], After(items[0], args))
  }

  function Values(items: seq<Item>): nat {
    if items == [] then 0 else (if items[0].Takes() then 1 else 0) + Values(items[1..])
  }

  lemma {:induction false} SuppliedValues(items: seq<Item>, args: seq<Arg>)
    requires Supplies(items, args)
    ensures Values(items) <= |args|
  {
    if items == [] {
    } else {
      SuppliedValues(items[1..], After(items[0], args));
    }
  }

  lemma {:induction false} ModifiersAreIgnored(modifiers: string, f: string, args: seq<Arg>)
    requires forall c :: c in modifiers ==> IsModifier(c)
    ensures Interpret(modifiers + f, true, args) == Interpret(f, true, args)
  {
    if modifiers == "" {
      assert modifiers + f == f;
    } else {
      assert (modifiers + f)[0] == modifiers[0] && (modifiers + f)[1..] == modifiers[1..] + f;
      assert modifiers[0] in modifiers;
      ModifiersAreIgnored(modifiers[1..], f, args);
    }
  }

  lemma SpecIsInterpreted(spec: Spec, f: string, args: seq<Arg>)
    requires spec.WellFormed()
    ensures Interpret(spec.Letters() + f, true, args)
         == if spec.Takes() then Convert(spec, f, args)
            else Emit(if spec.Percent? then "%" else "?", Interpret(f, false, args))
  {
    if spec.LongDecimal? || spec.LongHex? || spec.LongUnknown? {
      LongIsInterpreted(spec, f, args);
    } else if spec.Unknown? {
      UnknownIsInterpreted(spec.c, f, args);
    } else {
      LetterIsInterpreted(spec, f, args);
    }
  }

  lemma LetterIsInterpreted(spec: Spec, f: string, args: seq<Arg>)
    requires !spec.LongDecimal? && !spec.LongHex? && !spec.LongUnknown? && !spec.Unknown?
    ensures Interpret(spec.Letters() + f, true, args)
         == if spec.Percent? then Emit("%", Interpret(f, false, args)) else Convert(spec, f, args)
  {
    hide Convert;
    var g := spec.Letters() + f;
    assert g[0] == spec.Letters()[0] && g[1..] == f;
  }

  lemma LongIsInterpreted(spec: Spec, f: string, args: seq<Arg>)
    requires spec.WellFormed() && (spec.LongDecimal? || spec.LongHex? || spec.LongUnknown?)
    ensures Interpret(spec.Letters() + f, true, args)
         == if spec.Takes() then Convert(spec, f, args) else Emit("?", Interpret(f, false, args))
  {
    hide Convert;
    var g := spec.Letters() + f;
    assert g[0] == 'l' && g[1] == spec.Letters()[1] && g[2..] == f;
  }

  lemma UnknownIsInterpreted(c: char, f: string, args: seq<Arg>)
    requires Unknown(c).WellFormed()
    ensures Interpret([c] + f, true, args) == Emit("?", Interpret(f, false, args))
  {
    hide Convert;
    assert ([c] + f)[0] == c && ([c] + f)[1..] == f;
  }

  lemma EscapeIsInterpreted(modifiers: string, g: string, args: seq<Arg>)
    requires forall c :: c in modifiers ==> IsModifier(c)
    ensures Interpret("%" + modifiers + g, false, args) == Interpret(g, true, args)
  {
    hide Interpret, IsModifier;
    var f := "%" + modifiers + g;
    assert f[0..] == f && f[1..] == modifiers + g;
    Turn(f, 0, args);
    EmitNothing(Interpret(f[1..], true, args));
    ModifiersAreIgnored(modifiers, g, args);
  }

  lemma ItemIsInterpreted(x: Item, f: string, args: seq<Arg>)
    requires x.WellFormed()
    ensures Interpret(x.Written() + f, false, args)
         == if x.Takes() && (args == [] || !x.spec.Accepts(args[0])) then Undefined
            else Emit(x.Meaning(args), Interpret(f, false, After(x, args)))
  {
    hide Interpret, Spec.Letters, Spec.Shown, Spec.WellFormed, Spec.Accepts, IsModifier;
    match x {
      case Literal(c) =>
        var g := [c] + f;
        assert g[0..] == g && g[1..] == f;
        Turn(g, 0, args);
      case Directive(modifiers, spec) =>
        Regroup("%" + modifiers, spec.Letters(), f);
        EscapeIsInterpreted(modifiers, spec.Letters() + f, args);
        SpecIsInterpreted(spec, f, args);
    }
  }

  /** A format is interpreted item by item, and every directive with a value takes exactly one argument. */
  lemma {:induction false} FormatIsInterpreted(items: seq<Item>, tail: string, args: seq<Arg>)
    requires WellFormed(items)
    ensures Supplies(items, args) ==> Values(items) <= |args|
    ensures Supplies(items, args) ==>
      Interpret(Format(items) + tail, false, args)
      == Emit(Meaning(items, args), Interpret(tail, false, args[Values(items)..]))
    ensures !Supplies(items, args) ==> Interpret(Format(items) + tail, false, args) == Undefined
  {
    hide Interpret;
    if items == [] {
      assert Format(items) + tail == tail;
      EmitNothing(Interpret(tail, false, args));
    } else {
      var x, rest := items[0], items[1..];
      assert Format(items) + tail == x.Written() + (Format(rest) + tail);
      ItemIsInterpreted(x, Format(rest) + tail, args);
      if x.Takes() ==> args != [] && x.spec.Accepts(args[0]) {
        var left := After(x, args);
        FormatIsInterpreted(rest, tail, left);
        if Supplies(rest, left) {
          assert args[Values(items)..] == left[Values(rest)..];
          EmitTwice(x.Meaning(args), Meaning(rest, left), Interpret(tail, false, left[Values(rest)..]));
        }
      }
    }
  }

  /** What can be left at the end of a format: nothing, or an escape that is cut off. */
  datatype Ending = Complete | CutOff(modifiers: string, long: bool) {
    function Written(): string {
      match this
      case Complete => ""
      case CutOff(modifiers, long) => "%" + modifiers + if long then "l" else ""
    }
  }

  /** The modifiers that f starts with. */
  function LeadingModifiers(f: string): (r: nat)
    ensures r <= |f| && (forall c :: c in f[..r] ==> IsModifier(c)) && (r < |f| ==> !IsModifier(f[r]))
  {
    if f == "" || !IsModifier(f[0]) then 0 else
    var r := LeadingModifiers(f[1..]);
    assert f[..r + 1] == [f[0]] + f[1..][..r];
    r + 1
  }

  function SpecAt(f: string): (spec: Spec)
    requires f != "" && f != "l" && !IsModifier(f[0]) && '\0' !in f
    ensures spec.WellFormed() && spec.Letters() <= f
  {
    match f[0]
    case '%' => Percent
    case 's' => String
    case 'p' => Pointer
    case 'x' => Hex
    case 'd' => Decimal(false)
    case 'u' => Decimal(true)
    case 'c' => Character
    case 'l' => if f[1] == 'u' then LongDecimal else if f[1] == 'x' then LongHex else LongUnknown(f[1])
    case _ => Unknown(f[0])
  }

  /** Every format is a list of items, and perhaps an escape that is cut off by its end. */
  lemma {:induction false} EveryFormat(f: string) returns (items: seq<Item>, ending: Ending)
    requires '\0' !in f
    ensures WellFormed(items) && f == Format(items) + ending.Written()
    ensures ending.CutOff? ==> forall c :: c in ending.modifiers ==> IsModifier(c)
    decreases |f|
  {
    hide Format, Item.WellFormed, Item.Written, LeadingModifiers, SpecAt, Spec.WellFormed, Spec.Letters;
    if f == "" {
      items, ending := [], Complete;
      NoItems("");
    } else if f[0] != '%' {
      var more;
      more, ending := EveryFormat(f[1..]);
      items := [Literal(f[0])] + more;
      FirstLiteral(f[0], more, ending.Written());
      assert f == [f[0]] + f[1..];
    } else {
      var k := LeadingModifiers(f[1..]);
      var modifiers, g := f[1..][..k], f[1..][k..];
      assert f == "%" + modifiers + g;
      if g == "" || g == "l" {
        items, ending := [], CutOff(modifiers, g == "l");
        NoItems(f);
      } else {
        var spec := SpecAt(g);
        LettersAreSome(spec);
        var more, h := [], g[|spec.Letters()|..];
        assert g == spec.Letters() + h;
        more, ending := EveryFormat(h);
        items := [Directive(modifiers, spec)] + more;
        FirstDirective(modifiers, spec, more, ending.Written());
      }
    }
  }

  lemma LettersAreSome(spec: Spec)
    ensures spec.Letters() != ""
  {
  }

  lemma NoItems(tail: string)
    ensures WellFormed([]) && Format([]) + tail == tail
  {
  }

  lemma FirstItem(x: Item, more: seq<Item>, tail: string)
    requires x.WellFormed() && WellFormed(more)
    ensures WellFormed([x] + more)
    ensures Format([x] + more) + tail == x.Written() + (Format(more) + tail)
  {
    hide Item.WellFormed, Item.Written;
    assert ([x] + more)[1..] == more;
  }

  lemma FirstLiteral(c: char, more: seq<Item>, tail: string)
    requires c != '%' && c != '\0' && WellFormed(more)
    ensures WellFormed([Literal(c)] + more)
    ensures Format([Literal(c)] + more) + tail == [c] + (Format(more) + tail)
  {
    hide Format, WellFormed;
    FirstItem(Literal(c), more, tail);
  }

  lemma FirstDirective(modifiers: string, spec: Spec, more: seq<Item>, tail: string)
    requires (forall c :: c in modifiers ==> IsModifier(c)) && spec.WellFormed() && WellFormed(more)
    ensures WellFormed([Directive(modifiers, spec)] + more)
    ensures Format([Directive(modifiers, spec)] + more) + tail
         == "%" + modifiers + (spec.Letters() + (Format(more) + tail))
  {
    hide Format, WellFormed, Spec.Letters, Spec.WellFormed, IsModifier;
    FirstItem(Directive(modifiers, spec), more, tail);
    Regroup("%" + modifiers, spec.Letters(), Format(more) + tail);
  }

  lemma Regroup(a: string, b: string, c: string)
    ensures (a + b) + c == a + (b + c)
  {
  }

  lemma CutOffPrintsNothing(ending: Ending, args: seq<Arg>)
    requires ending.CutOff? ==> forall c :: c in ending.modifiers ==> IsModifier(c)
    ensures Interpret(ending.Written(), false, args)
         == if ending.CutOff? && ending.long then Undefined else Done("", args)
  {
    hide Interpret, IsModifier;
    if ending.CutOff? {
      EscapeIsInterpreted(ending.modifiers, if ending.long then "l" else "", args);
      LoneLong(args);
    }
    AtEnd(ending.CutOff?, args);
  }

  lemma LoneLong(args: seq<Arg>)
    ensures Interpret("l", true, args) == Undefined
  {
  }

  /**
   vxprintf on any format has a defined result exactly when the arguments fit the
   directives and the format does not end in an unfinished %l; then it prints the
   meaning of the directives.
   */
  lemma Defined(f: string, args: seq<Arg>) returns (items: seq<Item>, ending: Ending)
    requires '\0' !in f
    ensures WellFormed(items) && f == Format(items) + ending.Written()
    ensures Interpret(f, false, args).Done? <==> Supplies(items, args) && !(ending.CutOff? && ending.long)
    ensures Interpret(f, false, args).Done? ==> Values(items) <= |args|
    ensures Interpret(f, false, args).Done? ==>
      Interpret(f, false, args) == Done(Meaning(items, args), args[Values(items)..])
  {
    hide Interpret;
    items, ending := EveryFormat(f);
    FormatIsInterpreted(items, ending.Written(), args);
    if Supplies(items, args) {
      CutOffPrintsNothing(ending, args[Values(items)..]);
      assert Meaning(items, args) + "" == Meaning(items, args);
    }
  }

  // ---------- The directives by their letters ----------

  /** A directive without modifiers takes one argument of its type and prints a text. */
  ghost predicate Prints(letters: string, a: Arg, text: string) {
    forall f: string, args: seq<Arg> {:trigger Interpret(f, false, args)} ::
      Interpret("%" + letters + f, false, [a] + args) == Emit(text, Interpret(f, false, args))
  }

  lemma SpecPrints(spec: Spec, a: Arg)
    requires spec.Takes() && spec.Accepts(a)
    ensures Prints(spec.Letters(), a, spec.Shown(a))
  {
    hide Interpret, Spec.Letters, Spec.Shown, Spec.Accepts;
    forall f: string, args: seq<Arg>
      ensures Interpret("%" + spec.Letters() + f, false, [a] + args) == Emit(spec.Shown(a), Interpret(f, false, args))
    {
      var x := Directive("", spec);
      assert "%" + "" == "%" && x.Written() == "%" + spec.Letters();
      assert ([a] + args)[1..] == args;
      ItemIsInterpreted(x, f, [a] + args);
    }
  }

  /** The text is the numeral of n. */
  ghost predicate PrintsNumber(letters: string, a: Arg, base: nat, n: nat) {
    exists text :: Prints(letters, a, text) && IsNumeral(text, base) && Value(text, base) == n
  }

  lemma NumberPrints(spec: Spec, a: Arg, base: nat, n: nat)
    requires spec.Takes() && spec.Accepts(a) && 2 <= base <= 16 && spec.Shown(a) == Numeral(n, base)
    ensures PrintsNumber(spec.Letters(), a, base, n)
  {
    hide IsNumeral, Numeral, Prints, Value, Spec.Letters, Spec.Shown, Spec.Accepts;
    SpecPrints(spec, a);
    NumeralIff(Numeral(n, base), n, base);
  }

  /** %p and %lx print an unsigned long in base 16, %lu prints it in base 10. */
  lemma LongsAreExact(u: word)
    ensures PrintsNumber("p", Long(u), 16, u) && PrintsNumber("lx", Long(u), 16, u)
    ensures PrintsNumber("lu", Long(u), 10, u)
    ensures Value(Pointer.Shown(Long(u)), 16) == u && IsNumeral(Pointer.Shown(Long(u)), 16)
    ensures Value(LongHex.Shown(Long(u)), 16) == u && IsNumeral(LongHex.Shown(Long(u)), 16)
    ensures Value(LongDecimal.Shown(Long(u)), 10) == u && IsNumeral(LongDecimal.Shown(Long(u)), 10)
  {
    hide IsNumeral, Numeral, PrintsNumber, Value;
    NumeralIff(Numeral(u, 16), u, 16);
    NumeralIff(Numeral(u, 10), u, 10);
    NumberPrints(Pointer, Long(u), 16, u);
    NumberPrints(LongHex, Long(u), 16, u);
    NumberPrints(LongDecimal, Long(u), 10, u);
  }

  /** %d and %u print an int in base 10 and %x in base 16, after its conversion to an unsigned long. */
  lemma IntsAreConverted(d: i32)
    ensures var n := if d >= 0 then d else WORD_MOD + d;
      PrintsNumber("d", Int(d), 10, n) && PrintsNumber("u", Int(d), 10, n) && PrintsNumber("x", Int(d), 16, n)
  {
    hide IsNumeral, Numeral, PrintsNumber, Value;
    UnsignedValue(d);
    NumberPrints(Decimal(false), Int(d), 10, Unsigned(d));
    NumberPrints(Decimal(true), Int(d), 10, Unsigned(d));
    NumberPrints(Hex, Int(d), 16, Unsigned(d));
  }

  /** %s prints the text before the NUL, and %c the character with the code passed. */
  lemma TextsArePrinted(s: CString, d: i32)
    ensures Prints("s", Str(s), Text(s))
    ensures exists c: char :: Prints("c", Int(d), [c]) && c as int < 256 && (d - c as int) % 256 == 0
    ensures 0 <= d < 128 ==> Prints("c", Int(d), [d as char])
  {
    hide Prints, Text;
    SpecPrints(String, Str(s));
    SpecPrints(Character, Int(d));
    assert Prints("c", Int(d), [CharOf(d)]);
  }

  /** A doubled percent sign prints one; any other letter prints a question mark. Neither takes an argument. */
  lemma OthersTakeNothing(c: char, f: string, args: seq<Arg>)
    requires c != '\0'
    ensures Interpret("%%" + f, false, args) == Emit("%", Interpret(f, false, args))
    ensures c !in "0123456789-.%spxducl" ==>
      Interpret("%" + [c] + f, false, args) == Emit("?", Interpret(f, false, args))
    ensures c !in "ux" ==> Interpret("%l" + [c] + f, false, args) == Emit("?", Interpret(f, false, args))
    ensures c in "0123456789-." ==> Interpret("%" + [c] + f, false, args) == Interpret("%" + f, false, args)
  {
    hide Interpret;
    ItemPrints("%%", Percent, f, args);
    if c !in "0123456789-.%spxducl" {
      ItemPrints("%" + [c], Unknown(c), f, args);
    }
    if c !in "ux" {
      ItemPrints("%l" + [c], LongUnknown(c), f, args);
    }
    if c in "0123456789-." {
      EscapeIsInterpreted([c], f, args);
      EscapeIsInterpreted("", f, args);
      assert "%" + "" + f == "%" + f;
    }
  }

  lemma ItemPrints(written: string, spec: Spec, f: string, args: seq<Arg>)
    requires spec.WellFormed() && !spec.Takes() && written == "%" + spec.Letters()
    ensures Interpret(written + f, false, args)
         == Emit(if spec.Percent? then "%" else "?", Interpret(f, false, args))
  {
    hide Interpret, Spec.Letters, Spec.WellFormed;
    var x := Directive("", spec);
    assert "%" + "" == "%" && x.Written() == written;
    ItemIsInterpreted(x, f, args);
  }

  // ---------- Where the numbers printed are the numbers passed ----------

  lemma UnsignedValue(d: i32)
    ensures Unsigned(d) == if d >= 0 then d else d + WORD_MOD
  {
  }

  /** A signed number is printed as itself exactly when it is not negative. */
  lemma SignedIff(d: i32, unsigned: bool)
    ensures Value(Decimal(unsigned).Shown(Int(d)), 10) == d <==> d >= 0
  {
    hide Value, Numeral, IsNumeral, Unsigned;
    UnsignedValue(d);
    NumeralIff(Numeral(Unsigned(d), 10), Unsigned(d), 10);
  }

  /** An unsigned int u is passed as the int with the same 32 bits. */
  function AsInt(u: nat): i32
    requires u < 0x1_0000_0000
  {
    if u < 0x8000_0000 then u else u - 0x1_0000_0000
  }

  /** On 64-bit machines %u and %x print unsigned ints from 2^31 on as if they were sign-extended longs. */
  lemma UnsignedIff(u: nat)
    requires u < 0x1_0000_0000
    ensures Value(Decimal(true).Shown(Int(AsInt(u))), 10) == u <==> u < 0x8000_0000 || BYTE_PER_WORD == 4
    ensures Value(Hex.Shown(Int(AsInt(u))), 16) == u <==> u < 0x8000_0000 || BYTE_PER_WORD == 4
  {
    hide Value, Numeral, IsNumeral, Unsigned;
    UnsignedValue(AsInt(u));
    NumeralIff(Numeral(Unsigned(AsInt(u)), 10), Unsigned(AsInt(u)), 10);
    NumeralIff(Numeral(Unsigned(AsInt(u)), 16), Unsigned(AsInt(u)), 16);
  }
}
