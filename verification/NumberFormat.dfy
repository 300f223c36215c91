/** Printing and reading numbers (kernel/src/ee_printf.c, ee_number and ee_skip_atoi). */
module NumberFormat {
  import opened Arithmetic
  import opened Options

  const ULONG: nat := 0x1_0000_0000

  /** The bits of `type`. */
  datatype Flags = Flags(zeropad: bool, sign: bool, plus: bool, space: bool, left: bool, hexPrep: bool, uppercase: bool)

  // ----- Digits

  /** A character of lower_digits or upper_digits. */
  function DigitChar(d: nat, upper: bool): (c: char)
    requires d < 36
    ensures DigitValue(c) == Some(d)
  {
    if d < 10 then '0' + d as char else if upper then 'A' + (d - 10) as char else 'a' + (d - 10) as char
  }

  function DigitValue(c: char): (r: Option<nat>)
    ensures r.Some? ==> r.value < 36
  {
    if '0' <= c <= '9' then Some((c - '0') as nat)
    else if 'a' <= c <= 'z' then Some((c - 'a') as nat + 10)
    else if 'A' <= c <= 'Z' then Some((c - 'A') as nat + 10)
    else None
  }

  /** The digits of a number, the lowest first, as they are put into tmp; none for zero. */
  function Low(m: nat, base: nat, upper: bool): seq<char>
    requires 2 <= base <= 36
    decreases m
  {
    if m == 0 then []
    else (Smaller(m, base); [DigitChar(Remainder(m, base), upper)] + Low(Quotient(m, base), base, upper))
  }

  lemma Smaller(m: nat, base: nat)
    requires m > 0 && base >= 2
    ensures Quotient(m, base) < m && Remainder(m, base) < base
    ensures m == Append(Quotient(m, base), base, Remainder(m, base))
    ensures Quotient(m, base) == 0 ==> Remainder(m, base) == m
  {
    Division(m, base);
    Product(Quotient(m, base), base);
    hide Quotient;
    hide Remainder;
  }

  lemma Product(q: nat, base: nat)
    requires base >= 2
    ensures At(q, base) >= 2 * q && At(q, base) == q * base && At(0, base) == 0
  {
  }

  function Reverse(s: string): (r: string)
    ensures |r| == |s| && forall i :: 0 <= i < |s| ==> r[i] == s[|s| - 1 - i]
  {
    if s == [] then [] else Reverse(s[1..]) + [s[0]]
  }

  /** The digits of a number as printed. */
  function Digits(m: nat, base: nat, upper: bool): (r: string)
    requires 2 <= base <= 36
    ensures |r| > 0
  {
    if m == 0 then "0" else Reverse(Low(m, base, upper))
  }

  // ----- What digits denote

  /** A string of digits, the highest first, as a number. */
  function Denotes(s: string, base: nat): Option<nat>
  {
    if s == [] then Some(0)
    else
      var last := |s| - 1;
      var d := DigitValue(s[last]);
      match Denotes(s[..last], base)
      case None => None
      case Some(v) => if d.Some? && d.value < base then Some(Append(v, base, d.value)) else None
  }

  /** A number with one more digit. */
  function Append(v: nat, base: nat, d: nat): nat
  {
    v * base + d
  }

  /** The digits printed denote the number. */
  lemma {:induction false} LowDenotes(m: nat, base: nat, upper: bool)
    requires 2 <= base <= 36
    ensures Denotes(Reverse(Low(m, base, upper)), base) == Some(m)
    decreases m
  {
    hide Quotient;
    hide Remainder;
    hide Append;
    if m > 0 {
      Smaller(m, base);
      LowDenotes(Quotient(m, base), base, upper);
      var s := Low(m, base, upper);
      assert s[1..] == Low(Quotient(m, base), base, upper);
      var r := Reverse(s);
      assert r[..|r| - 1] == Reverse(s[1..]);
    }
  }

  lemma DigitsDenote(m: nat, base: nat, upper: bool)
    requires 2 <= base <= 36
    ensures Denotes(Digits(m, base, upper), base) == Some(m)
  {
    if m == 0 {
      assert "0"[..0] == [];
      assert DigitValue('0') == Some(0);
    } else {
      LowDenotes(m, base, upper);
    }
  }

  /** There are no digits to spare: only zero starts with a zero. */
  lemma {:induction false} NoLeadingZero(m: nat, base: nat, upper: bool)
    requires 2 <= base <= 36 && m > 0
    ensures Low(m, base, upper) != [] && Digits(m, base, upper)[0] != '0'
    decreases m
  {
    hide Quotient;
    hide Remainder;
    hide Append;
    Smaller(m, base);
    var s, q := Low(m, base, upper), Quotient(m, base);
    assert s[1..] == Low(q, base, upper);
    if q == 0 {
      OneDigit(m, upper, s);
    } else {
      NoLeadingZero(q, base, upper);
      assert Reverse(s)[0] == Reverse(s[1..])[0];
    }
  }

  lemma OneDigit(m: nat, upper: bool, s: string)
    requires 0 < m < 36 && s == [DigitChar(m, upper)]
    ensures Reverse(s)[0] != '0'
  {
    assert DigitValue(s[0]) == Some(m);
  }

  /** Letters are of the case asked for. */
  lemma {:induction false} DigitsCase(m: nat, base: nat, upper: bool)
    requires 2 <= base <= 36
    ensures forall c :: c in Digits(m, base, upper) ==> if upper then !('a' <= c <= 'z') else !('A' <= c <= 'Z')
  {
    LowCase(m, base, upper);
    hide Low;
    if m > 0 {
      var s := Low(m, base, upper);
      forall i | 0 <= i < |s| ensures Reverse(s)[i] in s { assert Reverse(s)[i] == s[|s| - 1 - i]; }
    }
  }

  lemma {:induction false} LowCase(m: nat, base: nat, upper: bool)
    requires 2 <= base <= 36
    ensures forall c :: c in Low(m, base, upper) ==> if upper then !('a' <= c <= 'z') else !('A' <= c <= 'Z')
    decreases m
  {
    if m > 0 {
      Smaller(m, base);
      LowCase(Quotient(m, base), base, upper);
      hide Quotient;
      hide Remainder;
    }
  }

  // ----- The layout

  /** The number printed, of a long that is signed or taken as unsigned. */
  function Magnitude(num: int, f: Flags): nat
    requires -0x8000_0000 <= num < 0x8000_0000
  {
    if f.sign && num < 0 then -num else num % ULONG
  }

  function SignOf(num: int, f: Flags): string
  {
    if !f.sign then "" else if num < 0 then "-" else if f.plus then "+" else if f.space then " " else ""
  }

  function Prefix(base: int, f: Flags): string
  {
    if f.hexPrep && base == 16 then "0x" else if f.hexPrep && base == 8 then "0" else ""
  }

  function Repeat(c: char, n: int): (r: string)
    ensures |r| == if n < 0 then 0 else n
    ensures forall i :: 0 <= i < |r| ==> r[i] == c
    decreases n
  {
    if n <= 0 then [] else Repeat(c, n - 1) + [c]
  }

  function Max(a: int, b: int): int { if a > b then a else b }

  /** What is printed: sign, prefix and digits, filled with zeros to the precision, and filled to the width with
      blanks in front, zeros after the prefix or blanks behind. */
  function Layout(num: int, base: int, width: int, precision: int, f: Flags): string
    requires 2 <= base <= 36 && -0x8000_0000 <= num < 0x8000_0000
  {
    var digits := Digits(Magnitude(num, f), base, f.uppercase);
    var front := SignOf(num, f) + Prefix(base, f);
    var body := Repeat('0', precision - |digits|) + digits;
    var pad := width - |front| - |body|;
    if f.left then front + body + Repeat(' ', pad)
    else if f.zeropad then front + Repeat('0', pad) + body
    else Repeat(' ', pad) + front + body
  }

  /** The output is exactly as long as asked for, or as needed. */
  lemma LayoutLength(num: int, base: int, width: int, precision: int, f: Flags)
    requires 2 <= base <= 36 && -0x8000_0000 <= num < 0x8000_0000
    ensures var n := |Digits(Magnitude(num, f), base, f.uppercase)|;
            |Layout(num, base, width, precision, f)| == Max(width, |SignOf(num, f)| + |Prefix(base, f)| + Max(precision, n))
  {
    hide Digits;
    hide SignOf;
    hide Prefix;
  }

  // ----- Reading back

  predicate IsDigit(c: char) { '0' <= c <= '9' }

  /** Where the run of decimal digits from an index on ends. */
  function RunEnd(s: string, at: nat): (e: nat)
    requires at <= |s|
    ensures at <= e <= |s| && (forall i :: at <= i < e ==> IsDigit(s[i])) && (e < |s| ==> !IsDigit(s[e]))
    decreases |s| - at
  {
    if at == |s| || !IsDigit(s[at]) then at else RunEnd(s, at + 1)
  }

  lemma {:induction false} RunIs(s: string, at: nat, e: nat)
    requires at <= e <= |s| && (forall i :: at <= i < e ==> IsDigit(s[i])) && (e < |s| ==> !IsDigit(s[e]))
    ensures RunEnd(s, at) == e
    decreases |s| - at
  {
    if at < e { RunIs(s, at + 1, e); }
  }

  /** The number at the front of a string. */
  function Atoi(s: string): nat
  {
    var d := Denotes(s[..RunEnd(s, 0)], 10);
    if d.Some? then d.value else 0
  }

  lemma {:induction false} ZerosDenote(k: int, base: nat)
    requires base >= 2
    ensures Denotes(Repeat('0', k), base) == Some(0)
    decreases k
  {
    if k > 0 {
      ZerosDenote(k - 1, base);
      var z := Repeat('0', k);
      assert z[..|z| - 1] == Repeat('0', k - 1);
      ZeroDenotes(z, base);
    }
  }

  /** A last zero multiplies by the base. */
  lemma ZeroDenotes(s: string, base: nat)
    requires base >= 2 && s != "" && s[|s| - 1] == '0' && Denotes(s[..|s| - 1], base) == Some(0)
    ensures Denotes(s, base) == Some(0)
  {
    assert Append(0, base, 0) == 0;
    hide Append;
    assert DigitValue('0') == Some(0);
    hide DigitValue;
  }

  lemma {:induction false} LeadingZeros(k: int, s: string, base: nat)
    requires base >= 2 && Denotes(s, base).Some?
    ensures Denotes(Repeat('0', k) + s, base) == Denotes(s, base)
  {
    var z := Repeat('0', k);
    if s == [] {
      ZerosDenote(k, base);
      assert z + s == z;
    } else {
      hide Repeat;
      hide DigitValue;
      var last := |s| - 1;
      LeadingZeros(k, s[..last], base);
      var t := z + s;
      assert t[..|t| - 1] == z + s[..last] && t[|t| - 1] == s[last];
      assert Denotes(t[..|t| - 1], base) == Denotes(s[..last], base);
    }
  }

  lemma {:induction false} DecimalDigits(s: string)
    requires Denotes(s, 10).Some?
    ensures forall i :: 0 <= i < |s| ==> IsDigit(s[i])
  {
    if s != [] {
      var last := |s| - 1;
      DecimalDigits(s[..last]);
      forall i | 0 <= i < |s| ensures IsDigit(s[i]) {
        if i < last { assert s[i] == s[..last][i]; }
      }
    }
  }

  /** A string of digits, then blanks or nothing, reads as what the digits denote. */
  lemma AtoiBody(body: string, n: int, m: nat)
    requires Denotes(body, 10) == Some(m)
    ensures Atoi(body + Repeat(' ', n)) == m
  {
    DecimalDigits(body);
    var s := body + Repeat(' ', n);
    assert forall i :: 0 <= i < |body| ==> s[i] == body[i];
    assert |body| < |s| ==> s[|body|] == ' ';
    RunIs(s, 0, |body|);
    assert s[..|body|] == body;
  }

  /** A non-negative int printed in base 10 without a sign is read back exactly when no blank is put in front
      of it, or it is zero, which a blank reads as too. */
  lemma ReadsBack(num: int, width: int, precision: int, f: Flags)
    requires 0 <= num < 0x8000_0000 && SignOf(num, f) == ""
    ensures Atoi(Layout(num, 10, width, precision, f)) == num <==>
            num == 0 || f.left || f.zeropad || width <= Max(precision, |Digits(num, 10, f.uppercase)|)
  {
    hide *;
    var digits := Digits(num, 10, f.uppercase);
    var zeros := Repeat('0', precision - |digits|);
    DigitsDenote(num, 10, f.uppercase);
    DecimalLayout(num, width, precision, f);
    LeadingZeros(precision - |digits|, digits, 10);
    ReadsBody(zeros + digits, width - |zeros + digits|, f, num, Layout(num, 10, width, precision, f));
    LargerOf(precision, |digits|);
  }

  lemma LargerOf(a: int, b: int)
    ensures Max(a, b) == if a > b then a else b
  {
  }

  /** Digits with zeros or blanks around them. */
  lemma ReadsBody(body: string, pad: int, f: Flags, m: nat, out: string)
    requires Denotes(body, 10) == Some(m)
    requires out == if f.left then body + Repeat(' ', pad)
                    else if f.zeropad then Repeat('0', pad) + body
                    else Repeat(' ', pad) + body
    ensures Atoi(out) == m <==> m == 0 || f.left || f.zeropad || pad <= 0
  {
    hide Denotes;
    hide Atoi;
    hide Repeat;
    if f.left {
      AtoiBody(body, pad, m);
    } else if f.zeropad {
      LeadingZeros(pad, body, 10);
      AtoiWhole(out, m);
    } else if pad <= 0 {
      assert out == body;
      AtoiWhole(body, m);
    } else {
      AtoiBlank(out);
    }
  }

  lemma DecimalLayout(num: int, width: int, precision: int, f: Flags)
    requires 0 <= num < 0x8000_0000 && SignOf(num, f) == ""
    ensures var digits := Digits(num, 10, f.uppercase);
            var body := Repeat('0', precision - |digits|) + digits;
            var pad := width - |body|;
            Layout(num, 10, width, precision, f) ==
            if f.left then body + Repeat(' ', pad)
            else if f.zeropad then Repeat('0', pad) + body
            else Repeat(' ', pad) + body
  {
    hide Digits;
    assert Magnitude(num, f) == num;
    assert SignOf(num, f) + Prefix(10, f) == "";
    var digits := Digits(num, 10, f.uppercase);
    var body := Repeat('0', precision - |digits|) + digits;
    assert "" + body == body;
  }

  lemma AtoiWhole(s: string, m: nat)
    requires Denotes(s, 10) == Some(m)
    ensures Atoi(s) == m
  {
    AtoiBody(s, 0, m);
    assert s + Repeat(' ', 0) == s;
  }

  lemma AtoiBlank(s: string)
    requires s != [] && s[0] == ' '
    ensures Atoi(s) == 0
  {
    assert RunEnd(s, 0) == 0 && s[..0] == [];
  }

  // ----- What is printed denotes the number

  /** Without blanks in front. */
  function Skip(s: string): string
  {
    if s != "" && s[0] == ' ' then Skip(s[1..]) else s
  }

  /** Without blanks behind. */
  function Strip(s: string): string
  {
    if s != "" && s[|s| - 1] == ' ' then Strip(s[..|s| - 1]) else s
  }

  /** The number a text denotes: blanks, a sign, "0x" where there is a prefix in base 16, digits, blanks. */
  function Read(s: string, base: nat, prefix: bool): Option<int>
  {
    var t := Skip(Strip(s));
    var u := if t != "" && (t[0] == '-' || t[0] == '+') then t[1..] else t;
    if prefix && base == 16 && !("0x" <= u) then None
    else
      match Denotes(if prefix && base == 16 then u[2..] else u, base)
      case None => None
      case Some(v) => Some(Signed(t != "" && t[0] == '-', v))
  }

  function Signed(negative: bool, v: int): int { if negative then -v else v }

  lemma {:induction false} SkipBlanks(n: int, s: string)
    requires s == "" || s[0] != ' '
    ensures Skip(Repeat(' ', n) + s) == s
    decreases n
  {
    var t := Repeat(' ', n) + s;
    if n > 0 {
      assert t[0] == ' ' && t[1..] == Repeat(' ', n - 1) + s;
      SkipBlanks(n - 1, s);
    } else {
      assert t == s;
    }
  }

  lemma {:induction false} StripBlanks(s: string, n: int)
    requires s == "" || s[|s| - 1] != ' '
    ensures Strip(s + Repeat(' ', n)) == s
    decreases n
  {
    var t := s + Repeat(' ', n);
    if n > 0 {
      assert t[|t| - 1] == ' ' && t[..|t| - 1] == s + Repeat(' ', n - 1);
      StripBlanks(s, n - 1);
    } else {
      assert t == s;
    }
  }

  lemma {:induction false} AllDigits(s: string, base: nat)
    requires Denotes(s, base).Some?
    ensures forall i :: 0 <= i < |s| ==> DigitValue(s[i]).Some?
  {
    if s != [] {
      var last := |s| - 1;
      AllDigits(s[..last], base);
      forall i | 0 <= i < |s| ensures DigitValue(s[i]).Some? {
        if i < last { assert s[i] == s[..last][i]; }
      }
    }
  }

  lemma NoDigits()
    ensures DigitValue(' ').None? && DigitValue('-').None? && DigitValue('+').None?
  {
  }

  /** Blanks, a sign, a prefix, digits and blanks read as the digits with the sign. */
  lemma ReadShape(a: int, sign: string, base: nat, prefix: bool, body: string, b: int, m: nat)
    requires sign in {"", "-", "+"} && body != "" && Denotes(body, base) == Some(m)
    ensures var front := if prefix && base == 16 then "0x" else "";
            Read(Repeat(' ', a) + (sign + front + body) + Repeat(' ', b), base, prefix) ==
            Some(Signed(sign == "-", m))
  {
    hide Denotes;
    hide Repeat;
    hide Skip;
    hide Strip;
    var front := if prefix && base == 16 then "0x" else "";
    AllDigits(body, base);
    NoDigits();
    hide DigitValue;
    Trimmed(a, sign, front, body, b);
    WithoutSign(sign, front, body);
  }

  lemma Trimmed(a: int, sign: string, front: string, body: string, b: int)
    requires sign in {"", "-", "+"} && front in {"", "0x"} && body != "" && body[0] != ' ' && body[|body| - 1] != ' '
    ensures Skip(Strip(Repeat(' ', a) + (sign + front + body) + Repeat(' ', b))) == sign + front + body
  {
    hide Repeat;
    hide Skip;
    hide Strip;
    var t := sign + front + body;
    var s := Repeat(' ', a) + t;
    assert s[|s| - 1] == body[|body| - 1];
    StripBlanks(s, b);
    assert t[0] == if sign != "" then sign[0] else if front != "" then front[0] else body[0];
    SkipBlanks(a, t);
  }

  lemma WithoutSign(sign: string, front: string, body: string)
    requires sign in {"", "-", "+"} && front in {"", "0x"} && body != "" && body[0] != '-' && body[0] != '+'
    ensures var t := sign + front + body;
            && (t[0] == '-' <==> sign == "-") && (t[0] == '+' <==> sign == "+")
            && var u := if t[0] == '-' || t[0] == '+' then t[1..] else t;
               u == front + body && front <= u && u[|front|..] == body
  {
    var t := sign + front + body;
    if sign != "" { assert t[1..] == front + body; }
    assert (front + body)[|front|..] == body;
  }

  /** The zeros that fill the width. */
  function Fill(pad: int, f: Flags): string { if f.zeropad && !f.left then Repeat('0', pad) else "" }

  /** The blanks in front. */
  function Ahead(pad: int, f: Flags): nat { if f.left || f.zeropad || pad < 0 then 0 else pad }

  lemma LayoutFlat(num: int, base: int, width: int, precision: int, f: Flags)
    requires 2 <= base <= 36 && -0x8000_0000 <= num < 0x8000_0000
    ensures var digits := Digits(Magnitude(num, f), base, f.uppercase);
            var body := Repeat('0', precision - |digits|) + digits;
            var front := SignOf(num, f) + Prefix(base, f);
            var pad := width - |front| - |body|;
            Layout(num, base, width, precision, f) ==
            Repeat(' ', Ahead(pad, f)) + (front + (Fill(pad, f) + body)) + Repeat(' ', if f.left then pad else 0)
  {
    hide Digits;
    hide Magnitude;
    hide SignOf;
    hide Prefix;
    var digits := Digits(Magnitude(num, f), base, f.uppercase);
    var body := Repeat('0', precision - |digits|) + digits;
    var front := SignOf(num, f) + Prefix(base, f);
    var pad := width - |front| - |body|;
    assert Repeat(' ', 0) == "" && (pad < 0 ==> Repeat(' ', pad) == "");
    hide Repeat;
    var out := Layout(num, base, width, precision, f);
    if f.left {
      assert out == "" + (front + ("" + body)) + Repeat(' ', pad);
    } else if f.zeropad {
      assert out == "" + (front + (Repeat('0', pad) + body)) + "";
    } else {
      assert out == Repeat(' ', pad) + (front + ("" + body)) + "";
    }
  }

  /** Zeros in front change nothing. */
  lemma FillDenotes(pad: int, f: Flags, body: string, base: nat)
    requires base >= 2 && Denotes(body, base).Some?
    ensures Denotes(Fill(pad, f) + body, base) == Denotes(body, base) && Denotes("0" + body, base) == Denotes(body, base)
  {
    LeadingZeros(pad, body, base);
    LeadingZeros(1, body, base);
    assert Repeat('0', 1) == "0" && "" + body == body;
    hide Denotes;
    hide Repeat;
  }

  /** The sign that is not blank, and the prefix that is no digit. */
  function Mark(num: int, f: Flags): string { if SignOf(num, f) == " " then "" else SignOf(num, f) }

  function Hex(base: int, f: Flags): string { if f.hexPrep && base == 16 then "0x" else "" }

  /** A blank for a sign is one more in front, and a zero for a prefix one more digit. */
  lemma Regroup(num: int, base: int, f: Flags, ahead: nat, body: string)
    ensures Repeat(' ', ahead) + (SignOf(num, f) + Prefix(base, f) + body) ==
            Repeat(' ', if SignOf(num, f) == " " then ahead + 1 else ahead) +
            (Mark(num, f) + Hex(base, f) + (if Prefix(base, f) == "0" then "0" + body else body))
  {
    assert Repeat(' ', ahead + 1) == Repeat(' ', ahead) + " ";
    hide Repeat;
    var rest := if Prefix(base, f) == "0" then "0" + body else body;
    assert Prefix(base, f) + body == Hex(base, f) + rest;
    hide Prefix;
    hide Hex;
    var blank := SignOf(num, f) == " ";
    assert Mark(num, f) == if blank then "" else SignOf(num, f);
    hide SignOf;
    hide Mark;
    Joined(Repeat(' ', ahead), SignOf(num, f), Prefix(base, f), body, Hex(base, f), rest);
  }

  lemma Joined(blanks: string, sign: string, prefix: string, body: string, hex: string, rest: string)
    requires prefix + body == hex + rest
    ensures blanks + (sign + prefix + body) == blanks + (sign + hex + rest)
    ensures blanks + (sign + prefix + body) == blanks + sign + ("" + hex + rest)
  {
    assert sign + prefix + body == sign + (prefix + body);
    assert sign + (hex + rest) == sign + hex + rest && "" + hex + rest == hex + rest;
    assert blanks + (sign + (hex + rest)) == blanks + sign + (hex + rest);
  }

  /** The parts of what is printed. */
  lemma PrintedShape(num: int, base: int, width: int, precision: int, f: Flags) returns (a: int, rest: string, b: int)
    requires 2 <= base <= 36 && -0x8000_0000 <= num < 0x8000_0000
    ensures rest != "" && Denotes(rest, base) == Some(Magnitude(num, f))
    ensures Layout(num, base, width, precision, f) == Repeat(' ', a) + (Mark(num, f) + Hex(base, f) + rest) + Repeat(' ', b)
  {
    hide *;
    var m := Magnitude(num, f);
    var digits := Digits(m, base, f.uppercase);
    var body := Repeat('0', precision - |digits|) + digits;
    DigitsDenote(m, base, f.uppercase);
    LeadingZeros(precision - |digits|, digits, base);
    var pad := width - |SignOf(num, f) + Prefix(base, f)| - |body|;
    FillDenotes(pad, f, body, base);
    var all := Fill(pad, f) + body;
    FillDenotes(0, f, all, base);
    LayoutFlat(num, base, width, precision, f);
    Regroup(num, base, f, Ahead(pad, f), all);
    a := if SignOf(num, f) == " " then Ahead(pad, f) + 1 else Ahead(pad, f);
    rest := if Prefix(base, f) == "0" then "0" + all else all;
    b := if f.left then pad else 0;
  }

  /** Whatever the flags, width and precision, what is printed reads as the number, with its sign if it is signed and
      as an unsigned word if it is not. */
  lemma PrintedDenotes(num: int, base: int, width: int, precision: int, f: Flags)
    requires 2 <= base <= 36 && -0x8000_0000 <= num < 0x8000_0000
    ensures Read(Layout(num, base, width, precision, f), base, f.hexPrep) ==
            Some(if f.sign then num else if num < 0 then num + ULONG else num)
  {
    hide *;
    var a, rest, b := PrintedShape(num, base, width, precision, f);
    SignFacts(num, base, f);
    ReadShape(a, Mark(num, f), base, f.hexPrep, rest, b, Magnitude(num, f));
  }

  /** A sign is printed exactly for a signed number, "-" if it is negative and "+" if it is not and that was asked
      for. */
  lemma SignPrinted(num: int, base: int, width: int, precision: int, f: Flags)
    requires 2 <= base <= 36 && -0x8000_0000 <= num < 0x8000_0000
    ensures var out := Layout(num, base, width, precision, f);
            ('-' in out <==> f.sign && num < 0) && ('+' in out <==> f.sign && num >= 0 && f.plus)
  {
    hide Layout;
    hide Repeat;
    hide Denotes;
    hide Magnitude;
    var a, rest, b := PrintedShape(num, base, width, precision, f);
    AllDigits(rest, base);
    NoDigits();
    hide DigitValue;
    var mark, hex := Mark(num, f), Hex(base, f);
    forall c | c in {'-', '+'} ensures c in Layout(num, base, width, precision, f) <==> c in mark {
      assert c !in Repeat(' ', a) && c !in Repeat(' ', b) && c !in hex && c !in rest;
      InParts(c, Repeat(' ', a), mark, hex, rest, Repeat(' ', b));
    }
  }

  lemma InParts(c: char, a: string, mark: string, hex: string, rest: string, b: string)
    requires c !in a && c !in b && c !in hex && c !in rest
    ensures c in a + (mark + hex + rest) + b <==> c in mark
  {
  }

  lemma SignFacts(num: int, base: int, f: Flags)
    requires -0x8000_0000 <= num < 0x8000_0000
    ensures Mark(num, f) in {"", "-", "+"} && (Mark(num, f) == "-" <==> f.sign && num < 0)
    ensures Hex(base, f) == if f.hexPrep && base == 16 then "0x" else ""
    ensures Signed(f.sign && num < 0, Magnitude(num, f)) ==
            if f.sign then num else if num < 0 then num + ULONG else num
  {
  }

  // ----- The code

  /** ee_skip_atoi */
  method SkipAtoi(s: string, at: nat) returns (v: nat, end: nat)
    requires at <= |s|
    ensures end == RunEnd(s, at) && Denotes(s[at..end], 10) == Some(v)
  {
    hide Denotes;
    v, end := 0, at;
    DenotesNothing(s, at);
    while end < |s| && IsDigit(s[end])
      invariant at <= end <= |s| && RunEnd(s, end) == RunEnd(s, at)
      invariant Denotes(s[at..end], 10) == Some(v)
    {
      DenotesMore(s, at, end, 10, v);
      v := v * 10 + (s[end] - '0') as nat;
      end := end + 1;
    }
  }

  lemma DenotesNothing(s: string, at: nat)
    requires at <= |s|
    ensures Denotes(s[at..at], 10) == Some(0)
  {
    assert s[at..at] == [];
  }

  lemma DenotesMore(s: string, at: nat, end: nat, base: nat, v: nat)
    requires at <= end < |s| && Denotes(s[at..end], base) == Some(v) && IsDigit(s[end]) && (s[end] - '0') as nat < base
    ensures Denotes(s[at..end + 1], base) == Some(v * base + (s[end] - '0') as nat)
  {
    assert s[at..end + 1][..end - at] == s[at..end];
    assert s[at..end + 1][end - at] == s[end];
  }

  function Padded(out: string, c: char, size: int): string
  {
    if size > 0 then out + Repeat(c, size) else out
  }

  /** One of the loops that put `size` characters, leaving size negative. */
  method Pad(out: string, c: char, size: int) returns (r: string, left: int)
    ensures r == Padded(out, c, size) && left < 0
  {
    r, left := out, size;
    assert out + [] == out;
    while left > 0
      invariant left <= size && (size > 0 ==> 0 <= left) && (size <= 0 ==> left == size)
      invariant r == out + Repeat(c, size - left)
    {
      r := r + [c];
      left := left - 1;
    }
    left := left - 1;
  }

  /** The loop that takes digits off the number. */
  method TakeDigits(m: nat, base: nat, upper: bool) returns (tmp: string)
    requires 2 <= base <= 36
    ensures Reverse(tmp) == Digits(m, base, upper)
  {
    tmp := [];
    if m == 0 {
      tmp := ['0'];
      return;
    }
    hide Low;
    hide Reverse;
    var num: nat := m;
    while num != 0
      invariant tmp + Low(num, base, upper) == Low(m, base, upper)
    {
      var c, rest := LowStep(num, base, upper);
      assert tmp + [c] + Low(rest, base, upper) == tmp + ([c] + Low(rest, base, upper));
      tmp := tmp + [c];
      num := rest;
    }
    NoLow(base, upper);
    assert tmp + [] == tmp;
  }

  /** The lowest digit and the number without it. */
  method LowStep(m: nat, base: nat, upper: bool) returns (c: char, rest: nat)
    requires 2 <= base <= 36 && m > 0
    ensures rest < m && Low(m, base, upper) == [c] + Low(rest, base, upper)
  {
    Smaller(m, base);
    c := DigitChar(Remainder(m, base), upper);
    rest := Quotient(m, base);
  }

  lemma NoLow(base: nat, upper: bool)
    requires 2 <= base <= 36
    ensures Low(0, base, upper) == []
  {
  }

  /** The loop that puts the digits, the highest first. */
  method PutDigits(out: string, tmp: string) returns (r: string)
    ensures r == out + Reverse(tmp)
  {
    r := out;
    var i := |tmp|;
    ghost var digits := Reverse(tmp);
    assert out + digits[..0] == out;
    while i > 0
      invariant 0 <= i <= |tmp| && r == out + digits[..|tmp| - i]
    {
      i := i - 1;
      assert digits[..|tmp| - i] == digits[..|tmp| - i - 1] + [tmp[i]];
      r := r + [tmp[i]];
    }
    assert digits[..|tmp|] == digits;
  }

  method PutFront(out: string, sign: string, base: int, f: Flags) returns (r: string)
    ensures r == out + sign + Prefix(base, f)
  {
    r := out + sign;
    if f.hexPrep {
      if base == 8 {
        r := r + "0";
      } else if base == 16 {
        r := r + "0";
        r := r + "x";
      }
    }
  }

  /** ee_number; no result for a base it does not know. */
  method Number(num: int, base: int, width: int, precision: int, f: Flags) returns (r: Option<string>)
    requires -0x8000_0000 <= num < 0x8000_0000
    ensures r == if 2 <= base <= 36 then Some(Layout(num, base, width, precision, f)) else None
  {
    if base < 2 || base > 36 {
      return None;
    }
    hide Digits;
    hide Layout;
    hide Magnitude;
    hide SignOf;
    hide Prefix;
    hide Padded;
    var zeropad := f.zeropad && !f.left;
    var sign := SignOf(num, f);
    var size := width - |sign| - |Prefix(base, f)|;
    var tmp := TakeDigits(Magnitude(num, f), base, f.uppercase);
    var p := if |tmp| > precision then |tmp| else precision;
    size := size - p;
    ghost var pad := size;
    Assembled(num, base, width, precision, f, p, pad);
    var str := "";
    if !zeropad && !f.left {
      str, size := Pad(str, ' ', size);
    }
    str := PutFront(str, sign, base, f);
    if !f.left {
      PaddedNot(str, ' ', size);
      str, size := Pad(str, if zeropad then '0' else ' ', size);
    }
    var z;
    str, z := Pad(str, '0', p - |tmp|);
    str := PutDigits(str, tmp);
    PaddedNot(str, ' ', size);
    str, size := Pad(str, ' ', size);
    r := Some(str);
  }

  lemma PaddedNot(out: string, c: char, size: int)
    ensures size <= 0 ==> Padded(out, c, size) == out
  {
  }

  /** The pieces in the order they are put. */
  ghost function Pieces(sign: string, prefix: string, digits: string, f: Flags, p: int, pad: int): string
  {
    var first := if f.left || f.zeropad then "" else Padded("", ' ', pad);
    var front := first + sign + prefix;
    var second := if f.zeropad && !f.left then Padded(front, '0', pad) else front;
    var most := Padded(second, '0', p - |digits|) + digits;
    if f.left then Padded(most, ' ', pad) else most
  }

  lemma Assembled(num: int, base: int, width: int, precision: int, f: Flags, p: int, pad: int)
    requires 2 <= base <= 36 && -0x8000_0000 <= num < 0x8000_0000
    requires var n := |Digits(Magnitude(num, f), base, f.uppercase)|;
             p == Max(n, precision) && pad == width - |SignOf(num, f)| - |Prefix(base, f)| - p
    ensures var digits := Digits(Magnitude(num, f), base, f.uppercase);
            Pieces(SignOf(num, f), Prefix(base, f), digits, f, p, pad) == Layout(num, base, width, precision, f)
  {
    hide Digits;
    hide SignOf;
    hide Prefix;
    hide Magnitude;
    var digits := Digits(Magnitude(num, f), base, f.uppercase);
    var sign, prefix := SignOf(num, f), Prefix(base, f);
    var zeros := Repeat('0', precision - |digits|);
    SameRepeat('0', precision - |digits|);
    assert zeros == Repeat('0', p - |digits|);
    var first := if f.left || f.zeropad then "" else Padded("", ' ', pad);
    var second := if f.zeropad && !f.left then Repeat('0', pad) else "";
    hide Repeat;
    assert first == if f.left || f.zeropad then "" else Repeat(' ', pad);
    Join(sign, prefix, first, second, zeros, digits, if f.left then Repeat(' ', pad) else "");
  }

  /** Pieces put one after another, some of them empty. */
  lemma Join(a: string, b: string, first: string, second: string, zeros: string, digits: string, last: string)
    ensures first + a + b + second + zeros + digits + last == first + (a + b) + second + (zeros + digits) + last
    ensures second == "" ==> first + a + b + second == first + a + b
    ensures zeros == "" ==> first + a + b + second + zeros == first + a + b + second
    ensures last == "" ==> first + a + b + second + zeros + digits + last == first + a + b + second + zeros + digits
    ensures first == "" ==> first + (a + b) == a + b
    ensures second == "" ==> first + (a + b) + second == first + (a + b)
    ensures last == "" ==> first + (a + b) + second + (zeros + digits) + last == first + (a + b) + second + (zeros + digits)
  {
    assert first + a + b == first + (a + b);
    assert first + a + b + second + zeros + digits == first + (a + b) + second + (zeros + digits);
  }

  lemma SameRepeat(c: char, n: int)
    ensures Repeat(c, Max(n, 0)) == Repeat(c, n)
  {
  }
}
